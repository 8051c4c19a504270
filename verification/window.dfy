/** A bounded window: the model of `collections.deque(maxlen=cap)` as the
    client uses it (append only, oldest entry evicted beyond `cap`). */
module Window {

  function Min(a: nat, b: nat): nat
  {
    if a <= b then a else b
  }

  /** Reference definition: the last `cap` elements of `xs` (all of them when
      there are fewer), in their original order. */
  function Last<T>(xs: seq<T>, cap: nat): seq<T>
  {
    xs[|xs| - Min(|xs|, cap)..]
  }

  /** `deque.append` on a deque with `maxlen == cap`: when the deque is full
      the head is dropped first; a zero-capacity deque stays empty. The result
      is never longer than `cap` and ends with the new entry. */
  function Push<T>(w: seq<T>, x: T, cap: nat): (r: seq<T>)
    requires |w| <= cap
    ensures |r| == Min(|w| + 1, cap)
    ensures 0 < |r| ==> r[|r| - 1] == x
  {
    if cap == 0 then []
    else if |w| < cap then w + [x]
    else w[1..] + [x]
  }

  /** Appending keeps the last `cap` entries of the old contents followed by
      the new one. */
  lemma PushIsLast<T>(w: seq<T>, x: T, cap: nat)
    requires |w| <= cap
    ensures Push(w, x, cap) == Last(w + [x], cap)
  {
    if 0 < cap && |w| == cap {
      assert w[1..] + [x] == (w + [x])[1..];
    }
  }

  /** Pushing onto the last `cap` elements keeps the last `cap` elements. */
  lemma PushLast<T>(xs: seq<T>, x: T, cap: nat)
    ensures Push(Last(xs, cap), x, cap) == Last(xs + [x], cap)
  {
    var w := Last(xs, cap);
    PushIsLast(w, x, cap);
    assert w + [x] == (xs + [x])[|xs| - Min(|xs|, cap)..];
  }

  /** A history no longer than `cap` is kept whole. */
  lemma LastShort<T>(xs: seq<T>, cap: nat)
    requires |xs| <= cap
    ensures Last(xs, cap) == xs
  {
  }

  /** Position `i` of the window is position `i` of the last `cap` elements. */
  lemma LastAt<T>(xs: seq<T>, cap: nat, i: nat)
    requires i < Min(|xs|, cap)
    ensures |Last(xs, cap)| == Min(|xs|, cap)
    ensures Last(xs, cap)[i] == xs[|xs| - Min(|xs|, cap) + i]
  {
  }
}
