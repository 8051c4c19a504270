/** Turning a sample's ISO 8601 timestamp into the clock text shown on the
    plot: the text after the last "T", the date/time designator of
    ISO 8601:2004, section 4.3.2. Python's `str.split` with a one-character
    separator is modelled exactly. */
module TimeFormat {

  /** `s.split(sep)` for a one-character separator: the maximal separator-free
      pieces between separators, at least one. */
  function Split(s: string, sep: char): (parts: seq<string>)
    ensures |parts| >= 1
    decreases |s|
  {
    if |s| == 0 then [""]
    else
      var rest := Split(s[1..], sep);
      if s[0] == sep then [""] + rest
      else [[s[0]] + rest[0]] + rest[1..]
  }

  /** No part of a split contains the separator. */
  lemma {:induction false} SplitPartsFree(s: string, sep: char)
    ensures forall i :: 0 <= i < |Split(s, sep)| ==> sep !in Split(s, sep)[i]
    decreases |s|
  {
    if |s| > 0 {
      SplitPartsFree(s[1..], sep);
      var rest := Split(s[1..], sep);
      var parts := Split(s, sep);
      if s[0] == sep {
        assert parts == [""] + rest;
      } else {
        var head := [s[0]] + rest[0];
        assert sep !in rest[0];
        assert forall k :: 0 <= k < |head| ==> head[k] != sep by {
          forall k | 0 <= k < |head| ensures head[k] != sep {
            if k > 0 { assert head[k] == rest[0][k - 1]; }
          }
        }
        assert parts == [head] + rest[1..];
        assert forall i :: 1 <= i < |parts| ==> parts[i] == rest[i];
      }
    }
  }

  /** Round trip: joining the parts of a split with the separator rebuilds the
      text. */
  lemma {:induction false} JoinSplit(s: string, sep: char)
    ensures Join(Split(s, sep), sep) == s
    decreases |s|
  {
    if |s| > 0 {
      var rest := Split(s[1..], sep);
      JoinSplit(s[1..], sep);
      var parts := Split(s, sep);
      if s[0] == sep {
        assert parts == [""] + rest;
        assert parts[1..] == rest;
        assert Join(parts, sep) == [sep] + Join(rest, sep);
      } else {
        assert parts == [[s[0]] + rest[0]] + rest[1..];
        if |rest| > 1 {
          assert parts[1..] == rest[1..];
          assert Join(parts, sep) == [s[0]] + Join(rest, sep);
        } else {
          assert Join(parts, sep) == [s[0]] + Join(rest, sep);
        }
      }
      assert [s[0]] + s[1..] == s;
    }
  }

  /** `sep.join(parts)`, the inverse of `Split`. */
  function Join(parts: seq<string>, sep: char): string
    requires |parts| >= 1
    decreases |parts|
  {
    if |parts| == 1 then parts[0]
    else parts[0] + [sep] + Join(parts[1..], sep)
  }

  /** Splitting text that starts with a separator-free piece `p`: `p` is glued
      to the first part of the rest. */
  lemma {:induction false} SplitPrefix(p: string, tail: string, sep: char)
    requires sep !in p
    ensures var t := Split(tail, sep);
            Split(p + tail, sep) == [p + t[0]] + t[1..]
    decreases |p|
  {
    if |p| > 0 {
      assert (p + tail)[1..] == p[1..] + tail;
      assert (p + tail)[0] == p[0];
      SplitPrefix(p[1..], tail, sep);
      assert [p[0]] + (p[1..] + Split(tail, sep)[0]) == p + Split(tail, sep)[0];
    } else {
      var t := Split(tail, sep);
      assert p + tail == tail;
      assert p + t[0] == t[0];
      assert [t[0]] + t[1..] == t;
    }
  }

  /** Round trip: joining separator-free pieces and splitting again gives the
      pieces back. */
  lemma {:induction false} SplitJoin(parts: seq<string>, sep: char)
    requires |parts| >= 1
    requires forall i :: 0 <= i < |parts| ==> sep !in parts[i]
    ensures Split(Join(parts, sep), sep) == parts
    decreases |parts|
  {
    if |parts| == 1 {
      SplitPrefix(parts[0], "", sep);
      assert parts[0] + "" == parts[0];
    } else {
      var rest := Join(parts[1..], sep);
      var tail := [sep] + rest;
      SplitJoin(parts[1..], sep);
      assert tail[0] == sep && tail[1..] == rest;
      var t := Split(tail, sep);
      assert t == [""] + parts[1..];
      SplitPrefix(parts[0], tail, sep);
      assert Join(parts, sep) == parts[0] + tail;
      assert parts[0] + t[0] == parts[0];
      assert t[1..] == parts[1..];
      assert [parts[0]] + parts[1..] == parts;
    }
  }

  /** The last part of a split is a suffix of the input: all of it when
      there is one part, and otherwise directly preceded by a separator. */
  lemma {:induction false} LastPartIsSuffix(s: string, sep: char)
    ensures var parts := Split(s, sep);
            var r := parts[|parts| - 1];
            && |r| <= |s| && r == s[|s| - |r|..]
            && (|parts| == 1 ==> r == s)
            && (|parts| > 1 ==> |r| < |s| && s[|s| - |r| - 1] == sep)
    decreases |s|
  {
    if |s| > 0 {
      var tail := s[1..];
      var rest := Split(tail, sep);
      var r := rest[|rest| - 1];
      LastPartIsSuffix(tail, sep);
      var parts := Split(s, sep);
      assert tail[|tail| - |r|..] == s[|s| - |r|..];
      if s[0] == sep {
        assert parts == [""] + rest;
        assert parts[|parts| - 1] == r;
        if |rest| > 1 {
          assert s[|s| - |r| - 1] == tail[|tail| - |r| - 1];
        }
      } else if |rest| > 1 {
        assert parts == [[s[0]] + rest[0]] + rest[1..];
        assert parts[|parts| - 1] == r;
        assert s[|s| - |r| - 1] == tail[|tail| - |r| - 1];
      } else {
        assert parts == [[s[0]] + rest[0]];
        assert [s[0]] + tail == s;
      }
    }
  }

  /** The text after the last "T" of `timestamp` (all of it when there is
      none), read from the end. */
  function DisplayTime(timestamp: string): string
    decreases |timestamp|
  {
    if |timestamp| == 0 || timestamp[|timestamp| - 1] == 'T' then ""
    else DisplayTime(timestamp[..|timestamp| - 1]) + [timestamp[|timestamp| - 1]]
  }

  /** The display time contains no "T", is a suffix of the timestamp, is
      preceded by "T" unless it is the whole timestamp, and is the whole
      timestamp when there is no "T". */
  lemma {:induction false} DisplayTimeSuffix(timestamp: string)
    ensures var r := DisplayTime(timestamp);
            && 'T' !in r
            && |r| <= |timestamp| && r == timestamp[|timestamp| - |r|..]
            && (|r| < |timestamp| ==> timestamp[|timestamp| - |r| - 1] == 'T')
            && ('T' !in timestamp ==> r == timestamp)
    decreases |timestamp|
  {
    var n := |timestamp|;
    if n > 0 && timestamp[n - 1] != 'T' {
      var init := timestamp[..n - 1];
      DisplayTimeSuffix(init);
      var r0 := DisplayTime(init);
      var r := r0 + [timestamp[n - 1]];
      assert r == timestamp[n - |r|..];
      if |r| < n {
        assert timestamp[n - |r| - 1] == init[|init| - |r0| - 1];
      }
      if 'T' !in timestamp {
        assert 'T' !in init;
        assert init + [timestamp[n - 1]] == timestamp;
      }
    } else if n > 0 {
      assert timestamp[n - 1] in timestamp;
    }
  }

  /** The suffix conditions pin the display time down: any "T"-free suffix
      that is the whole text or follows a "T" is the display time. */
  lemma DisplayTimeUnique(timestamp: string, r: string)
    requires 'T' !in r
    requires |r| <= |timestamp| && r == timestamp[|timestamp| - |r|..]
    requires |r| < |timestamp| ==> timestamp[|timestamp| - |r| - 1] == 'T'
    ensures DisplayTime(timestamp) == r
  {
    DisplayTimeSuffix(timestamp);
  }

  /** `timestamp.split("T")[-1]`: the display time is exactly the last part of
      Python's split on "T". */
  lemma DisplayTimeIsLastPart(timestamp: string)
    ensures var parts := Split(timestamp, 'T');
            DisplayTime(timestamp) == parts[|parts| - 1]
  {
    var parts := Split(timestamp, 'T');
    LastPartIsSuffix(timestamp, 'T');
    SplitPartsFree(timestamp, 'T');
    DisplayTimeUnique(timestamp, parts[|parts| - 1]);
  }
}
