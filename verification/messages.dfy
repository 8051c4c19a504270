/** Wire messages of the temperature streaming service.

    The generated protocol-buffer modules are not part of this model; both
    message types are plain immutable datatypes here. */
module Messages {

  /** A reading as carried on the wire. The source's `float` is modelled as a
      `real`; no operation of the model ever inspects its value. */
  type Temperature = real

  /** Client -> server: "monitor this location". */
  datatype Request = Request(location: string)

  /** Server -> client: one reading for one location, with the ISO 8601
      timestamp of its generation as text. */
  datatype Sample = Sample(location: string, temperature: Temperature, timestamp: string)

  /** The set of distinct locations named by a sequence of requests. */
  function LocationsOf(reqs: seq<Request>): set<string>
  {
    set i | 0 <= i < |reqs| :: reqs[i].location
  }

  /** How many samples of `stream` are for `loc`. */
  function Count(stream: seq<Sample>, loc: string): nat
  {
    if |stream| == 0 then 0
    else Count(stream[..|stream| - 1], loc) + (if stream[|stream| - 1].location == loc then 1 else 0)
  }

  /** Counting distributes over concatenation of streams. */
  lemma {:induction false} CountAppend(a: seq<Sample>, b: seq<Sample>, loc: string)
    ensures Count(a + b, loc) == Count(a, loc) + Count(b, loc)
    decreases |b|
  {
    if |b| == 0 {
      assert a + b == a;
    } else {
      var b' := b[..|b| - 1];
      assert (a + b)[..|a + b| - 1] == a + b';
      CountAppend(a, b', loc);
    }
  }
}
