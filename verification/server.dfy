/** The server's stream session (server.py, `StreamTemperature`): a
    subscribing phase that folds incoming requests into a per-call registry,
    followed by a broadcasting phase that sweeps that registry forever. */
module Server {
  import opened Messages

  /** The two phases of one session. The registry `reg` belongs to the session
      alone; `emitted` is everything written to the outbound half so far. */
  datatype Session =
    | Subscribing(reg: set<string>)
    | Broadcasting(reg: set<string>, emitted: seq<Sample>)

  /** A new call starts subscribing with an empty registry of its own. */
  function Start(): (s: Session)
    ensures s.Subscribing? && s.reg == {}
  {
    Subscribing({})
  }

  /** One request read from the inbound half. Adding a location is idempotent.
      Once broadcasting, the session never reads its inbound half again, so a
      request has no effect on it. */
  function Receive(s: Session, req: Request): (r: Session)
    ensures r.Subscribing? == s.Subscribing?
    ensures s.Subscribing? ==> r.reg == s.reg + {req.location}
    ensures req.location in s.reg ==> r == s
    ensures s.Broadcasting? ==> r == s
  {
    match s
    case Subscribing(reg) => Subscribing(reg + {req.location})
    case Broadcasting(_, _) => s
  }

  /** Requests read in arrival order. */
  function ReceiveAll(s: Session, reqs: seq<Request>): (r: Session)
    ensures r.Subscribing? == s.Subscribing?
    ensures s.Subscribing? ==> r.reg == s.reg + LocationsOf(reqs)
    ensures s.Broadcasting? ==> r == s
    decreases |reqs|
  {
    if |reqs| == 0 then s
    else
      assert LocationsOf(reqs) == {reqs[0].location} + LocationsOf(reqs[1..]) by {
        forall l | l in LocationsOf(reqs) ensures l in {reqs[0].location} + LocationsOf(reqs[1..]) {
          var i :| 0 <= i < |reqs| && reqs[i].location == l;
          if i > 0 { assert reqs[1..][i - 1].location == l; }
        }
      }
      ReceiveAll(Receive(s, reqs[0]), reqs[1..])
  }

  /** The registry a whole subscribing phase builds: exactly the distinct
      locations requested. */
  function Subscribe(reqs: seq<Request>): (reg: set<string>)
    ensures reg == LocationsOf(reqs)
    ensures |reg| <= |reqs|
  {
    SubscribeBound(reqs);
    ReceiveAll(Start(), reqs).reg
  }

  /** There are no more distinct locations than requests. */
  lemma {:induction false} SubscribeBound(reqs: seq<Request>)
    ensures |LocationsOf(reqs)| <= |reqs|
    decreases |reqs|
  {
    if |reqs| > 0 {
      var last := reqs[|reqs| - 1];
      var init := reqs[..|reqs| - 1];
      assert LocationsOf(reqs) == LocationsOf(init) + {last.location} by {
        forall l | l in LocationsOf(reqs) ensures l in LocationsOf(init) + {last.location} {
          var i :| 0 <= i < |reqs| && reqs[i].location == l;
          if i < |reqs| - 1 { assert init[i].location == l; }
        }
      }
      SubscribeBound(init);
    }
  }

  /** End of input on the inbound half: the only transition into broadcasting,
      taken once; the registry is carried over unchanged. */
  function EndOfInput(s: Session): (r: Session)
    ensures r.Broadcasting? && r.reg == s.reg
    ensures s.Subscribing? ==> r.emitted == []
    ensures s.Broadcasting? ==> r == s
  {
    match s
    case Subscribing(reg) => Broadcasting(reg, [])
    case Broadcasting(_, _) => s
  }

  /** One sweep of the broadcast loop over `reg`, in whatever order the set is
      enumerated. `reading` and `clock` stand for the random temperature and the
      current time drawn for each location during this sweep. */
  method Sweep(reg: set<string>, reading: string -> Temperature, clock: string -> string)
    returns (out: seq<Sample>)
    ensures |out| == |reg|
    ensures forall i :: 0 <= i < |out| ==>
              && out[i].location in reg
              && out[i].temperature == reading(out[i].location)
              && out[i].timestamp == clock(out[i].location)
    ensures forall loc :: Count(out, loc) == if loc in reg then 1 else 0
  {
    var remaining := reg;
    out := [];
    while remaining != {}
      invariant remaining <= reg
      invariant |out| + |remaining| == |reg|
      invariant forall i :: 0 <= i < |out| ==>
                  && out[i].location in reg - remaining
                  && out[i].temperature == reading(out[i].location)
                  && out[i].timestamp == clock(out[i].location)
      invariant forall loc :: Count(out, loc) == if loc in reg - remaining then 1 else 0
      decreases remaining
    {
      var loc :| loc in remaining;
      var prev := out;
      out := out + [Sample(loc, reading(loc), clock(loc))];
      assert out[..|out| - 1] == prev;
      remaining := remaining - {loc};
    }
  }

  /** One tick of the session: a broadcasting session appends a full sweep of
      its registry; a session still subscribing emits nothing. */
  method Tick(s: Session, reading: string -> Temperature, clock: string -> string)
    returns (r: Session)
    ensures r.Subscribing? == s.Subscribing? && r.reg == s.reg
    ensures s.Subscribing? ==> r == s
    ensures s.Broadcasting? ==>
              && |r.emitted| == |s.emitted| + |s.reg|
              && r.emitted[..|s.emitted|] == s.emitted
              && forall loc :: Count(r.emitted, loc) == Count(s.emitted, loc) + (if loc in s.reg then 1 else 0)
  {
    if s.Subscribing? {
      return s;
    }
    var out := Sweep(s.reg, reading, clock);
    r := Broadcasting(s.reg, s.emitted + out);
    assert r.emitted[..|s.emitted|] == s.emitted;
    forall loc
      ensures Count(r.emitted, loc) == Count(s.emitted, loc) + (if loc in s.reg then 1 else 0)
    {
      CountAppend(s.emitted, out, loc);
    }
  }

  /** `k` sweeps of the broadcast loop (the source's `while True`, cut at `k`).
      `reading(j, loc)` and `clock(j, loc)` are the draws of sweep `j`. */
  method Broadcast(s: Session, k: nat, reading: (nat, string) -> Temperature, clock: (nat, string) -> string)
    returns (r: Session)
    ensures r.Subscribing? == s.Subscribing? && r.reg == s.reg
    ensures s.Subscribing? ==> r == s
    ensures s.Broadcasting? ==>
              && |r.emitted| == |s.emitted| + k * |s.reg|
              && r.emitted[..|s.emitted|] == s.emitted
              && forall loc :: Count(r.emitted, loc) == Count(s.emitted, loc) + (if loc in s.reg then k else 0)
  {
    r := s;
    var j := 0;
    while j < k
      invariant j <= k
      invariant r.Subscribing? == s.Subscribing? && r.reg == s.reg
      invariant s.Subscribing? ==> r == s
      invariant s.Broadcasting? ==>
                  && |r.emitted| == |s.emitted| + j * |s.reg|
                  && r.emitted[..|s.emitted|] == s.emitted
                  && forall loc :: Count(r.emitted, loc) == Count(s.emitted, loc) + (if loc in s.reg then j else 0)
    {
      var prev := r;
      r := Tick(r, (loc: string) => reading(j, loc), (loc: string) => clock(j, loc));
      if s.Broadcasting? {
        assert r.emitted[..|prev.emitted|] == prev.emitted;
        assert r.emitted[..|s.emitted|] == prev.emitted[..|s.emitted|];
        assert |r.emitted| == |s.emitted| + j * |s.reg| + |s.reg|;
        assert (j + 1) * |s.reg| == j * |s.reg| + |s.reg|;
      }
      j := j + 1;
    }
  }

  /** A whole session cut after `k` sweeps: subscribe to `reqs`, see end of
      input, then broadcast. */
  method Run(reqs: seq<Request>, k: nat, reading: (nat, string) -> Temperature, clock: (nat, string) -> string)
    returns (r: Session)
    ensures r.Broadcasting? && r.reg == LocationsOf(reqs)
    ensures |r.emitted| == k * |LocationsOf(reqs)|
    ensures forall loc :: Count(r.emitted, loc) == if loc in LocationsOf(reqs) then k else 0
    ensures reqs == [] ==> r.emitted == []
  {
    var s := ReceiveAll(Start(), reqs);
    s := EndOfInput(s);
    r := Broadcast(s, k, reading, clock);
    assert r.emitted[..0] == [];
  }
}
