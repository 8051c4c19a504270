/** The client's receive loop (client.py, `run`): the request generator, the
    per-location windowed series store, the plot-line layout and the
    dispatcher that applies each received sample. */
module Client {
  import opened Messages
  import opened Window
  import opened TimeFormat

  /** The configured locations, in the order they are requested and laid out. */
  const Configured: seq<string> := ["New York", "San Francisco", "London"]

  /** `maxlen` of every per-location deque. */
  const Capacity: nat := 20

  /** One request per configured location, in list order. */
  function Requests(locs: seq<string>): (reqs: seq<Request>)
    ensures |reqs| == |locs|
    ensures forall i :: 0 <= i < |locs| ==> reqs[i].location == locs[i]
    ensures LocationsOf(reqs) == Members(locs)
  {
    var reqs := seq(|locs|, i requires 0 <= i < |locs| => Request(locs[i]));
    assert LocationsOf(reqs) == Members(locs) by {
      forall l | l in locs ensures l in LocationsOf(reqs) {
        var i :| 0 <= i < |locs| && locs[i] == l;
        assert reqs[i].location == l;
      }
    }
    reqs
  }

  /** `i` is the position of the last occurrence of `l` in `locs`. */
  ghost predicate LastOccurrence(locs: seq<string>, l: string, i: int)
  {
    && 0 <= i < |locs| && locs[i] == l
    && forall j :: i < j < |locs| ==> locs[j] != l
  }

  /** The distinct locations of a list. */
  function Members(locs: seq<string>): set<string>
  {
    set l | l in locs
  }

  /** The plot lines: one per configured location, identified by its position
      in the list (which also fixes its colour). A location listed twice keeps
      the line of its last occurrence, as a dict comprehension does. */
  function Layout(locs: seq<string>): (lines: map<string, nat>)
    ensures lines.Keys == Members(locs)
    ensures forall l :: l in lines ==> LastOccurrence(locs, l, lines[l])
    decreases |locs|
  {
    if |locs| == 0 then map[]
    else
      var prev := Layout(locs[..|locs| - 1]);
      LayoutStepKeys(locs, prev);
      LayoutStepLines(locs, prev);
      prev[locs[|locs| - 1] := |locs| - 1]
  }

  /** Adding the last location of `locs` to the lines of the others covers
      every location of `locs`. */
  lemma LayoutStepKeys(locs: seq<string>, prev: map<string, nat>)
    requires |locs| > 0
    requires prev.Keys == Members(locs[..|locs| - 1])
    ensures prev[locs[|locs| - 1] := |locs| - 1].Keys == Members(locs)
  {
    var init := locs[..|locs| - 1];
    forall l | l in locs ensures l in Members(init) + {locs[|locs| - 1]} {
      var i :| 0 <= i < |locs| && locs[i] == l;
      if i < |locs| - 1 { assert init[i] == l; }
    }
  }

  /** The last location's line is its last occurrence, and every other line
      stays the last occurrence of its location. */
  lemma LayoutStepLines(locs: seq<string>, prev: map<string, nat>)
    requires |locs| > 0
    requires forall l :: l in prev ==> LastOccurrence(locs[..|locs| - 1], l, prev[l])
    ensures var lines := prev[locs[|locs| - 1] := |locs| - 1];
            forall l :: l in lines ==> LastOccurrence(locs, l, lines[l])
  {
    var init := locs[..|locs| - 1];
    var last := locs[|locs| - 1];
    var lines := prev[last := |locs| - 1];
    forall l | l in lines ensures LastOccurrence(locs, l, lines[l]) {
      if l != last {
        assert LastOccurrence(init, l, prev[l]);
        assert forall j :: 0 <= j < |init| ==> locs[j] == init[j];
      }
    }
  }

  /** The two parallel windows of one location: display times (`x_data`) and
      temperatures (`y_data`). */
  datatype Series = Series(times: seq<string>, temperatures: seq<Temperature>)

  /** Both `defaultdict`s, keyed by location. */
  type Store = map<string, Series>

  /** The deques kept by a `deque(maxlen=Capacity)` per location, both fed by
      every sample of that location, so always of equal length. */
  ghost predicate WellFormed(store: Store)
  {
    forall l :: l in store ==>
      |store[l].times| == |store[l].temperatures| <= Capacity
  }

  /** `x_data[l]` / `y_data[l]`: an absent location reads as empty windows. */
  function Lookup(store: Store, loc: string): Series
  {
    if loc in store then store[loc] else Series([], [])
  }

  /** Appending one display time and temperature to the windows of `loc`
      (creating them empty first when `loc` is new); no other location is
      touched. */
  function Record(store: Store, loc: string, time: string, t: Temperature): (r: Store)
    requires WellFormed(store)
    ensures WellFormed(r)
    ensures r.Keys == store.Keys + {loc}
    ensures forall l :: l in store && l != loc ==> r[l] == store[l]
    ensures |r[loc].times| == Min(|Lookup(store, loc).times| + 1, Capacity)
    ensures r[loc].times[|r[loc].times| - 1] == time
    ensures r[loc].temperatures[|r[loc].temperatures| - 1] == t
  {
    var w := Lookup(store, loc);
    var times := Push(w.times, time, Capacity);
    var temperatures := Push(w.temperatures, t, Capacity);
    assert |times| == |temperatures| <= Capacity;
    var r := store[loc := Series(times, temperatures)];
    assert WellFormed(r) by {
      forall l | l in r ensures |r[l].times| == |r[l].temperatures| <= Capacity {
        if l != loc { assert r[l] == store[l]; }
      }
    }
    r
  }

  /** The windows of `loc` after a sample are the last `Capacity` entries of
      its windows before, followed by the sample's display time and
      temperature. */
  lemma RecordWindow(store: Store, loc: string, time: string, t: Temperature)
    requires WellFormed(store)
    ensures var w := Lookup(store, loc);
            Record(store, loc, time, t)[loc] == Series(Last(w.times + [time], Capacity), Last(w.temperatures + [t], Capacity))
  {
    var w := Lookup(store, loc);
    PushIsLast(w.times, time, Capacity);
    PushIsLast(w.temperatures, t, Capacity);
  }

  /** A location's first sample creates its windows holding just that sample. */
  lemma RecordFirst(store: Store, loc: string, time: string, t: Temperature)
    requires WellFormed(store)
    requires loc !in store
    ensures Record(store, loc, time, t)[loc] == Series([time], [t])
  {
    assert [] + [time] == [time];
    assert [] + [t] == [t];
    LastShort([time], Capacity);
    LastShort([t], Capacity);
  }

  /** The locations a sequence of samples is for. */
  function SampleLocations(samples: seq<Sample>): set<string>
    decreases |samples|
  {
    if |samples| == 0 then {}
    else SampleLocations(samples[..|samples| - 1]) + {samples[|samples| - 1].location}
  }

  /** The store after receiving `samples` in order, starting from empty: it
      always satisfies the deque invariants. */
  function Replay(samples: seq<Sample>): (store: Store)
    ensures WellFormed(store)
    decreases |samples|
  {
    if |samples| == 0 then map[]
    else
      var s := samples[|samples| - 1];
      Record(Replay(samples[..|samples| - 1]), s.location, DisplayTime(s.timestamp), s.temperature)
  }

  /** Receiving one more sample of a stream records it on top of the store
      built so far. */
  lemma ReplayStep(samples: seq<Sample>, n: nat)
    requires n < |samples|
    ensures var s := samples[n];
            Replay(samples[..n + 1]) == Record(Replay(samples[..n]), s.location, DisplayTime(s.timestamp), s.temperature)
  {
    assert samples[..n + 1][..n] == samples[..n];
  }

  /** Windows exist exactly for the locations received (the `defaultdict`s
      create an entry on first access only). */
  lemma {:induction false} ReplayKeys(samples: seq<Sample>)
    ensures Replay(samples).Keys == SampleLocations(samples)
    decreases |samples|
  {
    if |samples| > 0 {
      ReplayKeys(samples[..|samples| - 1]);
    }
  }

  /** The samples of `samples` that are for `loc`, in arrival order. */
  function Filter(samples: seq<Sample>, loc: string): (f: seq<Sample>)
    ensures |f| == Count(samples, loc)
    ensures forall i :: 0 <= i < |f| ==> f[i].location == loc
    decreases |samples|
  {
    if |samples| == 0 then []
    else
      var s := samples[|samples| - 1];
      var f := Filter(samples[..|samples| - 1], loc);
      if s.location == loc then f + [s] else f
  }

  /** The display times of a run of samples, position by position. */
  function Times(samples: seq<Sample>): seq<string>
  {
    seq(|samples|, i requires 0 <= i < |samples| => DisplayTime(samples[i].timestamp))
  }

  /** The temperatures of a run of samples, position by position. */
  function Temperatures(samples: seq<Sample>): seq<Temperature>
  {
    seq(|samples|, i requires 0 <= i < |samples| => samples[i].temperature)
  }

  /** One more sample adds its display time and temperature at the end. */
  lemma TimesSnoc(f: seq<Sample>, s: Sample)
    ensures Times(f + [s]) == Times(f) + [DisplayTime(s.timestamp)]
    ensures Temperatures(f + [s]) == Temperatures(f) + [s.temperature]
  {
    var g := f + [s];
    assert forall j :: 0 <= j < |f| ==> g[j] == f[j];
    assert g[|f|] == s;
  }

  /** Each location's windows hold the display times and temperatures of its
      last `Capacity` samples, in arrival order; samples of other locations
      never affect them. */
  lemma {:induction false} ReplayWindow(samples: seq<Sample>, loc: string)
    ensures var f := Filter(samples, loc);
            Lookup(Replay(samples), loc) == Series(Last(Times(f), Capacity), Last(Temperatures(f), Capacity))
    decreases |samples|
  {
    if |samples| > 0 {
      var init := samples[..|samples| - 1];
      var s := samples[|samples| - 1];
      ReplayWindow(init, loc);
      if s.location == loc {
        var f := Filter(init, loc);
        assert Filter(samples, loc) == f + [s];
        TimesSnoc(f, s);
        RecordWindow(Replay(init), loc, DisplayTime(s.timestamp), s.temperature);
        PushLast(Times(f), DisplayTime(s.timestamp), Capacity);
        PushLast(Temperatures(f), s.temperature, Capacity);
      }
    }
  }

  /** Position `i` of the last `Capacity` display times and temperatures of
      a run of samples comes from one and the same sample. */
  lemma SeriesAt(f: seq<Sample>, i: nat)
    requires i < Min(|f|, Capacity)
    ensures |Last(Times(f), Capacity)| == |Last(Temperatures(f), Capacity)| == Min(|f|, Capacity)
    ensures Last(Times(f), Capacity)[i] == DisplayTime(f[|f| - Min(|f|, Capacity) + i].timestamp)
    ensures Last(Temperatures(f), Capacity)[i] == f[|f| - Min(|f|, Capacity) + i].temperature
  {
    LastAt(Times(f), Capacity, i);
    LastAt(Temperatures(f), Capacity, i);
  }

  /** After `n` samples for a location its windows hold `min(n, Capacity)`
      entries each. */
  lemma {:induction false} WindowLength(samples: seq<Sample>, loc: string)
    ensures var w := Lookup(Replay(samples), loc);
            |w.times| == |w.temperatures| == Min(Count(samples, loc), Capacity)
  {
    var f := Filter(samples, loc);
    ReplayWindow(samples, loc);
    if Min(|f|, Capacity) == 0 {
      LastShort(Times(f), Capacity);
      LastShort(Temperatures(f), Capacity);
    } else {
      SeriesAt(f, 0);
    }
  }

  /** Position `i` of a location's two windows comes from one and the same
      sample: the `i`-th of the last `min(n, Capacity)` samples for that
      location. */
  lemma {:induction false} WindowPairs(samples: seq<Sample>, loc: string, i: nat)
    requires i < Min(Count(samples, loc), Capacity)
    ensures var f := Filter(samples, loc);
            var w := Lookup(Replay(samples), loc);
            var first := |f| - Min(|f|, Capacity);
            && i < |w.times| == |w.temperatures|
            && w.times[i] == DisplayTime(f[first + i].timestamp)
            && w.temperatures[i] == f[first + i].temperature
  {
    var f := Filter(samples, loc);
    ReplayWindow(samples, loc);
    SeriesAt(f, i);
  }

  /** What the dispatcher asks the plot to show after one sample, or the
      `KeyError` raised when the sample's location has no plot line. */
  datatype Outcome =
    | Redraw(line: nat, xs: seq<nat>, ys: seq<Temperature>, ticks: nat, labels: seq<string>)
    | UnknownLocation(location: string)

  /** `range(n)`. */
  function Range(n: nat): (r: seq<nat>)
    ensures |r| == n
    ensures forall i :: 0 <= i < n ==> r[i] == i
  {
    seq(n, i requires 0 <= i < n => i as nat)
  }

  /** `max(len(x) for x in x_data.values())` over a non-empty store (on an
      empty one Python's `max` raises). */
  method TickCount(store: Store) returns (n: nat)
    requires store != map[]
    ensures forall l :: l in store ==> |store[l].times| <= n
    ensures exists l :: l in store && |store[l].times| == n
  {
    var remaining := store.Keys;
    var first :| first in remaining;
    n := |store[first].times|;
    remaining := remaining - {first};
    while remaining != {}
      invariant remaining <= store.Keys
      invariant first in store && first !in remaining
      invariant forall l :: l in store && l !in remaining ==> |store[l].times| <= n
      invariant exists l :: l in store && |store[l].times| == n
      decreases remaining
    {
      var l :| l in remaining;
      if |store[l].times| > n {
        n := |store[l].times|;
      }
      remaining := remaining - {l};
    }
  }

  /** The redraw requested for location `loc` from `store`: the location's
      line, x positions `0 .. len - 1`, its temperatures as y values, its
      display times as tick labels, and a tick count equal to the longest
      window of any location. */
  ghost predicate RedrawOf(out: Outcome, store: Store, lines: map<string, nat>, loc: string)
  {
    && out.Redraw?
    && loc in lines && loc in store
    && out.line == lines[loc]
    && out.xs == Range(|store[loc].times|)
    && out.ys == store[loc].temperatures
    && out.labels == store[loc].times
    && (forall l :: l in store ==> |store[l].times| <= out.ticks)
    && (exists l :: l in store && |store[l].times| == out.ticks)
  }

  /** Handling one received sample (client.py, the body of the receive loop):
      trim the timestamp, append to the location's windows, then look up the
      location's plot line, failing when it was not configured. */
  method Dispatch(store: Store, lines: map<string, nat>, s: Sample)
    returns (store': Store, out: Outcome)
    requires WellFormed(store)
    ensures store' == Record(store, s.location, DisplayTime(s.timestamp), s.temperature)
    ensures out.UnknownLocation? <==> s.location !in lines
    ensures out.UnknownLocation? ==> out.location == s.location
    ensures out.Redraw? ==> RedrawOf(out, store', lines, s.location) && |out.labels| <= out.ticks <= Capacity
  {
    var time := DisplayTime(s.timestamp);
    store' := Record(store, s.location, time, s.temperature);
    if s.location !in lines {
      return store', UnknownLocation(s.location);
    }
    var w := store'[s.location];
    var ticks := TickCount(store');
    out := Redraw(lines[s.location], Range(|w.times|), w.temperatures, ticks, w.times);
  }

  /** How the receive loop ends: the stream finished (or failed with an
      `RpcError`, which is caught and reported), or a `KeyError` for an
      unconfigured location escaped the loop. */
  datatype Termination = StreamEnded | KeyError(location: string)

  /** The receive loop over the finite stream `samples`. `received` counts the
      samples taken from the stream; a sample for an unconfigured location is
      recorded in the store before its lookup fails and ends the loop. */
  method Consume(lines: map<string, nat>, samples: seq<Sample>)
    returns (store: Store, received: nat, end: Termination)
    ensures received <= |samples|
    ensures store == Replay(samples[..received])
    ensures end.StreamEnded? <==> forall i :: 0 <= i < |samples| ==> samples[i].location in lines
    ensures end.StreamEnded? ==> received == |samples|
    ensures end.KeyError? ==>
              && 0 < received
              && end.location == samples[received - 1].location
              && end.location !in lines
              && forall i :: 0 <= i < received - 1 ==> samples[i].location in lines
  {
    store := map[];
    received := 0;
    while received < |samples|
      invariant received <= |samples|
      invariant store == Replay(samples[..received])
      invariant forall i :: 0 <= i < received ==> samples[i].location in lines
    {
      var s := samples[received];
      var out;
      ReplayStep(samples, received);
      store, out := Dispatch(store, lines, s);
      if out.UnknownLocation? {
        return store, received + 1, KeyError(s.location);
      }
      forall i | 0 <= i < received + 1 ensures samples[i].location in lines {
        if i == received { assert samples[i] == s; }
      }
      received := received + 1;
    }
    end := StreamEnded;
  }
}
