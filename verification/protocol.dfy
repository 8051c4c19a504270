/** Properties of the two sides together: what the client asks for is what
    the server registers, and what a bounded broadcast leaves in the client's
    windows. */
module Protocol {
  import opened Messages
  import Server
  import Client
  import Window

  /** The registry built from the client's requests has exactly the locations
      the client laid out plot lines for, so a server that answers only its
      registry never sends the client a location without a line. */
  lemma ConfiguredSubscription(locs: seq<string>)
    ensures Server.Subscribe(Client.Requests(locs)) == Client.Layout(locs).Keys
    ensures Server.Subscribe(Client.Requests(Client.Configured)) == {"New York", "San Francisco", "London"}
  {
    var c := Client.Configured;
    assert c[0] == "New York" && c[1] == "San Francisco" && c[2] == "London";
    assert (set l | l in c) == {"New York", "San Francisco", "London"};
  }

  /** A location the stream carries is counted there. */
  lemma {:induction false} CountPositive(stream: seq<Sample>, loc: string)
    requires loc in Client.SampleLocations(stream)
    ensures Count(stream, loc) > 0
    decreases |stream|
  {
    var init := stream[..|stream| - 1];
    if stream[|stream| - 1].location != loc {
      CountPositive(init, loc);
    }
  }

  /** After the client has received `k` full sweeps of a registry `reg` (each
      registered location exactly `k` times, nothing else), every registered
      location's windows hold `min(k, 20)` entries and no other location has
      windows at all. */
  lemma SweepStreamWindows(stream: seq<Sample>, reg: set<string>, k: nat)
    requires forall loc :: Count(stream, loc) == if loc in reg then k else 0
    ensures forall loc :: loc in reg ==>
              && |Client.Lookup(Client.Replay(stream), loc).times| == Window.Min(k, Client.Capacity)
              && |Client.Lookup(Client.Replay(stream), loc).temperatures| == Window.Min(k, Client.Capacity)
    ensures 0 < k ==> Client.Replay(stream).Keys == reg
  {
    forall loc | loc in reg
      ensures |Client.Lookup(Client.Replay(stream), loc).times| == Window.Min(k, Client.Capacity)
      ensures |Client.Lookup(Client.Replay(stream), loc).temperatures| == Window.Min(k, Client.Capacity)
    {
      Client.WindowLength(stream, loc);
    }
    if 0 < k {
      Client.ReplayKeys(stream);
      var keys := Client.Replay(stream).Keys;
      forall loc | loc in keys ensures loc in reg {
        CountPositive(stream, loc);
      }
      forall loc | loc in reg ensures loc in keys {
        Client.WindowLength(stream, loc);
      }
    }
  }
}
