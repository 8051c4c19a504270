# Temperature stream: a Dafny model of the session and the windowed plot store

The system streams synthetic temperature readings over one bidirectional gRPC
stream. The client sends one request per location it wants to monitor, then
closes its half of the stream. The server collects those locations into a
per-call registry, then sweeps that registry forever, emitting one sample
(location, temperature, ISO 8601 timestamp) per location per sweep. The client
keeps the last 20 display times and temperatures of each location in two
`deque(maxlen=20)` stores and redraws that location's plot line after every
sample.

This project models the sequential logic of both sides:

- `messages.dfy` (`Messages`): the request and sample messages, the set of
  requested locations, and a per-location sample count.
- `server.dfy` (`Server`): the stream session as a two-phase state machine
  `Subscribing(reg) | Broadcasting(reg, emitted)`. It covers the subscribe fold,
  the single transition on end of input, one sweep, and `k` sweeps in place of
  the endless `while True`. A sweep picks locations with `:|`, so its contract
  holds for every set iteration order.
- `window.dfy` (`Window`): `deque.append` with a `maxlen`, and the reference
  "last `cap` elements" it is proved equal to.
- `timeformat.dfy` (`TimeFormat`): Python's `str.split` on one character, its
  round trip with `join`, and the display time taken after the last "T". "T" is
  the date/time designator of ISO 8601:2004, section 4.3.2.
- `client.dfy` (`Client`): the request generator and the plot-line layout. It
  also holds the per-location series store, the per-sample dispatcher with its
  tick count, and the receive loop.
- `protocol.dfy` (`Protocol`): facts that join the two sides.

Temperatures are Python floats. Here they are `real`, and no operation
inspects them. The random draw and the clock are inputs: `reading(j, loc)` and
`clock(j, loc)` are the temperature and timestamp drawn for `loc` in sweep `j`.

A sample whose location has no plot line is not handled gracefully.
`lines[location]` (client.py:49) raises `KeyError`, which the `except
grpc.RpcError` clause (client.py:60) does not catch, so the receive loop ends.
The sample has already been appended to the store at that point. `Client.Dispatch`
returns `UnknownLocation` for it. `Client.Consume` then stops with `KeyError`.

## Model

| member | source | states |
|---|---|---|
| Server.Start | server.py:12 | every call starts subscribing with an empty registry of its own |
| Server.Receive | server.py:13-14 | a request adds its location to the registry; a location already present leaves the session unchanged (idempotent); a broadcasting session is never changed by a request |
| Server.ReceiveAll | server.py:13-14 | reading a sequence of requests adds exactly their distinct locations to the registry; a broadcasting session ignores them all |
| Server.Subscribe | server.py:12-14 | after the subscribe phase the registry equals the set of distinct requested locations, and has at most as many entries as there were requests |
| Server.SubscribeBound | server.py:13-14 | a request sequence names no more distinct locations than it has requests |
| Server.EndOfInput | server.py:13-17 | the only transition into broadcasting keeps the registry and starts with nothing emitted |
| Server.Sweep | server.py:18-26 | one sweep emits one sample per registered location and none for any other, in any iteration order, so its length equals the registry size; each sample carries that location's drawn temperature and timestamp |
| Server.Tick | server.py:17-27 | a tick of a broadcasting session keeps the registry, keeps what was already emitted, and adds exactly one sample per registered location; a subscribing session emits nothing |
| Server.Broadcast | server.py:17-27 | after `k` sweeps the registry is unchanged and each registered location has been emitted exactly `k` more times, other locations never |
| Server.Run | server.py:11-27 | a whole session emits `k` samples per distinct requested location after `k` sweeps and nothing else; with no requests it emits nothing |
| Messages.CountAppend | server.py:17-27 | per-location sample counts add up over consecutive stretches of the stream |
| Window.Push | client.py:20-21 | appending to a bounded deque leaves `min(len + 1, maxlen)` entries, the last of them the new entry |
| Window.PushIsLast | client.py:20-21 | appending to a bounded deque gives the last `maxlen` entries of the old contents followed by the new one, so the oldest entry is the one dropped |
| Window.PushLast | client.py:45-46 | appending to the last `cap` entries of a history gives the last `cap` entries of the longer history |
| TimeFormat.Split | client.py:40 | `split` on one character always yields at least one part, so index `-1` exists |
| TimeFormat.SplitPartsFree | client.py:40 | no part of a split contains the separator |
| TimeFormat.JoinSplit | client.py:40 | joining the parts of a split with the separator rebuilds the input |
| TimeFormat.SplitPrefix | client.py:40 | a separator-free prefix joins the first part of the split of what follows |
| TimeFormat.SplitJoin | client.py:40 | splitting the join of separator-free parts gives the parts back |
| TimeFormat.LastPartIsSuffix | client.py:40 | the last part of a split is a suffix of the input, either all of it or preceded by the separator |
| TimeFormat.DisplayTime | client.py:40 | `response.timestamp.split("T")[-1]`, read from the end; it has no contract of its own and is characterised by `DisplayTimeSuffix`, `DisplayTimeUnique` and `DisplayTimeIsLastPart` |
| TimeFormat.DisplayTimeSuffix | client.py:40 | the display time contains no "T", is a suffix of the timestamp preceded by "T" unless it is the whole timestamp, and is the whole timestamp when there is no "T" |
| TimeFormat.DisplayTimeUnique | client.py:40 | those suffix conditions determine the display time uniquely |
| TimeFormat.DisplayTimeIsLastPart | client.py:40 | the display time read from the end equals `timestamp.split("T")[-1]` |
| Client.Requests | client.py:35 | one request per configured location, in list order, naming exactly the configured locations |
| Client.Layout | client.py:24-27 | plot lines exist exactly for the distinct configured locations; each line is the list position of the location's last occurrence, as a dict comprehension keeps the last value |
| Client.Record | client.py:45-46 | a sample for `L` leaves `L`'s windows one longer, capped at 20, and ending with the new display time and temperature; both windows stay equal in length and at most 20 long; only `L` may gain windows and every other location is left alone |
| Client.RecordWindow | client.py:45-46 | after a sample for `L`, `L`'s windows are the last 20 of its previous windows followed by the new display time and temperature, so the oldest entry is the one dropped |
| Client.RecordFirst | client.py:20-21 | a location's first sample creates its windows holding just that sample |
| Client.Replay | client.py:39-46 | after any sequence of samples every pair of windows is equal in length and at most 20 long |
| Client.ReplayKeys | client.py:20-21 | windows exist exactly for the locations received, created on first access |
| Client.Filter | client.py:45-46 | the samples for one location number exactly that location's count in the stream, all for that location |
| Client.ReplayWindow | client.py:45-46 | each location's windows are the last 20 display times and temperatures of its own samples, in arrival order |
| Client.WindowLength | client.py:20-21 | after `n` samples for a location both of its windows hold `min(n, 20)` entries |
| Client.WindowPairs | client.py:20-21 | position `i` of a location's time window and of its temperature window come from the same sample, the `i`-th of its last `min(n, 20)` samples |
| Client.SeriesAt | client.py:45-46 | position `i` of the last 20 display times and of the last 20 temperatures of a run of samples come from the same sample |
| Client.TimesSnoc | client.py:40-46 | one more sample adds its display time and temperature at the end of a run's display times and temperatures |
| Client.TickCount | client.py:52 | the tick count is the maximum window length over all stored locations (attained by one of them) |
| Client.Dispatch | client.py:40-55 | a sample always updates the store first; the lookup fails exactly when the location has no plot line; otherwise the redraw uses that line, x positions `0 .. len - 1`, the location's own windows, and a tick count that is the maximum window length and at most 20 |
| Client.Consume | client.py:38-61 | the receive loop ends cleanly exactly when every sample has a plot line; otherwise it stops at the first unknown location, after recording that sample; the store is always the replay of the samples taken |
| Protocol.ConfiguredSubscription | client.py:24-36 | the server registry built from the client's requests equals the set of locations with plot lines, which for the configured list is New York, San Francisco and London |
| Protocol.CountPositive | server.py:22-26 | a location the stream carries has a positive count there |
| Protocol.SweepStreamWindows | client.py:20-21 | after `k` full sweeps of a registry, every registered location's windows hold `min(k, 20)` entries and no other location has windows |

## Left out

- The gRPC channel, stub, servicer registration, thread pool and port binding (server.py:29-35, client.py:10-11, 36): network I/O and concurrency.
- `random.uniform(-10, 40)` (server.py:19) and `datetime.utcnow().isoformat()` (server.py:20): randomness and the clock are inputs. The value range is not modelled because no code path depends on it.
- Server.Broadcast: the endless `while True` loop (server.py:17) is cut after `k` sweeps, because a proof is about a finite prefix of the stream. `time.sleep(1)` (server.py:27) is real-time delay and is left out.
- The CLOSED phase: a failed channel or a disconnected peer ends the generator inside gRPC. No state of the model stands for it.
- Client.Consume: the stream is a finite sequence of samples. A stream that ends normally and one that fails with `grpc.RpcError` (client.py:60-61) both end the loop cleanly, so the model does not tell them apart.
- All matplotlib calls (client.py:18-19, 23, 25, 29-32, 51, 53-59, 63-64): figure, colours, labels, axis limits, `relim`/`autoscale_view`, `pause` and `show` are UI. Only the values computed for them are modelled: the line, the x positions, the y values, the tick count and the tick labels.
- The `print` diagnostics (server.py:15, 33; client.py:15, 61).
- Floating-point temperatures are `real`. No operation inspects them.
- Wall-clock rates (how many samples per location arrive in a given number of seconds) depend on sleep timing. The model states the exact count per completed sweep instead.
