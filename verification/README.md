# Metro route planner — a verified model

The repository holds two versions of one small transit engine, both as a class
called `MetroSystem`: a console planner in C++ (`f.cpp`) and a map-based planner
in Python (`xx.py`). Each version keeps a catalogue of stations identified by
the dense ids `0..n-1`. Each keeps an undirected, weighted adjacency list in
which every connection is stored as two reciprocal entries (neighbour, minutes).
Each keeps a fare rate per minute that only a positive value may replace. Route
queries run lazy-deletion Dijkstra over a min-priority queue of
(minutes, station) pairs. The route is then rebuilt by following the parent
links back from the destination. The Python version stops the search as
soon as the destination is handed out by the queue.

The Dafny project models both classes and proves:

- setup grows the catalogue exactly as the source does and keeps the adjacency
  list undirected;
- a route query answers "no route" exactly when no walk connects the two
  stations;
- otherwise the returned path is a real walk from start to end, and its travel
  time is the recorded time of the destination, which no walk beats;
- every recorded time during the search is the time of some real walk, and
  relaxing entries never raises a time;
- the Python early stop gives the same travel time as the full search;
- the fare guard keeps the rate positive.

Layout:

- `wrappers.dfy` — module `Wrappers`: the `Option` type that stands for Python's `None`.
- `graph.dfy` — module `Graph`: entries, adjacency lists, walks with explicit
  hop times, reachability, shortest travel time, and the symmetry lemmas that
  reciprocal entries give.
- `dijkstra.dfy` — module `Dijkstra`: what both searches share. It holds the
  frontier as a multiset with smallest-first extraction, the loop invariants and
  one lemma per step of the loop. It also holds the optimality argument and the
  walk back along parent links.
- `fares.dfy` — module `Fares`: travel time times rate, and why the fastest route is the cheapest.
- `metro_console.dfy` — module `MetroConsole`: the C++ class.
- `metro_map.dfy` — module `MetroMap`: the Python class.

## Model

| member | source | states |
|---|---|---|
| MetroConsole.MetroSystem.constructor | f.cpp:16-19 | numStations unnamed stations, numStations empty adjacency lists, rate 2 per minute; the class invariant holds |
| MetroConsole.WithStation | f.cpp:21-27 | an id beyond the catalogue grows names and lists to exactly id + 1 slots; new slots are unnamed and empty; only the name of id changes; the lists stay consistent |
| MetroConsole.GrowKeepsConsistent | f.cpp:22-25 | appending empty lists keeps every entry well-formed and the network undirected |
| MetroConsole.WithStationIdempotent | f.cpp:21-27 | registering the same station twice equals registering it once |
| MetroConsole.MetroSystem.AddStation | f.cpp:21-27 | the new state is WithStation of the old one; the rate is unchanged |
| MetroConsole.WithConnection | f.cpp:29-32 | names unchanged; every old list is a prefix of its new list; the list of from gains exactly (to, time) and the list of to gains exactly (from, time); the network stays undirected |
| MetroConsole.ConnectCounts | f.cpp:30-31 | the two appends add exactly one reciprocal entry to each endpoint's list (both to one list when from == to) |
| MetroConsole.ConnectKeepsConsistent | f.cpp:29-32 | adding the reciprocal pair keeps the entries well-formed and the counts of u towards v and v towards u equal |
| MetroConsole.ConnectKeepsCount | f.cpp:29-32 | one pair of counts stays equal after the two appends |
| MetroConsole.MetroSystem.AddConnection | f.cpp:29-32 | the new state is WithConnection of the old one; the rate is unchanged |
| MetroConsole.MetroSystem.GetStationName | f.cpp:57-62 | the name of id when id is in range, otherwise the empty name; never fails |
| MetroConsole.MetroSystem.GetFarePerMinute | f.cpp:119-121 | the current rate, which the class invariant keeps positive |
| MetroConsole.MetroSystem.SetFarePerMinute | f.cpp:123-129 | the rate becomes newFare iff newFare > 0, otherwise stays; the rate stays positive |
| MetroConsole.MetroSystem.ShowRoute | f.cpp:64-117 | NoRoute iff end is unreachable from start; otherwise the path is a walk from start to end whose time is the least of all walks, and the fare is that time times the rate |
| MetroConsole.MetroSystem.ShortestTimes | f.cpp:65-91 | after the loop every station's time is final (no walk is faster, unreached means unreachable); every reached time is a walk's time; parent links hang each reached station off a real entry |
| MetroConsole.MetroSystem.RelaxEntries | f.cpp:81-90 | afterwards u is relaxed (no entry of u can lower a neighbour's time); a station whose time changed now has time cd + w for an entry (v, w) of u, with parent u; a station whose time did not change keeps its parent; times are achieved and never raised; the search invariant holds again; either nothing changed or the search got closer to its end |
| MetroMap.CatalogueSize | xx.py:8-29 | the dictionary built from n names has n keys, the ids 0..n-1, holding those names |
| MetroMap.IdsExactly | xx.py:8-29 | the ids 0..n-1 are n distinct keys |
| MetroMap.GraphOf | xx.py:78 | station u's entries are its list when u has a key, and no entries otherwise, as `adj_list.get(u, [])` reads them |
| MetroMap.MetroSystem.constructor | xx.py:6-53 | stations under ids 0..n-1, the given connections, rate 2 per minute; the class invariant holds |
| MetroMap.MetroSystem.StationNames | xx.py:55-56 | one name per station, in id order |
| MetroMap.MetroSystem.StationIdByName | xx.py:58-62 | Some(id) with the name at id and no earlier station of that name; None iff no station has that name |
| MetroMap.MetroSystem.ShortestPath | xx.py:64-92 | None iff end is unreachable from start; otherwise a walk from start to end whose time is the least of all walks |
| MetroMap.MetroSystem.SearchUntil | xx.py:65-82 | whether the loop stops at end or empties the queue, end's time is final; every reached time is a walk's time; parent links are sound |
| MetroMap.MetroSystem.RelaxEntries | xx.py:78-82 | the same as for the console search (u relaxed; each changed time is u's time plus an entry of u, with parent u; unchanged times keep their parent), with a missing key read as no entries |
| MetroMap.MetroSystem.CalculateFare | xx.py:97-98 | time times the rate; positive for positive time, zero for zero time |
| MetroMap.MetroSystem.UpdateFare | xx.py:100-104 | returns true iff newFare > 0, and exactly then the rate becomes newFare; the rate stays positive |
| Dijkstra.TopExists | f.cpp:73-75 | a non-empty frontier has an entry that no entry precedes in (minutes, station) order |
| Dijkstra.InitialSearch | f.cpp:66-71 | with only the start reached in 0 minutes and entry (0, start) queued, the search invariant holds |
| Dijkstra.InitialAchieved | f.cpp:66-71 | the start's 0 minutes is the time of the walk that stays put |
| Dijkstra.DropStale | f.cpp:79 | dropping an entry older than its station's time keeps the search invariant |
| Dijkstra.BeginScan | f.cpp:79 | a popped entry that is not stale carries exactly its station's time |
| Dijkstra.ScanKeep | f.cpp:85 | an entry that does not improve its neighbour is already relaxed |
| Dijkstra.ScanRelax | f.cpp:85-88 | an improving entry gives the neighbour the new time, the parent and a frontier entry; the neighbour is neither the start nor u |
| Dijkstra.RelaxKeepsTree | f.cpp:86-87 | the new parent link is a real entry, and the parent's time plus the hop stays within the new time |
| Dijkstra.RelaxKeepsCovers | f.cpp:88 | every reached station with an unrelaxed entry stays queued at its current time |
| Dijkstra.RelaxKeepsSound | f.cpp:86-88 | every queued entry stays no better than its station's time |
| Dijkstra.RelaxKeepsAchieved | xx.py:79-80 | the new time of v is the time of a walk: the walk to u followed by the entry |
| Dijkstra.ExtendWalk | xx.py:79-80 | a walk to u plus an entry of u is a walk, longer by the entry's minutes |
| Dijkstra.RelaxKeepsMoves | f.cpp:85-87 | the improved neighbour's time really changes, to u's time plus the entry, with parent u; every other station keeps what it had |
| Dijkstra.LowerKeepsLowered | f.cpp:85-86 | an improving update never raises a time or loses a reached station |
| Dijkstra.RelaxingStart | f.cpp:81 | the scan of u starts with nothing changed |
| Dijkstra.RelaxingImproves | f.cpp:85-88 | an improving update keeps the scan invariant and brings the search closer to its end |
| Dijkstra.RelaxingSkips | f.cpp:85 | a skipped entry keeps the scan invariant |
| Dijkstra.RelaxingEnd | f.cpp:90 | after u's last entry u is relaxed and the main-loop invariant holds again |
| Dijkstra.EndScan | f.cpp:81-90 | once all of u's entries are scanned, u is relaxed and the main-loop invariant holds |
| Dijkstra.LowerIsCloser | f.cpp:85-86 | lowering one time reduces (unreached stations, sum of reached times), so the loop terminates |
| Dijkstra.CloserTrans | f.cpp:81-90 | getting closer is transitive over a scan |
| Dijkstra.WalkBound | f.cpp:73-91 | along any walk from the start, some queued entry is within the walk's time, or the walk's last station is already reached within it |
| Dijkstra.SettledWhenEmpty | f.cpp:73 | when the queue is empty no walk beats any recorded time, and unreached stations have no walk |
| Dijkstra.SettledAtTop | xx.py:72-77 | the station of a fresh smallest entry has its final time, so stopping there is safe |
| Dijkstra.UnreachedIsUnreachable | f.cpp:93-98 | a final time that is still the sentinel means no walk exists |
| Dijkstra.BeginUnwind | f.cpp:101 | the walk back starts at end with an empty path |
| Dijkstra.UnwindStep | f.cpp:101-102 | prepending v and moving to its parent keeps a walk to end within end's time; the step terminates |
| Dijkstra.RouteIsFastest | f.cpp:100-112 | at -1 the collected path is a walk from start to end whose time equals end's final time and is the least |
| Graph.ReciprocalEntry | f.cpp:29-32 | in an undirected network each entry of u towards v has a partner entry of v towards u with the same time |
| Graph.ReverseWalk | f.cpp:29-32 | a walk read backwards is a walk of the same time |
| Graph.Reversed | xx.py:91 | the list read backwards: same length, element i is element n - 1 - i |
| Graph.ReversedTwice | xx.py:91 | reversing twice gives back the list |
| Graph.ReverseHop | f.cpp:29-32 | hop i of a reversed walk is the partner entry of the walk's hop n - 1 - i |
| Graph.SumReversed | xx.py:91 | reversing the hops does not change the travel time |
| Graph.ReachableSymmetric | f.cpp:29-32 | t is reachable from s iff s is reachable from t |
| Graph.ShortestSymmetric | f.cpp:29-32 | the least time from s to t is the least time from t to s |
| Graph.ShortestUnique | xx.py:76-77 | the least time is unique, so the early stop and the full search report the same time |
| Fares.Fare | f.cpp:112-113 | positive for positive minutes at a positive rate, zero for zero minutes |
| Fares.FareMonotone | xx.py:97-98 | at a positive rate a longer journey never costs less |
| Fares.FastestIsCheapest | f.cpp:112-113 | at a positive rate no walk between the same stations costs less than the fastest route |

## Left out

- Console output, colours and screen clearing in `f.cpp` (`setColor`, `displayGUI`, `showStations`, the printing inside `showRoute`). These are I/O. `ShowRoute` returns the path, time and fare it would print.
- The interactive menu and the hardcoded 20-station seed data in `f.cpp`'s `main`. The range checks of the menu become preconditions of `ShowRoute`.
- The tkinter user interface of `xx.py` (`MetroApp`, the map widget, dialogs, the main block). It is UI over a foreign library.
- The hardcoded station and adjacency dictionaries of `xx.py`. MetroMap.MetroSystem.constructor takes the names and the connections as parameters. It requires them to be well-formed and undirected, which the seed data is.
- Station coordinates and `get_coords_for_path`. They are floating-point data with no logic.
- Floating-point arithmetic: rates and fares are `real`, so the fare is the exact product and no rounding or `setprecision` formatting is modelled.
- The priority queue internals of `std::priority_queue` and `heapq`. The frontier is a multiset with smallest-first extraction in (minutes, station) order. Ties are broken the same way by both libraries' pair and tuple ordering.
- The `INT_MAX` and `float('inf')` sentinels. Times are `Dist` values (`Unreached` or `Minutes(m)`) over unbounded integers. The C++ code assumes that `cd + w` never overflows `int`; the model does not model that overflow.
- MetroConsole.MetroSystem.AddConnection: requires both ids to be in range and the time to be positive. The source checks neither. Out-of-range ids are undefined behaviour in C++. Dijkstra's guarantees need positive times.
- MetroConsole.MetroSystem.ShowRoute: `showRoute` reads `dist`, `parent` and `adjList` as vectors in place. The model splits it into `ShortestTimes` (the loop over the queue), `RelaxEntries` (the loop over one station's entries) and the walk back. The unwinding collects the path by prepending, as `path.insert(path.begin(), v)` does.
- MetroMap.MetroSystem.StationIdByName: iterates ids in ascending order. A Python dictionary iterates in insertion order, and the constructor inserts the ids in ascending order.
- MetroMap.MetroSystem.ShortestPath: returns `Some(Route(path, time))` for the pair `(path, dist[end])` and `None` for `(None, None)`. The final `path.reverse()` is the function `Reversed`.
- MetroMap.MetroSystem.CalculateFare: requires the class invariant. The product itself has no precondition in the source, but the sign facts need the positive rate.
