# Stadium corridors: shortest-path and bridge marking

A Dafny model of the analysis core of PAA-GRAFOS. The program reads a stadium as a directed, weighted graph. Locations are numbered `1 .. nL`, the entry is a given location `s` and the exit is location `nL`. Corridor `i` is the `i`-th line `u v w` of the input. The program then classifies every corridor:

- **0**: no shortest route from the entry to the exit uses it;
- **1 (CPU, "possibly used")**: some shortest route uses it;
- **2 (CDU, "definitely used")**: it carries a tree edge that the bridge search, run over the undirected graph of CPU corridors, takes for a bridge.

The model follows the source file by file.

- **`Estadio`** (estadio.cpp) is a `class`. Its fields are the location count, the corridor count and two arrays of adjacency lists of `Entry(id, nb, w)` records: the forward view (`listaAdjUV`) and the reverse view (`listaAdjVU`). Its methods append to one list or set the count. The getters are read as fields.
- **`Loader`** models the corridor loop of `criarGrafo` on corridors already parsed. The ghost functions `Forward` and `Backward` give the two views after loading, and the lemmas prove that the views are transposes of each other.
- **`Paths`** and **`Shortest`** are the ghost vocabulary of walks, walk lengths, transposition, and of a "shortest distances from / to" vector.
- **`Dijkstra`** models `inicializar`, `relaxar` and `twoWayDijkstra` on arrays.
  - The `std::priority_queue` is a `multiset` of `(location, distance)` records. `ExtractMin` returns some record of least distance.
  - The two identical loops of `twoWayDijkstra` are one method `Pass`, whose invariant lives in `PassState` and whose step lemmas live in `PassInvariant`.
  - The second pass is proved to yield shortest distances *to* the exit over the forward view.
- **`Cpu`** models `encontraCPU`.
  - `Qual` is the sequence of qualifying (location, entry) arcs in scan order, and `Undirected` is the forward view of the extracted venue. The method is proved to build exactly that view, to mark exactly `Ids(Qual)` with 1, and to count `|Qual|`.
  - Lemmas connect the criterion to "lies on a shortest route from `s` to the exit".
- **`CduState`**, **`CduInvariant`**, **`CduSpec`** and **`Cdu`** model `encontraCDU`, the iterative depth-first bridge search.
  - `Cdu.EncontraCDU` keeps the procedure's control structure. Its work arrays are value sequences, and the `static` clock `t` is an in/out parameter.
  - Each block of the loop is a ghost transition (`Visit`, `Read`, `Descend`, `Pop`) proved to preserve the loop invariant `Inv`.
  - At exit, the procedure has:
    - reached exactly the locations connected to location 1;
    - numbered them in discovery order;
    - left a tree whose parents are discovered earlier, with the start keeping its initial parent 0;
    - the depth-first property: every entry of a reached location leads to a location discovered earlier or to a descendant (a second invariant, `TreeInv` in `CduTree`, kept beside `Inv`);
    - computed the low-link recurrence as the code evaluates it;
    - counted the tree edges whose child's low-link exceeds the parent's discovery time;
    - marked with 2 exactly the corridors of the parent's list that lead to such a child.
- **`Pipeline`** models `caminhosMinimos` up to the output. It proves the following:
  - the final marks are `Classify(...)`;
  - every mark is 0, 1 or 2;
  - a mark is 2 only for a CPU corridor;
  - when the exit is reachable, a mark is nonzero exactly when its corridor lies on a shortest route from the entry to the exit;
  - when the exit is unreachable, every mark is 0 and both counters are 0, under the corrected criterion of "## Findings" (the source as written can mark corridors then).
- **`Scenarios`** works one concrete venue through the whole model. The venue has 4 locations and corridors `1→2 (1)`, `2→4 (1)`, `1→3 (5)`, `3→4 (5)`, and the entry is location 1. In every final state that `caminhosMinimos` can leave, corridors 1 and 2 are marked 2, corridors 3 and 4 are marked 0, and both counters are 2. `RunFirstScenario` loads the venue, runs `CaminhosMinimos` and gets that result.
- **`CycleScenario`** works a second venue through the model: corridors `1→2 (2)`, `2→4 (2)`, `1→3 (1)`, `3→4 (3)`, entry location 1. Both routes to the exit have length 4, so all four corridors are extracted and form the cycle 1–2–4–3–1. The depth-first property forces the search's tree to be one of the two paths round the cycle, so no tree edge passes the bridge test. Every corridor ends marked 1, `nCPU` is 4 and `nCDU` is 0. `RunSecondScenario` loads the venue, runs `CaminhosMinimos` and gets that result.

Weights are required to lie in `[0, INT_MAX]` and `nL <= INT_MAX`. So every finite distance is at most `INT_MAX * INT_MAX`, below the `LLONG_MAX` sentinel `INF`, and no distance sum overflows.

## Model

| member | source | states |
|---|---|---|
| Estadio.Estadio.constructor | estadio.cpp:8-12 | allocates `numLocais` fresh, empty lists in each view and records the location count |
| Estadio.Estadio.AddCorredorUV | estadio.cpp:23-25 | the forward list of `u` gains `(cId, v, peso)` at its end; every other list is unchanged |
| Estadio.Estadio.AddCorredorVU | estadio.cpp:36-38 | the reverse list of `v` gains `(cId, u, peso)` at its end; every other list is unchanged |
| Estadio.Estadio.SetNC | estadio.cpp:65-67 | the corridor count becomes `n`; the lists and the location count are untouched |
| Loader.Load | main.cpp:43-51 | the loaded venue has `numLocais` locations, corridor count `\|corredores\|`, and views `Forward`/`Backward` of the corridors in input order |
| Loader.ForwardMembers | main.cpp:45-49 | the forward list of `x+1` holds `(i, v, w)` exactly when corridor `i` is `x+1 -> v` of weight `w` |
| Loader.BackwardMembers | main.cpp:45-50 | the reverse list of `x+1` holds `(i, u, w)` exactly when corridor `i` is `u -> x+1` of weight `w` |
| Loader.ViewsMirror | main.cpp:49-50 | `(i, v, w)` is in the forward list of `u` exactly when `(i, u, w)` is in the reverse list of `v` |
| Loader.LoadedViews | main.cpp:45-51 | the loaded views are transposes of each other, ids are corridor numbers `1..\|cs\|` with the weights read, and weights in range carry over to both views |
| Paths.ReachesTransposed | main.cpp:283-284 | a walk of some length from `a` to `b` exists in one view exactly when one of the same length from `b` to `a` exists in its transpose |
| Shortest.ShortestFromFeasible | main.cpp:85-92 | a bounded vector that satisfies every relaxation test, is 0 at the source and is the length of some walk wherever it is finite, holds shortest distances |
| Shortest.ShortestToFromTransposed | main.cpp:277-287 | shortest distances from the exit over the reverse view are shortest distances to the exit over the forward view |
| Shortest.ShortestFromUnique | main.cpp:242-276 | two vectors of shortest distances from the same location are equal |
| Shortest.ShortestToUnique | main.cpp:277-287 | two vectors of shortest distances to the same location are equal |
| Shortest.PassesAgree | main.cpp:242-288 | when the exit is reachable, the forward distance of the exit equals the backward distance of the entry |
| Dijkstra.ExtractMin | main.cpp:258-260 | the record taken is in the queue and no record has a smaller distance (the `menorDistancia` order, main.cpp:15-21) |
| Dijkstra.Inicializar | main.cpp:67-74 | every distance is `INF` except `d[s-1] == 0` and `dT[nL-1] == 0` |
| Dijkstra.Relaxar | main.cpp:85-92 | when `d[u] + w < d[v]`, `d[v]` becomes that sum and exactly one record `(v, sum)` is pushed; otherwise neither the distances nor the queue change |
| Dijkstra.SeedQueues | main.cpp:251-254 | each queue holds exactly one record `(i, d[i])` (resp. `(i, dT[i])`) per location |
| Dijkstra.RelaxAll | main.cpp:262-264 | relaxing the popped location's list in order keeps the pass invariant |
| PassInvariant.PopStale | main.cpp:261 | discarding a record whose location is at `INF` or already closer keeps the pass invariant |
| PassInvariant.PopFresh | main.cpp:258-261 | a least record that is not stale names an unsettled location whose distance is final |
| PassInvariant.Settle | main.cpp:262-265 | after relaxing its whole list, the popped location joins the settled set and the invariant holds with one more settled location |
| PassInvariant.PassEnd | main.cpp:257 | when the queue is empty or all `nL` locations are settled, the distances are shortest distances from the source |
| Dijkstra.Pass | main.cpp:257-267 | one lazy-deletion pass from `src` leaves shortest distances from `src` in `d` |
| Dijkstra.TwoWayDijkstra | main.cpp:242-288 | `d` holds shortest distances from `s`; if the exit is reachable `dT` holds shortest distances to the exit, otherwise `dT` keeps its initial values |
| Cpu.QualifiesIffOnShortestRoute | main.cpp:109 | with shortest distances, an entry qualifies exactly when it lies on a walk from `s` to the exit whose length is the shortest distance |
| Cpu.MarkedIffOnShortestRoute | main.cpp:104-121 | with the exit reachable, a corridor is among those extracted exactly when one of its forward entries lies on a shortest route from `s` to the exit |
| Cpu.NoneQualifyWhenUnreachable | main.cpp:109 | with the exit unreachable and `dT` at its initial values, no entry qualifies |
| Cpu.AsWrittenAgreesWhenReachable | main.cpp:109 | when the exit is reachable, the comparison as written and the sentinel-aware criterion agree |
| Cpu.AsWrittenMarksWithoutRoute | main.cpp:109 | a three-location venue where the comparison as written accepts a corridor although the exit is unreachable |
| Cpu.QualMembers | main.cpp:106-109 | an arc is extracted exactly when its entry is in its location's forward list and qualifies |
| Cpu.UndirectedSymmetric | main.cpp:112-113 | in the extracted venue every entry `x -> y` has a mirror entry `y -> x` with the same id and weight |
| Cpu.ExtractedFromQualifying | main.cpp:109-113 | every entry of the extracted venue carries the id and weight of a qualifying forward entry, and its id is an extracted one |
| Cpu.MarkedIds | main.cpp:114 | after marking the arcs, mark `j+1` is 1 exactly when some arc carries id `j+1`, else it is unchanged |
| Cpu.Take | main.cpp:110-115 | taking an entry appends it, reversed, to its neighbour's list and then to its own list, and marks its corridor 1 |
| Cpu.ScanList | main.cpp:107-117 | scanning list `i` extends the extracted arcs from `Qual(.., i)` to `Qual(.., i+1)`, with the view, the marks and the counter kept in step |
| Cpu.EncontraCPU | main.cpp:104-121 | the fresh venue's forward view is `Undirected(Qual)`, its reverse view is empty, its count and `nCP` grow by `\|Qual\|`, and exactly `Ids(Qual)` are marked 1 |
| CduState.Min | main.cpp:174 | `std::min`: a value no larger than either argument, equal to one of them |
| CduSpec.ClosedWalk | main.cpp:165-176 | a walk leaving a reached location through a closed set of reached locations ends at a reached location |
| CduInvariant.StartInv | main.cpp:142-151 | the initial locals (nothing visited, parents and cursors 0) satisfy the loop invariant |
| CduInvariant.VisitStep | main.cpp:156-162 | the first visit of `u` keeps the invariant, with one location fewer unvisited and the clock advanced by one |
| CduInvariant.DescendStep | main.cpp:168-172 | following an entry to an unvisited location, with `u` as its parent, keeps the invariant |
| CduInvariant.ReadStep | main.cpp:173-175 | reading an entry to a visited location, lowering `l[u]` unless it leads to the parent, keeps the invariant |
| CduInvariant.PopStep | main.cpp:179-192 | returning to the location below keeps the invariant, with the bridge recorded and counted exactly when `l[v] > d[u]` |
| CduInvariant.FinishStep | main.cpp:177-178 | when the start's list is exhausted, the final arrays satisfy every postcondition of the search |
| Cdu.MarkBridge | main.cpp:185-189 | the corridor of every entry of the list that leads to `v` is marked 2; every other mark is unchanged |
| Cdu.Enter | main.cpp:156-162 | the first visit of `u` in the procedure keeps the invariant and removes `u` from the unvisited set |
| Cdu.ReadList | main.cpp:165-176 | the inner scan keeps the invariant and stops at the end of the list or on the first unvisited neighbour |
| Cdu.Retreat | main.cpp:179-192 | returning from a finished location keeps the invariant and lowers the stack by one |
| CduSpec.AncestorOrDescendant | main.cpp:165-176 | with the depth-first property on a symmetric venue, the two ends of every entry of a reached location are ancestor and descendant in the tree |
| CduTree.TreeStart | main.cpp:142-151 | before the loop, with nothing visited and all parents 0, the depth-first invariant holds |
| CduTree.TreeVisit | main.cpp:156-162 | pushing `u` on its first visit keeps the depth-first invariant: `u` descends from every location on the stack |
| CduTree.TreeDescend | main.cpp:168-172 | making `u` the parent of an unvisited neighbour keeps the depth-first invariant and changes no visited location's ancestry |
| CduTree.TreeRead | main.cpp:173-175 | an entry of the top to a visited location leads to one discovered earlier or to a descendant of the top |
| CduTree.TreePop | main.cpp:179-183 | returning to the location below keeps the depth-first invariant |
| CduTree.TreeFinish | main.cpp:177-178 | when the search stops, every entry of every visited location has the depth-first property |
| CduTree.SearchDone | main.cpp:177-178 | when the start's list is exhausted, the final arrays satisfy `Searched`, and the bridges are counted and marked |
| Cdu.Explore | main.cpp:141-194 | the initialisation and main loop end with the start alone on the stack and its list exhausted, with both invariants holding |
| Cdu.EncontraCDU | main.cpp:131-194 | the search reaches exactly the locations connected to location 1, numbers them `t+1, t+2, ...` in discovery order, keeps the start's parent 0, has the depth-first property at every entry, satisfies the low-link recurrence, counts the bridge tree edges and marks exactly their corridors 2 |
| Pipeline.BridgesAreExtracted | main.cpp:317-320 | a corridor the bridge search marks 2 is one that `encontraCPU` extracted |
| Pipeline.ExtractedIds | main.cpp:112-113 | the extracted venue only carries ids that index the marking vector |
| Pipeline.NothingExtractedWhenUnreachable | main.cpp:270-273 | under the corrected criterion, when the exit is unreachable and the backward pass did not run, no arc is extracted |
| Pipeline.NoBridgesWithoutCorridors | main.cpp:154-194 | a search over a venue without corridors finds no bridge |
| Pipeline.ClassifiedWithinCpu | main.cpp:303-320 | every final mark is 0, 1 or 2; a mark is nonzero exactly when the corridor was extracted; 2 implies extracted |
| Pipeline.ClassifiedOnRoute | main.cpp:298-320 | with the exit reachable, a final mark is nonzero exactly when the corridor lies on a shortest route from the entry to the exit |
| Pipeline.UnreachableMarksNothing | main.cpp:270-273 | under the corrected criterion, with the exit unreachable, nothing is extracted, no bridge is found and every corridor is classified 0 |
| Pipeline.MarkCorridors | main.cpp:317-320 | the two marking stages on cleared marks yield counters `\|Qual\|` and `\|BridgeSet\|` and marks `Classify(...)` |
| Pipeline.CaminhosMinimos | main.cpp:298-320 | a fresh vector of `nC` marks equal to `Classify(...)`, counters `\|Qual\|` and `\|BridgeSet\|`, and the distances and search facts behind them |
| Scenarios.LoadedScenario | main.cpp:43-51 | loading the four sample corridors gives the forward view `Uv` and the reverse view `Vu`, transposes of each other |
| Scenarios.ForwardDistances | main.cpp:242-276 | on the sample venue, the forward pass from location 1 can only leave distances 0, 1, 5, 2 |
| Scenarios.BackwardDistances | main.cpp:277-287 | on the sample venue, the backward pass from location 4 can only leave distances to the exit 2, 1, 5, 0 |
| Scenarios.ScenarioRoutes | main.cpp:104-121 | on the sample venue, exactly corridors 1 and 2 qualify, and the extracted venue is the path 1–2–4 |
| Scenarios.ScenarioReached | main.cpp:131-194 | the bridge search over the extracted venue reaches locations 1, 2 and 4 and not 3 |
| Scenarios.ScenarioBridges | main.cpp:131-194 | the search's tree takes 1 as parent of 2 and 2 as parent of 4, and both tree edges pass the low-link test |
| Scenarios.ScenarioCounts | main.cpp:178-186 | the sample venue's search counts 2 bridges and marks corridors 1 and 2 with 2, leaving 3 and 4 at 0 |
| Scenarios.FirstScenario | main.cpp:298-320 | every final state that satisfies `Outcome` on the sample venue has marks 2, 2, 0, 0 and counters 2 and 2 |
| Scenarios.RunFirstScenario | main.cpp:298-320 | loading the sample venue and running `CaminhosMinimos` from location 1 yields marks 2, 2, 0, 0 and counters 2 and 2 |
| CycleScenario.LoadedScenario | main.cpp:43-51 | loading the four corridors of the cycle venue gives the forward view `Uv` and the reverse view `Vu`, transposes of each other |
| CycleScenario.ForwardDistances | main.cpp:242-276 | on the cycle venue, the forward pass from location 1 can only leave distances 0, 2, 1, 4 |
| CycleScenario.BackwardDistances | main.cpp:277-287 | on the cycle venue, the backward pass can only leave distances to the exit 4, 2, 3, 0 |
| CycleScenario.ScenarioRoutes | main.cpp:104-121 | on the cycle venue all four corridors qualify, and the extracted venue is the cycle 1–2–4–3–1 |
| CycleScenario.ScenarioReached | main.cpp:131-194 | the bridge search over the extracted cycle reaches every location |
| CycleScenario.ScenarioTree | main.cpp:165-176 | with the depth-first property, the search's tree is one of the two paths from location 1 round the cycle |
| CycleScenario.ScenarioBridges | main.cpp:178-186 | on the extracted cycle, no tree edge passes the low-link test |
| CycleScenario.ScenarioCounts | main.cpp:178-186 | the cycle's search counts no bridge and leaves every corridor marked 1 |
| CycleScenario.SecondScenario | main.cpp:298-320 | every final state that satisfies `Outcome` on the cycle venue has marks 1, 1, 1, 1, `nCPU == 4` and `nCDU == 0` |
| CycleScenario.RunSecondScenario | main.cpp:298-320 | loading the cycle venue and running `CaminhosMinimos` from location 1 yields marks 1, 1, 1, 1 and counters 4 and 0 |

## Left out

- The file parsing, stream exceptions and I/O of `criarGrafo` (main.cpp:35-55), `geraSaida` and `main`: `Loader.Load` takes the corridors already read.
- The diagnostic line printed at main.cpp:271 is not modelled; only its early return is.
- Memory management: the `new[]` buffers are never freed. Copying an `Estadio` by value (`twoWayDijkstra` takes one) shares its lists, which nothing writes during the copy's lifetime, so the model passes the object.
- Dijkstra.ExtractMin: which of several least records `std::priority_queue` pops is left open. The proofs hold for any choice.
- Dijkstra.Pass: queue priorities are `iPar` = `pair<int,int>` in the source. Pushing a `long long` distance narrows it to `int`. The model keeps exact priorities, so it does not capture orders produced by wrapped priorities of distances above `INT_MAX`.
- Dijkstra.TwoWayDijkstra: requires weights in `[0, INT_MAX]`, the reverse view to be the transpose of the forward one, and `nL <= INT_MAX`. Negative weights are not modelled, since Dijkstra's algorithm is not correct for them.
- Cdu.EncontraCDU:
  - the work arrays are value sequences rather than heap buffers;
  - the uninitialised `caminho`, `d` and `l` start as 0, which is never read before it is written;
  - overflow of the `static int t` clock across calls is not modelled.
- Cdu.EncontraCDU: it does not prove that `BridgeSet` is the set of bridges of the undirected venue (the theorem behind Tarjan's test). It states the facts that theorem rests on: the low-link recurrence and the depth-first property. `CycleScenario` derives a whole-run outcome from them on one venue.
- Cdu.EncontraCDU: the parent test skips every entry leading back to `p[u]`. With two parallel corridors between a location and its parent, the second one is ignored, and the search may then count the tree edge as a bridge. This is kept as written: `LowLink` states the recurrence in exactly this form.
- Cpu.EncontraCPU: the model uses the corrected criterion of "## Findings". As written, the source can mark corridors and make both counters nonzero when the exit is unreachable. An example is 3 locations with one corridor `1 -> 2` of weight 0. `Cpu.AsWrittenMarksWithoutRoute` exhibits that case.
- Pipeline.CaminhosMinimos: the `int` counters `nCPU` and `nCDU` are unbounded integers. `nC` is the declared corridor count, and ids in the lists are assumed to be at most `nC`.

## Findings

| source | as written | input that shows it | evidently intended | confidence | as-written member | corrected member |
|---|---|---|---|---|---|---|
| main.cpp:109 | `d[nL-1] == d[i] + dT[v-1] + w` compares sums that include the `LLONG_MAX` sentinel | 3 locations, entry 1, one corridor `1 -> 2` of weight 0: the exit is unreachable, `dT` keeps its initial values, and `0 + LLONG_MAX + 0 == LLONG_MAX == d[2]`, so the corridor is marked 1 | an entry qualifies only when both its ends are reached (no finite sum equals `INF`), so nothing is marked when the exit is unreachable | not executed | Cpu.AsWrittenMarksWithoutRoute | Cpu.NoneQualifyWhenUnreachable |
