# Spreadsheet dependency resolver, verified in Dafny

`SpreadsheetDependencyResolver` keeps a dependency graph of spreadsheet
cells. The graph is a map that sends each cell name to the set of cells it
reads (its *precedents*). The class has two operations:

- `addCellDependencies(cell, precedents)` grows the map in place. Every
  mentioned name becomes a key, and the precedents are added to the set of
  `cell`.
- `getRecalculationOrder()` runs Kahn's algorithm. It counts, for each cell,
  how many cells list it as a precedent. It seeds a FIFO queue with the cells
  whose count is zero. It then pops cells, appends them to the result, and
  releases their precedents. If fewer cells come out than the map holds, it
  throws "cycle detected".

The model has three files:

- `graph.dfy` (module `DependencyGraph`) holds the specification.
  - `Graph` is `map<string, set<string>>`.
  - `Register` is the map after one `addCellDependencies` call, written as
    a function of the old map.
  - It defines what a recalculation order is, what a cycle is, and proves
    the lemmas that link the two.
- `resolver.dfy` (module `Resolver`) holds the imperative model.
  - Class `SpreadsheetDependencyResolver` has the field `dependencyGraph`.
  - `AddCellDependencies` is a loop that updates the field in place.
  - `GetRecalculationOrder` is split into three methods with loops, one per
    phase of the Java method: `CountDependents`, `SeedQueue` and `Drain`.
    The inner loops are `CountPrecedentsOf` and `ReleasePrecedents`.
  - `GetRecalculationOrder` has no `modifies` clause, so it provably leaves
    the graph unchanged.
  - The thrown exception is the `CycleDetected` value of `Outcome`.
- `scenarios.dfy` (module `Scenarios`) covers the example registrations of
  the driver, the empty map, a repeated registration, and small cyclic maps.

Orientation: the code emits every cell **before** the cells it depends on.
The counter at line 27 counts how many cells list a cell as a precedent. The
drain at line 45 walks from a popped cell to its precedents. For the
driver's four registrations, the only order the code can produce is
`[D1, C1, B2, A1]` (`Scenarios.DemoOrderIsForced`). The method name
`getRecalculationOrder` and the comment "Topological Sort" at line 17
suggest an order in which a cell is recalculated after the cells it reads,
that is, precedents first. The model follows the code.
`DependencyGraph.ReverseIsPrecedentsFirst` shows that the reversed result is
precedents first.

## Model

| member | source | states |
|---|---|---|
| DependencyGraph.PutIfAbsent | SpreadsheetDependencyResolver.java:10 | `putIfAbsent(k, new HashSet<>())` adds `k` as a key. A missing key gets an empty set. An existing entry is never overwritten. |
| DependencyGraph.AddPrecedents | SpreadsheetDependencyResolver.java:11-14 | The loop of lines 11-14 as a function: line 12 adds the precedent to the set of `cell`, then line 13 makes it a key. It has no contract of its own; `AddPrecedentsShape` states its meaning. |
| DependencyGraph.AddPrecedentsShape | SpreadsheetDependencyResolver.java:11-14 | By induction over the precedents: the loop adds every precedent as a key and to the set of `cell`. Every other old key keeps its set, and every new key has an empty set. |
| DependencyGraph.Register | SpreadsheetDependencyResolver.java:9-15 | The map after one `addCellDependencies` call: line 10, then the loop. It has no contract of its own; `RegisterShape` states its meaning. |
| DependencyGraph.RegisterShape | SpreadsheetDependencyResolver.java:9-15 | After registration, the keys are the old keys plus `cell` plus every precedent. The set of `cell` is its old set (empty if new) joined with the precedents. Every other old key keeps its set. Every new key other than `cell` has an empty set. |
| DependencyGraph.RegisterKeepsEdges | SpreadsheetDependencyResolver.java:10-13 | Registration never removes a key or an edge. |
| DependencyGraph.RegisterKeepsClosed | SpreadsheetDependencyResolver.java:10-13 | If every precedent was a key before registration, it still is after. This is why `inDegree.get(neighbor)` at line 46 always finds a count. |
| DependencyGraph.RegisterIdempotent | SpreadsheetDependencyResolver.java:10-13 | Registering the same cell and precedents twice leaves the same map as registering them once. |
| Resolver.SpreadsheetDependencyResolver.constructor | SpreadsheetDependencyResolver.java:6 | A new resolver has an empty map, and the closure invariant holds. |
| Resolver.SpreadsheetDependencyResolver.AddCellDependencies | SpreadsheetDependencyResolver.java:9-15 | The in-place loop leaves exactly `Register(old map, cell, precedents)` in the field, and it keeps the closure invariant. |
| Resolver.CountDependents | SpreadsheetDependencyResolver.java:20-29 | The count map has exactly the graph's keys. Each cell's count is the number of keys whose precedent set contains it. |
| Resolver.CountPrecedentsOf | SpreadsheetDependencyResolver.java:26-28 | One pass over a cell's precedents adds exactly one to the count of each precedent and changes no other count. |
| Resolver.DependentsAdd | SpreadsheetDependencyResolver.java:25-28 | Visiting one more key raises a cell's count by one exactly when that key lists the cell. |
| Resolver.SeedQueue | SpreadsheetDependencyResolver.java:32-37 | The initial queue holds each zero-count cell exactly once, and nothing else. |
| Resolver.Drain | SpreadsheetDependencyResolver.java:39-51 | The result has no duplicates and only keys. Every edge between emitted cells goes from an earlier dependent to a later precedent. Every dependent of an emitted cell was emitted. Every cell left out still has a dependent that was left out. |
| Resolver.ReleasePrecedents | SpreadsheetDependencyResolver.java:45-50 | The count of each precedent of the popped cell drops by exactly one, and other counts are unchanged. A cell is queued or emitted exactly when its count is zero, and no cell is queued twice. Cells already waiting keep their place at the front. |
| Resolver.EmitKeepsOrder | SpreadsheetDependencyResolver.java:41-43 | Appending a popped cell with no unemitted dependents keeps the result dependents-first, and keeps it closed under dependents. |
| Resolver.EmitLowersCounts | SpreadsheetDependencyResolver.java:45-46 | Every precedent of the popped cell has a count of at least one. After the decrement, each count equals the number of unemitted cells that list it, so counts never go negative. |
| Resolver.PopHead | SpreadsheetDependencyResolver.java:42-43 | Moving the queue's head to the result keeps result-then-queue unchanged. The head was not yet emitted. |
| Resolver.Enqueue | SpreadsheetDependencyResolver.java:48 | Offering a cell that is neither queued nor emitted keeps result-then-queue free of duplicates. |
| Resolver.SpreadsheetDependencyResolver.GetRecalculationOrder | SpreadsheetDependencyResolver.java:18-58 | The graph is unchanged. The method fails exactly when the graph has a cycle, including a self-edge. On success, the result lists every key exactly once, dependents before precedents, so an empty graph gives an empty list. |
| DependencyGraph.FullLengthCoversKeys | SpreadsheetDependencyResolver.java:53 | A duplicate-free list of keys has as many entries as the map exactly when it lists every key. This is the size comparison of line 53. |
| DependencyGraph.CycleNeverEmitted | SpreadsheetDependencyResolver.java:41-51 | No cell on a cycle lies in a list that is dependents-first and closed under dependents. `Drain` returns such a list, so no cell on a cycle is ever emitted. |
| DependencyGraph.OrderedCoverHasNoCycle | SpreadsheetDependencyResolver.java:53-57 | A complete dependents-first list rules out every cycle, so a normal return means there is no cycle. |
| DependencyGraph.StalledSetHasCycle | SpreadsheetDependencyResolver.java:53-54 | A non-empty set of cells, each with a dependent inside the set, contains a cycle. So a short result means a cycle. |
| DependencyGraph.WalkBackToCycle | SpreadsheetDependencyResolver.java:53-54 | Walking back through dependents inside such a set eventually revisits a cell and closes a cycle. |
| DependencyGraph.SelfEdgeIsCycle | SpreadsheetDependencyResolver.java:12 | A cell that lists itself as a precedent forms a cycle. |
| DependencyGraph.ReverseIsPrecedentsFirst | SpreadsheetDependencyResolver.java:41-51 | Reading the dependents-first result backwards puts every precedent before its dependents. |
| DependencyGraph.NoDupCard | SpreadsheetDependencyResolver.java:43 | A duplicate-free list has as many distinct cells as entries. |
| DependencyGraph.AppendFresh | SpreadsheetDependencyResolver.java:35 | Appending a cell not yet listed keeps a list duplicate-free and adds exactly that cell. |
| Scenarios.DemoGraph | SpreadsheetDependencyResolver.java:66-69 | The map left by the driver's four registrations, for any four cell names. It has no contract of its own; `DemoGraphContents` states its contents. |
| Scenarios.DemoGraphContents | SpreadsheetDependencyResolver.java:66-69 | The driver's four registrations map `C1` to `{B2}`, `B2` to `{A1}`, `D1` to `{A1, C1}` and `A1` to `{}`, for any four distinct names. |
| Scenarios.DemoOrderIsValid | SpreadsheetDependencyResolver.java:66-71 | `[D1, C1, B2, A1]` is a recalculation order of that map. |
| Scenarios.DemoOrderIsUnique | SpreadsheetDependencyResolver.java:66-71 | Any recalculation order of that map is `[D1, C1, B2, A1]`. |
| Scenarios.DemoOrderIsForced | SpreadsheetDependencyResolver.java:66-71 | A list is a recalculation order of the driver's map exactly when it is `[D1, C1, B2, A1]`. |
| Scenarios.DemoHasNoCycle | SpreadsheetDependencyResolver.java:66-69 | The driver's map has no cycle. |
| Scenarios.DemoRecalculationOrder | SpreadsheetDependencyResolver.java:63-71 | The driver's calls, without printing, return `[D1, C1, B2, A1]`, whatever the hash order. |
| Scenarios.TwoCellCycle | SpreadsheetDependencyResolver.java:9-15 | Registering `X -> Y` (X reads Y) and then `Y -> X` creates a cycle, so the order is refused. |
| Scenarios.SelfRegistrationIsCycle | SpreadsheetDependencyResolver.java:9-15 | Registering a cell as its own precedent creates a cycle. |
| Scenarios.EmptyRecalculationOrder | SpreadsheetDependencyResolver.java:18-58 | A new resolver with no registration returns the empty list. |
| Scenarios.PairGraphContents | SpreadsheetDependencyResolver.java:9-15 | Registering `a -> b` on an empty map gives `a` mapped to `{b}` and `b` to `{}`. |
| Scenarios.PairOrderIsForced | SpreadsheetDependencyResolver.java:41-57 | A list is a recalculation order of `a -> b` exactly when it is `[a, b]`. |
| Scenarios.RepeatedRegistrationOrder | SpreadsheetDependencyResolver.java:9-58 | Registering `A -> B` twice, then asking for the order, returns `[A, B]`. |
| Scenarios.ChainContents | SpreadsheetDependencyResolver.java:9-15 | Registering `z -> y`, then `y -> x`, leaves both edges in the map. |
| Scenarios.ClosingEdgeIsCycle | SpreadsheetDependencyResolver.java:9-15 | Adding `x -> z` to a map holding `z -> y -> x` creates a cycle. |
| Scenarios.ThreeCellCycle | SpreadsheetDependencyResolver.java:9-15 | Registering `z -> y`, `y -> x`, `x -> z` on an empty map creates a cycle. |
| Scenarios.ThreeCellCycleDetected | SpreadsheetDependencyResolver.java:53-54 | Those three registrations, then asking for the order, return `CycleDetected`. |

## Left out

- `main` (lines 61-77): the console printing, and the exception message
  text, are not modelled. The driver's calls themselves are modelled by
  `Scenarios.DemoRecalculationOrder`.
- Exceptions: the exception thrown at line 54 is the value `CycleDetected`.
  The declared `throws Exception` has no other source.
- Iteration order: `HashMap` and `HashSet` order is chosen arbitrarily at
  every step (`:|`), so every property holds for every iteration order. The
  model does not claim that two calls on the same map give the same list.
- Counts are unbounded integers. A Java `Integer` count would overflow only
  with more than 2^31 cells.
- Null handling: the `getOrDefault` fallbacks at lines 27 and 45 are
  modelled as written. The closure invariant makes them unreachable. A `null`
  cell name or precedent list cannot occur in the model.
- Aliasing of the `precedents` list argument is not modelled: the argument
  is a value (`seq<string>`).
- Thread safety: the class has none, and the model is sequential.
