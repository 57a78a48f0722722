/** The example registrations of the driver in SpreadsheetDependencyResolver.java
    (lines 63-71), small edge cases and small cyclic maps, checked against the
    contracts of the resolver. */
module Scenarios {
  import opened DependencyGraph
  import opened Resolver

  /** The map the driver builds with its four registrations, for any four
      distinct cell names in the roles of A1, B2, C1 and D1. */
  function DemoGraph(a1: string, b2: string, c1: string, d1: string): Graph
  {
    Register(Register(Register(Register(map[], c1, [b2]), b2, [a1]), d1, [a1, c1]), a1, [])
  }

  predicate Distinct4(a1: string, b2: string, c1: string, d1: string)
  {
    a1 != b2 && a1 != c1 && a1 != d1 && b2 != c1 && b2 != d1 && c1 != d1
  }

  /** The four cells and their precedents after the driver's registrations. */
  ghost predicate IsDemoGraph(g: Graph, a1: string, b2: string, c1: string, d1: string)
  {
    && g.Keys == {a1, b2, c1, d1}
    && g[c1] == {b2} && g[b2] == {a1} && g[d1] == {a1, c1} && g[a1] == {}
  }

  /** First two registrations: `C1 -> B2`, then `B2 -> A1`. */
  lemma DemoFirstHalf(a1: string, b2: string, c1: string, d1: string)
    requires Distinct4(a1, b2, c1, d1)
    ensures var g := Register(Register(map[], c1, [b2]), b2, [a1]);
      g.Keys == {c1, b2, a1} && g[c1] == {b2} && g[b2] == {a1} && g[a1] == {}
  {
    var g1 := Register(map[], c1, [b2]);
    RegisterShape(map[], c1, [b2]);
    assert Elems([b2]) == {b2};
    assert g1.Keys == {c1, b2} && g1[c1] == {b2} && g1[b2] == {};
    RegisterShape(g1, b2, [a1]);
    assert Elems([a1]) == {a1};
  }

  /** Last two registrations: `D1 -> A1` and `D1 -> C1`, then `A1` with none. */
  lemma DemoSecondHalf(g: Graph, a1: string, b2: string, c1: string, d1: string)
    requires Distinct4(a1, b2, c1, d1)
    requires g.Keys == {c1, b2, a1} && g[c1] == {b2} && g[b2] == {a1} && g[a1] == {}
    ensures IsDemoGraph(Register(Register(g, d1, [a1, c1]), a1, []), a1, b2, c1, d1)
  {
    var g3 := Register(g, d1, [a1, c1]);
    RegisterShape(g, d1, [a1, c1]);
    assert Elems([a1, c1]) == {a1, c1};
    assert g3.Keys == {c1, b2, a1, d1};
    RegisterShape(g3, a1, []);
    assert Elems([]) == {};
  }

  lemma DemoGraphContents(a1: string, b2: string, c1: string, d1: string)
    requires Distinct4(a1, b2, c1, d1)
    ensures IsDemoGraph(DemoGraph(a1, b2, c1, d1), a1, b2, c1, d1)
  {
    DemoFirstHalf(a1, b2, c1, d1);
    DemoSecondHalf(Register(Register(map[], c1, [b2]), b2, [a1]), a1, b2, c1, d1);
  }

  /** Dependents first: the driver's list is a recalculation order. */
  lemma DemoOrderIsValid(g: Graph, a1: string, b2: string, c1: string, d1: string)
    requires Distinct4(a1, b2, c1, d1) && IsDemoGraph(g, a1, b2, c1, d1)
    ensures IsRecalculationOrder(g, [d1, c1, b2, a1])
  {
  }

  /** And it is the only one: each edge fixes the relative place of two cells. */
  lemma DemoOrderIsUnique(g: Graph, a1: string, b2: string, c1: string, d1: string, s: seq<string>)
    requires Distinct4(a1, b2, c1, d1) && IsDemoGraph(g, a1, b2, c1, d1)
    requires IsRecalculationOrder(g, s)
    ensures s == [d1, c1, b2, a1]
  {
    NoDupCard(s);
    assert |s| == 4;
    var d, c, b, a := IndexOf(s, d1), IndexOf(s, c1), IndexOf(s, b2), IndexOf(s, a1);
    assert c1 in g[d1] && b2 in g[c1] && a1 in g[b2];
    assert d < c && c < b && b < a;
    assert d == 0 && c == 1 && b == 2 && a == 3;
  }

  /** The driver's map has exactly one recalculation order, the one the
      driver prints: every dependent before its precedents. */
  lemma DemoOrderIsForced(a1: string, b2: string, c1: string, d1: string, s: seq<string>)
    requires Distinct4(a1, b2, c1, d1)
    ensures IsRecalculationOrder(DemoGraph(a1, b2, c1, d1), s) <==> s == [d1, c1, b2, a1]
  {
    var g := DemoGraph(a1, b2, c1, d1);
    DemoGraphContents(a1, b2, c1, d1);
    DemoOrderIsValid(g, a1, b2, c1, d1);
    if IsRecalculationOrder(g, s) {
      DemoOrderIsUnique(g, a1, b2, c1, d1, s);
    }
  }

  /** The driver's map has no cycle. */
  lemma DemoHasNoCycle(a1: string, b2: string, c1: string, d1: string)
    requires Distinct4(a1, b2, c1, d1)
    ensures !HasCycle(DemoGraph(a1, b2, c1, d1))
  {
    DemoOrderIsForced(a1, b2, c1, d1, [d1, c1, b2, a1]);
    OrderedCoverHasNoCycle(DemoGraph(a1, b2, c1, d1), [d1, c1, b2, a1]);
  }

  /** Lines 63-71 without the printing: the four registrations, then the
      recalculation order, which can only be the driver's list. */
  method DemoRecalculationOrder() returns (order: Outcome)
    ensures order == Order(["D1", "C1", "B2", "A1"])
  {
    var resolver := new SpreadsheetDependencyResolver();
    resolver.AddCellDependencies("C1", ["B2"]);
    resolver.AddCellDependencies("B2", ["A1"]);
    resolver.AddCellDependencies("D1", ["A1", "C1"]);
    resolver.AddCellDependencies("A1", []);
    assert Distinct4("A1", "B2", "C1", "D1");
    assert resolver.dependencyGraph == DemoGraph("A1", "B2", "C1", "D1");
    order := resolver.GetRecalculationOrder();
    DemoHasNoCycle("A1", "B2", "C1", "D1");
    DemoOrderIsForced("A1", "B2", "C1", "D1", order.cells);
  }

  /** `X -> Y` and `Y -> X` make a cycle, so the order is refused. */
  lemma TwoCellCycle()
    ensures HasCycle(Register(Register(map[], "X", ["Y"]), "Y", ["X"]))
  {
    var g1 := Register(map[], "X", ["Y"]);
    RegisterShape(map[], "X", ["Y"]);
    assert Elems(["Y"]) == {"Y"};
    var g2 := Register(g1, "Y", ["X"]);
    RegisterShape(g1, "Y", ["X"]);
    assert Elems(["X"]) == {"X"};
    assert IsPath(g2, ["X", "Y", "X"]);
  }

  /** Registering a cell as its own precedent makes a cycle. */
  lemma SelfRegistrationIsCycle(g: Graph, x: string)
    ensures HasCycle(Register(g, x, [x]))
  {
    RegisterShape(g, x, [x]);
    assert Elems([x]) == {x};
    SelfEdgeIsCycle(Register(g, x, [x]), x);
  }

  /** With no registration the map is empty, and so is the order. */
  method EmptyRecalculationOrder() returns (order: Outcome)
    ensures order == Order([])
  {
    var resolver := new SpreadsheetDependencyResolver();
    order := resolver.GetRecalculationOrder();
  }

  /** One registration `a -> b` on an empty map. */
  lemma PairGraphContents(a: string, b: string)
    requires a != b
    ensures Register(map[], a, [b]).Keys == {a, b}
    ensures Register(map[], a, [b])[a] == {b} && Register(map[], a, [b])[b] == {}
  {
    RegisterShape(map[], a, [b]);
    assert Elems([b]) == {b};
  }

  /** The only recalculation order of `a -> b` is `[a, b]`. */
  lemma PairOrderIsForced(g: Graph, a: string, b: string, s: seq<string>)
    requires a != b && g.Keys == {a, b} && g[a] == {b} && g[b] == {}
    ensures IsRecalculationOrder(g, s) <==> s == [a, b]
  {
    assert IsRecalculationOrder(g, [a, b]);
    if IsRecalculationOrder(g, s) {
      NoDupCard(s);
      var i, j := IndexOf(s, a), IndexOf(s, b);
      assert i < j;
    }
  }

  /** Registering `A -> B` twice gives the map of one registration, whose
      order is `[A, B]`. */
  method RepeatedRegistrationOrder() returns (order: Outcome)
    ensures order == Order(["A", "B"])
  {
    var resolver := new SpreadsheetDependencyResolver();
    resolver.AddCellDependencies("A", ["B"]);
    resolver.AddCellDependencies("A", ["B"]);
    RegisterIdempotent(map[], "A", ["B"]);
    var g := resolver.dependencyGraph;
    PairGraphContents("A", "B");
    PairOrderIsForced(g, "A", "B", ["A", "B"]);
    OrderedCoverHasNoCycle(g, ["A", "B"]);
    order := resolver.GetRecalculationOrder();
    PairOrderIsForced(g, "A", "B", order.cells);
  }

  /** `z -> y`, then `y -> x`, on an empty map. */
  lemma ChainContents(x: string, y: string, z: string)
    requires x != y && y != z && x != z
    ensures var g := Register(Register(map[], z, [y]), y, [x]);
      z in g && y in g[z] && y in g && x in g[y]
  {
    var g1 := Register(map[], z, [y]);
    RegisterShape(map[], z, [y]);
    assert Elems([y]) == {y};
    RegisterShape(g1, y, [x]);
    assert Elems([x]) == {x};
  }

  /** Adding `x -> z` to a chain `z -> y -> x` closes a cycle. */
  lemma ClosingEdgeIsCycle(g: Graph, x: string, y: string, z: string)
    requires x != y && y != z && x != z
    requires z in g && y in g[z] && y in g && x in g[y]
    ensures HasCycle(Register(g, x, [z]))
  {
    var r := Register(g, x, [z]);
    RegisterShape(g, x, [z]);
    assert Elems([z]) == {z};
    assert IsPath(r, [z, y, x, z]);
  }

  /** `z -> y`, `y -> x`, `x -> z` close a cycle of three cells. */
  lemma ThreeCellCycle(x: string, y: string, z: string)
    requires x != y && y != z && x != z
    ensures HasCycle(Register(Register(Register(map[], z, [y]), y, [x]), x, [z]))
  {
    ChainContents(x, y, z);
    ClosingEdgeIsCycle(Register(Register(map[], z, [y]), y, [x]), x, y, z);
  }

  /** Three registrations that close a cycle make the order fail. */
  method ThreeCellCycleDetected() returns (order: Outcome)
    ensures order == CycleDetected
  {
    var resolver := new SpreadsheetDependencyResolver();
    resolver.AddCellDependencies("Z", ["Y"]);
    resolver.AddCellDependencies("Y", ["X"]);
    resolver.AddCellDependencies("X", ["Z"]);
    ThreeCellCycle("X", "Y", "Z");
    order := resolver.GetRecalculationOrder();
  }
}
