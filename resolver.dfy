/** The resolver object of SpreadsheetDependencyResolver.java: a dependency
    map grown in place by AddCellDependencies, and Kahn's algorithm over it in
    GetRecalculationOrder. Line numbers below refer to that file.
    Hash-map and hash-set iteration order is not fixed by the model: every
    loop over a key set or a precedent set picks any element not yet visited. */
module Resolver {
  import opened DependencyGraph

  /** The result of getRecalculationOrder: the list it returns, or the
      exception it throws when fewer cells were emitted than the map holds. */
  datatype Outcome = Order(cells: seq<string>) | CycleDetected

  /** Lines 20-29: every key starts at 0, then every edge `node -> dep` adds
      one to the count of `dep`. The count of a cell is the number of keys
      that list it as a precedent. */
  method CountDependents(g: Graph) returns (inDegree: map<string, int>)
    requires Closed(g)
    ensures inDegree.Keys == g.Keys
    ensures forall n :: n in g ==> inDegree[n] == |Dependents(g, n, g.Keys)|
  {
    inDegree := map[];
    var pending := g.Keys;
    while pending != {}
      invariant pending <= g.Keys
      invariant inDegree.Keys == g.Keys - pending
      invariant forall n :: n in inDegree ==> inDegree[n] == 0
      decreases pending
    {
      var node :| node in pending;
      pending := pending - {node};
      if node !in inDegree {
        inDegree := inDegree[node := 0];
      }
    }

    var unvisited := g.Keys;
    while unvisited != {}
      invariant unvisited <= g.Keys
      invariant inDegree.Keys == g.Keys
      invariant forall n :: n in g ==> inDegree[n] == |Dependents(g, n, g.Keys - unvisited)|
      decreases unvisited
    {
      var node :| node in unvisited;
      ghost var visited := g.Keys - unvisited;
      inDegree := CountPrecedentsOf(g, node, inDegree);
      unvisited := unvisited - {node};
      assert g.Keys - unvisited == visited + {node};
      forall n | n in g
        ensures inDegree[n] == |Dependents(g, n, g.Keys - unvisited)|
      {
        DependentsAdd(g, n, visited, node);
      }
    }
  }

  /** Lines 26-28: add one to the count of every precedent of `node`. */
  method CountPrecedentsOf(g: Graph, node: string, counts: map<string, int>) returns (inDegree: map<string, int>)
    requires node in g && g[node] <= counts.Keys
    ensures inDegree.Keys == counts.Keys
    ensures forall n :: n in counts ==> inDegree[n] == counts[n] + (if n in g[node] then 1 else 0)
  {
    inDegree := counts;
    var deps := g[node];
    var todo := deps;
    while todo != {}
      invariant todo <= deps
      invariant inDegree.Keys == counts.Keys
      invariant forall n :: n in counts ==> inDegree[n] == counts[n] + (if n in deps && n !in todo then 1 else 0)
      decreases todo
    {
      var dep :| dep in todo;
      todo := todo - {dep};
      inDegree := inDegree[dep := (if dep in inDegree then inDegree[dep] else 0) + 1];
    }
  }

  /** Adding one key to the range adds it to the dependents of `n` exactly
      when it lists `n`. */
  lemma DependentsAdd(g: Graph, n: string, r: set<string>, x: string)
    requires x in g && x !in r
    ensures |Dependents(g, n, r + {x})| == |Dependents(g, n, r)| + (if n in g[x] then 1 else 0)
  {
    if n in g[x] {
      assert Dependents(g, n, r + {x}) == Dependents(g, n, r) + {x};
    } else {
      assert Dependents(g, n, r + {x}) == Dependents(g, n, r);
    }
  }

  /** Lines 32-37: queue every cell whose count is zero, each once. */
  method SeedQueue(inDegree: map<string, int>) returns (queue: seq<string>)
    ensures NoDup(queue)
    ensures Elems(queue) == set n | n in inDegree && inDegree[n] == 0
  {
    queue := [];
    var pending := inDegree.Keys;
    while pending != {}
      invariant pending <= inDegree.Keys
      invariant NoDup(queue)
      invariant Elems(queue) == set n | n in inDegree.Keys - pending && inDegree[n] == 0
      decreases pending
    {
      var node :| node in pending;
      pending := pending - {node};
      if inDegree[node] == 0 {
        AppendFresh(queue, node);
        queue := queue + [node];
      }
    }
  }

  /** Lines 39-51: repeatedly take the head of the queue, emit it, and lower
      the count of each of its precedents, queueing those that reach zero.
      The result lists distinct cells, dependents first, and carries every
      dependent of each emitted cell; each cell left over still has a
      dependent that is left over too. */
  method Drain(g: Graph, counts: map<string, int>, seed: seq<string>) returns (result: seq<string>)
    requires Closed(g)
    requires counts.Keys == g.Keys
    requires forall n :: n in g ==> counts[n] == |Dependents(g, n, g.Keys)|
    requires NoDup(seed) && Elems(seed) == set n | n in counts && counts[n] == 0
    ensures NoDup(result) && Elems(result) <= g.Keys
    ensures DependentsFirst(g, result)
    ensures DependentsIncluded(g, Elems(result))
    ensures forall n :: n in g.Keys - Elems(result) ==> Dependents(g, n, g.Keys - Elems(result)) != {}
  {
    var inDegree := counts;
    var queue := seed;
    result := [];
    assert result + queue == queue && g.Keys - Elems(result) == g.Keys;
    while queue != []
      invariant inDegree.Keys == g.Keys
      invariant forall n :: n in g ==> inDegree[n] == |Dependents(g, n, g.Keys - Elems(result))|
      invariant NoDup(result + queue) && Elems(result + queue) <= g.Keys
      invariant forall n :: n in g ==> (n in Elems(result + queue) <==> inDegree[n] == 0)
      invariant DependentsFirst(g, result)
      invariant DependentsIncluded(g, Elems(result))
      decreases g.Keys - Elems(result)
    {
      var current := queue[0];
      PopHead(result, queue);
      EmitKeepsOrder(g, result, current);
      EmitLowersCounts(g, result, current, inDegree);
      queue := queue[1..];
      result := result + [current];
      inDegree, queue := ReleasePrecedents(g, current, result, inDegree, queue);
    }
    assert result + queue == result;
  }

  /** Lines 45-50: lower by one the count of every precedent of the emitted
      cell `current` and append to the queue, in any order, each precedent
      whose count reaches zero. A cell stays emitted or queued, once, exactly
      when its count is zero. */
  method ReleasePrecedents(g: Graph, current: string, result: seq<string>,
                           counts: map<string, int>, waiting: seq<string>)
    returns (inDegree: map<string, int>, queue: seq<string>)
    requires Closed(g) && current in g
    requires counts.Keys == g.Keys
    requires forall n :: n in g[current] ==> counts[n] >= 1
    requires NoDup(result + waiting) && Elems(result + waiting) <= g.Keys
    requires forall n :: n in g ==> (n in Elems(result + waiting) <==> counts[n] == 0)
    ensures inDegree.Keys == g.Keys
    ensures forall n :: n in g ==> inDegree[n] == counts[n] - (if n in g[current] then 1 else 0)
    ensures NoDup(result + queue) && Elems(result + queue) <= g.Keys
    ensures forall n :: n in g ==> (n in Elems(result + queue) <==> inDegree[n] == 0)
    ensures waiting <= queue
  {
    inDegree, queue := counts, waiting;
    var neighbors := if current in g then g[current] else {};
    var todo := neighbors;
    ghost var listed := Elems(result + queue);
    while todo != {}
      invariant todo <= neighbors == g[current]
      invariant inDegree.Keys == g.Keys
      invariant forall n :: n in g ==> inDegree[n] == counts[n] - (if n in neighbors && n !in todo then 1 else 0)
      invariant NoDup(result + queue) && listed == Elems(result + queue) && listed <= g.Keys
      invariant forall n :: n in g ==> (n in listed <==> inDegree[n] == 0)
      invariant waiting <= queue
      decreases todo
    {
      var neighbor :| neighbor in todo;
      ghost var was, wasListed := inDegree, listed;
      assert neighbor in g && inDegree[neighbor] >= 1 && neighbor !in listed;
      todo := todo - {neighbor};
      inDegree := inDegree[neighbor := inDegree[neighbor] - 1];
      if inDegree[neighbor] == 0 {
        Enqueue(result, queue, neighbor);
        queue := queue + [neighbor];
        listed := listed + {neighbor};
      }
      forall n | n in g
        ensures inDegree[n] == counts[n] - (if n in neighbors && n !in todo then 1 else 0)
        ensures n in listed <==> inDegree[n] == 0
      {
        if n != neighbor {
          assert inDegree[n] == was[n] && (n in listed <==> n in wasListed);
          assert (n in todo <==> n in todo + {neighbor});
        }
      }
    }
  }

  /** Appending a cell that is neither emitted nor queued to the queue. */
  lemma Enqueue(result: seq<string>, queue: seq<string>, x: string)
    requires NoDup(result + queue) && x !in Elems(result + queue)
    ensures NoDup(result + (queue + [x]))
    ensures Elems(result + (queue + [x])) == Elems(result + queue) + {x}
  {
    AppendFresh(result + queue, x);
    assert (result + queue) + [x] == result + (queue + [x]);
  }

  /** Moving the head of the queue to the end of the result keeps the cells
      listed, in the same order, and the head was not emitted before. */
  lemma PopHead(result: seq<string>, queue: seq<string>)
    requires NoDup(result + queue) && queue != []
    ensures queue[0] !in Elems(result)
    ensures queue[0] in Elems(result + queue)
    ensures result + queue == (result + [queue[0]]) + queue[1..]
    ensures Elems(result + [queue[0]]) == Elems(result) + {queue[0]}
  {
    var s := result + queue;
    assert s[|result|] == queue[0];
    forall i | 0 <= i < |result|
      ensures result[i] != queue[0]
    {
      assert s[i] == result[i];
    }
  }

  /** One emission step of the drain loop. No dependent of `current` is still
      waiting, so appending it keeps the order dependents-first and keeps
      every dependent of an emitted cell emitted. */
  lemma EmitKeepsOrder(g: Graph, before: seq<string>, current: string)
    requires current in g && current !in Elems(before)
    requires |Dependents(g, current, g.Keys - Elems(before))| == 0
    requires DependentsFirst(g, before) && DependentsIncluded(g, Elems(before))
    ensures DependentsFirst(g, before + [current])
    ensures DependentsIncluded(g, Elems(before + [current]))
  {
    var s := before + [current];
    var rem := g.Keys - Elems(before);
    assert Elems(s) == Elems(before) + {current};
    assert Dependents(g, current, rem) == {};
    forall d | d in Elems(s)
      ensures d !in g[current]
    {
      assert current !in Dependents(g, current, rem);
      assert d in g[current] ==> current in Elems(before);
    }
    forall i, j | 0 <= i < |s| && 0 <= j < |s| && s[i] in g && s[j] in g[s[i]]
      ensures i < j
    {
      assert s[j] in Elems(s) && s[|before|] == current;
      if i < |before| && j < |before| {
        assert s[i] == before[i] && s[j] == before[j];
      }
    }
    forall c, d | c in g && d in g[c] && d in Elems(s)
      ensures c in Elems(s)
    {
      if d == current {
        assert c in rem ==> c in Dependents(g, current, rem);
      }
    }
  }

  /** Emitting `current` takes it out of the dependents still waiting on each
      of its precedents: their counts are one too high until lowered. */
  lemma EmitLowersCounts(g: Graph, before: seq<string>, current: string, inDegree: map<string, int>)
    requires Closed(g) && current in g && current !in Elems(before)
    requires inDegree.Keys == g.Keys
    requires forall n :: n in g ==> inDegree[n] == |Dependents(g, n, g.Keys - Elems(before))|
    ensures forall n :: n in g[current] ==> inDegree[n] >= 1
    ensures forall n :: n in g ==>
      inDegree[n] - (if n in g[current] then 1 else 0) == |Dependents(g, n, g.Keys - Elems(before + [current]))|
  {
    var rem := g.Keys - Elems(before);
    assert Elems(before + [current]) == Elems(before) + {current};
    assert g.Keys - Elems(before + [current]) == rem - {current};
    forall n | n in g
      ensures |Dependents(g, n, rem)|
        == |Dependents(g, n, rem - {current})| + (if n in g[current] then 1 else 0)
    {
      DependentsAdd(g, n, rem - {current}, current);
      assert rem - {current} + {current} == rem;
    }
  }

  class SpreadsheetDependencyResolver {
    var dependencyGraph: Graph

    /** Every cell listed as a precedent is also a key; this is what lets the
        drain loop look up the count of every precedent it reaches. */
    ghost predicate Valid()
      reads this
    {
      Closed(dependencyGraph)
    }

    constructor ()
      ensures Valid() && dependencyGraph == map[]
    {
      dependencyGraph := map[];
    }

    /** Lines 9-15: make `cell` a key, then add each precedent to its set and
        make the precedent a key without disturbing an existing entry. */
    method AddCellDependencies(cell: string, precedents: seq<string>)
      requires Valid()
      modifies this
      ensures Valid()
      ensures dependencyGraph == Register(old(dependencyGraph), cell, precedents)
    {
      ghost var g0 := dependencyGraph;
      dependencyGraph := PutIfAbsent(dependencyGraph, cell);
      var i := 0;
      while i < |precedents|
        invariant 0 <= i <= |precedents|
        invariant cell in dependencyGraph
        invariant AddPrecedents(dependencyGraph, cell, precedents[i..]) == Register(g0, cell, precedents)
      {
        var dep := precedents[i];
        assert precedents[i..] == [dep] + precedents[i + 1..];
        dependencyGraph := dependencyGraph[cell := dependencyGraph[cell] + {dep}];
        dependencyGraph := PutIfAbsent(dependencyGraph, dep);
        i := i + 1;
      }
      RegisterKeepsClosed(g0, cell, precedents);
    }

    /** Lines 18-58: Kahn's algorithm with the count of a cell being the number
        of cells that list it as a precedent. Succeeds exactly when the map has
        no cycle, and then lists every cell once, each dependent before its
        precedents. The map itself is left as it was. */
    method GetRecalculationOrder() returns (r: Outcome)
      requires Valid()
      ensures r.CycleDetected? <==> HasCycle(dependencyGraph)
      ensures r.Order? ==> IsRecalculationOrder(dependencyGraph, r.cells)
      ensures r.Order? ==> |r.cells| == |dependencyGraph|
    {
      var inDegree := CountDependents(dependencyGraph);
      var queue := SeedQueue(inDegree);
      assert (set n | n in inDegree && inDegree[n] == 0) == Elems(queue);
      var result := Drain(dependencyGraph, inDegree, queue);
      FullLengthCoversKeys(dependencyGraph, result);
      if |result| != |dependencyGraph| {
        StalledSetHasCycle(dependencyGraph, dependencyGraph.Keys - Elems(result));
        r := CycleDetected;
      } else {
        OrderedCoverHasNoCycle(dependencyGraph, result);
        r := Order(result);
      }
    }
  }
}
