/** The dependency graph of a spreadsheet: each cell is sent to the set of
    cells it depends on (its precedents). An edge `c -> d` means `d in g[c]`,
    that is, cell `c` reads cell `d`. */
module DependencyGraph {

  type Graph = map<string, set<string>>

  /** The cells listed in a sequence. */
  function Elems(s: seq<string>): set<string>
  {
    set x | x in s
  }

  predicate NoDup(s: seq<string>)
  {
    forall i, j :: 0 <= i < j < |s| ==> s[i] != s[j]
  }

  /** Every cell that appears in some precedent set is itself a key. */
  ghost predicate Closed(g: Graph)
  {
    forall c, d :: c in g && d in g[c] ==> d in g
  }

  /** The cells of `r` that list `n` as a precedent. */
  function Dependents(g: Graph, n: string, r: set<string>): set<string>
  {
    set c | c in r && c in g && n in g[c]
  }

  /** Every edge `s[i] -> s[j]` between cells of `s` goes forward in `s`:
      a dependent comes before each of its precedents. */
  ghost predicate DependentsFirst(g: Graph, s: seq<string>)
  {
    forall i, j :: 0 <= i < |s| && 0 <= j < |s| && s[i] in g && s[j] in g[s[i]] ==> i < j
  }

  /** Every edge `s[i] -> s[j]` goes backward in `s`: a precedent comes before
      each cell that depends on it. */
  ghost predicate PrecedentsFirst(g: Graph, s: seq<string>)
  {
    forall i, j :: 0 <= i < |s| && 0 <= j < |s| && s[i] in g && s[j] in g[s[i]] ==> j < i
  }

  /** Every dependent of a cell of `e` is in `e` too. */
  ghost predicate DependentsIncluded(g: Graph, e: set<string>)
  {
    forall c, d :: c in g && d in g[c] && d in e ==> c in e
  }

  /** A successful recalculation order lists every cell of the graph exactly
      once, dependents first. */
  ghost predicate IsRecalculationOrder(g: Graph, s: seq<string>)
  {
    NoDup(s) && Elems(s) == g.Keys && DependentsFirst(g, s)
  }

  /** A non-empty walk along edges. */
  ghost predicate IsPath(g: Graph, p: seq<string>)
  {
    |p| >= 2 && forall k :: 0 <= k < |p| - 1 ==> p[k] in g && p[k + 1] in g[p[k]]
  }

  /** A non-empty walk from some cell back to itself; `X -> X` is one. */
  ghost predicate HasCycle(g: Graph)
  {
    exists p :: IsPath(g, p) && p[0] == p[|p| - 1]
  }

  // ---------------------------------------------------------------------
  // Registration: addCellDependencies as a function of the old map

  /** `Map.putIfAbsent(k, new HashSet<>())`: never overwrites an entry. */
  function PutIfAbsent(g: Graph, k: string): (r: Graph)
    ensures r.Keys == g.Keys + {k}
    ensures k !in g ==> r[k] == {}
    ensures forall x :: x in g ==> r[x] == g[x]
  {
    if k in g then g else g[k := {}]
  }

  /** The loop of addCellDependencies over the remaining precedents: add each
      one to the set of `cell`, then make sure it is a key. */
  function AddPrecedents(g: Graph, cell: string, ps: seq<string>): Graph
    requires cell in g
    decreases |ps|
  {
    if ps == [] then g
    else AddPrecedents(PutIfAbsent(g[cell := g[cell] + {ps[0]}], ps[0]), cell, ps[1..])
  }

  /** The map after `addCellDependencies(cell, ps)` on `g`. */
  function Register(g: Graph, cell: string, ps: seq<string>): Graph
  {
    AddPrecedents(PutIfAbsent(g, cell), cell, ps)
  }

  lemma {:induction false} AddPrecedentsShape(g: Graph, cell: string, ps: seq<string>)
    requires cell in g
    ensures AddPrecedents(g, cell, ps).Keys == g.Keys + Elems(ps)
    ensures AddPrecedents(g, cell, ps)[cell] == g[cell] + Elems(ps)
    ensures forall k :: k in g && k != cell ==> AddPrecedents(g, cell, ps)[k] == g[k]
    ensures forall k :: k in AddPrecedents(g, cell, ps) && k !in g ==> AddPrecedents(g, cell, ps)[k] == {}
    decreases |ps|
  {
    if ps != [] {
      var p := ps[0];
      var g0 := g[cell := g[cell] + {p}];
      var g1 := PutIfAbsent(g0, p);
      assert g1.Keys == g.Keys + {p};
      assert g1[cell] == g[cell] + {p};
      AddPrecedentsShape(g1, cell, ps[1..]);
      assert AddPrecedents(g, cell, ps) == AddPrecedents(g1, cell, ps[1..]);
      assert ps == [p] + ps[1..];
      assert Elems(ps) == {p} + Elems(ps[1..]);
    }
  }

  /** What addCellDependencies does to the map: `cell` and every precedent
      become keys, the set of `cell` is its old set (empty if new) joined with
      the precedents, every other old key keeps its set, and every new key
      other than `cell` starts with an empty set. */
  lemma {:induction false} RegisterShape(g: Graph, cell: string, ps: seq<string>)
    ensures Register(g, cell, ps).Keys == g.Keys + {cell} + Elems(ps)
    ensures Register(g, cell, ps)[cell] == (if cell in g then g[cell] else {}) + Elems(ps)
    ensures forall k :: k in g && k != cell ==> Register(g, cell, ps)[k] == g[k]
    ensures forall k :: k in Register(g, cell, ps) && k !in g && k != cell ==> Register(g, cell, ps)[k] == {}
  {
    AddPrecedentsShape(PutIfAbsent(g, cell), cell, ps);
  }

  /** Registration never removes a key or an edge. */
  lemma RegisterKeepsEdges(g: Graph, cell: string, ps: seq<string>)
    ensures forall k :: k in g ==> k in Register(g, cell, ps) && g[k] <= Register(g, cell, ps)[k]
  {
    RegisterShape(g, cell, ps);
  }

  /** Registration keeps every precedent a key. */
  lemma RegisterKeepsClosed(g: Graph, cell: string, ps: seq<string>)
    requires Closed(g)
    ensures Closed(Register(g, cell, ps))
  {
    RegisterShape(g, cell, ps);
  }

  /** Registering the same cell and precedents twice leaves the map of one
      registration. */
  lemma RegisterIdempotent(g: Graph, cell: string, ps: seq<string>)
    ensures Register(Register(g, cell, ps), cell, ps) == Register(g, cell, ps)
  {
    var r1 := Register(g, cell, ps);
    var r2 := Register(r1, cell, ps);
    RegisterShape(g, cell, ps);
    RegisterShape(r1, cell, ps);
    assert r2.Keys == r1.Keys;
    forall k | k in r2
      ensures r2[k] == r1[k]
    {
    }
  }

  // ---------------------------------------------------------------------
  // Cycles and orders

  function IndexOf(s: seq<string>, x: string): (i: nat)
    requires x in s
    ensures i < |s| && s[i] == x
  {
    if s[0] == x then 0 else 1 + IndexOf(s[1..], x)
  }

  /** Appending a cell not yet listed keeps a sequence duplicate-free. */
  lemma AppendFresh(s: seq<string>, x: string)
    requires NoDup(s) && x !in Elems(s)
    ensures NoDup(s + [x]) && Elems(s + [x]) == Elems(s) + {x}
  {
  }

  lemma {:induction false} NoDupCard(s: seq<string>)
    requires NoDup(s)
    ensures |Elems(s)| == |s|
  {
    if s != [] {
      var t := s[1..];
      assert NoDup(t) by {
        forall i, j | 0 <= i < j < |t|
          ensures t[i] != t[j]
        {
          assert t[i] == s[i + 1] && t[j] == s[j + 1];
        }
      }
      NoDupCard(t);
      assert s == [s[0]] + t;
      assert Elems(s) == {s[0]} + Elems(t);
      forall k | 0 <= k < |t|
        ensures t[k] != s[0]
      {
        assert t[k] == s[k + 1];
      }
    }
  }

  /** A duplicate-free sequence of cells of `g` as long as `g` has keys lists
      exactly the keys. */
  lemma FullLengthCoversKeys(g: Graph, s: seq<string>)
    requires NoDup(s) && Elems(s) <= g.Keys
    ensures |s| == |g| <==> Elems(s) == g.Keys
    ensures |s| == |g| <==> g.Keys - Elems(s) == {}
  {
    NoDupCard(s);
    var rest := g.Keys - Elems(s);
    assert g.Keys == Elems(s) + rest;
    assert |g.Keys| == |Elems(s)| + |rest|;
    assert |g| == |g.Keys|;
  }

  /** Every cell on a walk that ends in a set closed under "is a dependent of"
      is in that set. */
  lemma {:induction false} PathIntoIncludedSet(g: Graph, e: set<string>, p: seq<string>)
    requires DependentsIncluded(g, e)
    requires IsPath(g, p) && p[|p| - 1] in e
    ensures forall k :: 0 <= k < |p| ==> p[k] in e
    decreases |p|
  {
    var n := |p|;
    assert p[n - 2] in g && p[n - 1] in g[p[n - 2]];
    if n > 2 {
      var q := p[..n - 1];
      assert IsPath(g, q) by {
        forall k | 0 <= k < |q| - 1
          ensures q[k] in g && q[k + 1] in g[q[k]]
        {
          assert q[k] == p[k] && q[k + 1] == p[k + 1];
        }
      }
      PathIntoIncludedSet(g, e, q);
      forall k | 0 <= k < n
        ensures p[k] in e
      {
        if k < n - 1 {
          assert p[k] == q[k];
        }
      }
    }
  }

  /** Along a walk all of whose cells are in a dependents-first sequence, the
      positions strictly increase. */
  lemma {:induction false} PathMovesForward(g: Graph, s: seq<string>, p: seq<string>)
    requires DependentsFirst(g, s)
    requires IsPath(g, p)
    requires forall k :: 0 <= k < |p| ==> p[k] in s
    ensures IndexOf(s, p[0]) < IndexOf(s, p[|p| - 1])
    decreases |p|
  {
    var n := |p|;
    assert p[n - 2] in g && p[n - 1] in g[p[n - 2]];
    var i, j := IndexOf(s, p[n - 2]), IndexOf(s, p[n - 1]);
    assert s[i] in g && s[j] in g[s[i]];
    if n > 2 {
      var q := p[..n - 1];
      assert IsPath(g, q) by {
        forall k | 0 <= k < |q| - 1
          ensures q[k] in g && q[k + 1] in g[q[k]]
        {
          assert q[k] == p[k] && q[k + 1] == p[k + 1];
        }
      }
      assert forall k :: 0 <= k < |q| ==> q[k] == p[k];
      PathMovesForward(g, s, q);
    }
  }

  /** No cell on a cycle is in a dependents-first sequence whose cells carry
      all their dependents with them. */
  lemma CycleNeverEmitted(g: Graph, s: seq<string>, p: seq<string>)
    requires DependentsFirst(g, s) && DependentsIncluded(g, Elems(s))
    requires IsPath(g, p) && p[0] == p[|p| - 1]
    ensures forall k :: 0 <= k < |p| ==> p[k] !in s
  {
    var e := Elems(s);
    if k :| 0 <= k < |p| && p[k] in s {
      if k != 0 && k != |p| - 1 {
        var q := p[..k + 1];
        assert IsPath(g, q) by {
          forall m | 0 <= m < |q| - 1
            ensures q[m] in g && q[m + 1] in g[q[m]]
          {
            assert q[m] == p[m] && q[m + 1] == p[m + 1];
          }
        }
        assert q[|q| - 1] == p[k];
        PathIntoIncludedSet(g, e, q);
        assert q[0] == p[0];
      }
      assert p[|p| - 1] in e;
      PathIntoIncludedSet(g, e, p);
      PathMovesForward(g, s, p);
      assert false;
    }
  }

  /** A complete dependents-first order rules out every cycle. */
  lemma OrderedCoverHasNoCycle(g: Graph, s: seq<string>)
    requires DependentsFirst(g, s) && Elems(s) == g.Keys
    ensures !HasCycle(g)
  {
    if HasCycle(g) {
      var p :| IsPath(g, p) && p[0] == p[|p| - 1];
      CycleNeverEmitted(g, s, p);
      assert false;
    }
  }

  /** If every cell of a non-empty set `u` has a dependent in `u`, following
      dependents backwards from a walk `w` inside `u` closes a cycle. */
  lemma {:induction false} WalkBackToCycle(g: Graph, u: set<string>, w: seq<string>)
    requires forall n :: n in u ==> Dependents(g, n, u) != {}
    requires |w| >= 1 && Elems(w) <= u
    requires forall k :: 0 <= k < |w| - 1 ==> w[k] in g && w[k + 1] in g[w[k]]
    ensures HasCycle(g)
    decreases u - Elems(w)
  {
    var h := w[0];
    assert h in Elems(w);
    var c :| c in Dependents(g, h, u);
    if c in w {
      var j :| 0 <= j < |w| && w[j] == c;
      var p := w[..j + 1] + [h];
      forall k | 0 <= k < |p| - 1
        ensures p[k] in g && p[k + 1] in g[p[k]]
      {
        if k < j {
          assert p[k] == w[k] && p[k + 1] == w[k + 1];
        } else {
          assert p[k] == c && p[k + 1] == h;
        }
      }
      assert IsPath(g, p) && p[0] == p[|p| - 1];
    } else {
      var w' := [c] + w;
      assert Elems(w') == {c} + Elems(w);
      forall k | 0 <= k < |w'| - 1
        ensures w'[k] in g && w'[k + 1] in g[w'[k]]
      {
        if k > 0 {
          assert w'[k] == w[k - 1] && w'[k + 1] == w[k];
        }
      }
      WalkBackToCycle(g, u, w');
    }
  }

  /** A non-empty set of cells each of which has a dependent in the set holds
      a cycle: this is what a stalled ordering leaves behind. */
  lemma StalledSetHasCycle(g: Graph, u: set<string>)
    requires u != {}
    requires forall n :: n in u ==> Dependents(g, n, u) != {}
    ensures HasCycle(g)
  {
    var n :| n in u;
    assert Elems([n]) == {n};
    WalkBackToCycle(g, u, [n]);
  }

  /** A cell that lists itself as a precedent is a cycle. */
  lemma SelfEdgeIsCycle(g: Graph, x: string)
    requires x in g && x in g[x]
    ensures HasCycle(g)
  {
    assert IsPath(g, [x, x]);
  }

  function Reverse(s: seq<string>): seq<string>
  {
    seq(|s|, i requires 0 <= i < |s| => s[|s| - 1 - i])
  }

  /** Reading a dependents-first order backwards gives precedents first. */
  lemma ReverseIsPrecedentsFirst(g: Graph, s: seq<string>)
    requires DependentsFirst(g, s)
    ensures PrecedentsFirst(g, Reverse(s))
  {
  }
}
