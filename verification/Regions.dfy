/** Connected regions of a finite graph given by its live cells and a symmetric edge relation. */
module Regions {

  datatype Graph = Graph(cells: set<nat>, edge: (nat, nat) -> bool)

  ghost predicate Symmetric(g: Graph) {
    forall i, j :: g.edge(i, j) ==> g.edge(j, i)
  }

  /** A walk over live cells, each step crossing one edge. */
  ghost predicate IsPath(g: Graph, p: seq<nat>) {
    && |p| > 0
    && (forall k :: 0 <= k < |p| ==> p[k] in g.cells)
    && (forall k :: 0 < k < |p| ==> Crosses(g, p, k))
  }

  ghost predicate Crosses(g: Graph, p: seq<nat>, k: nat)
    requires 0 < k < |p|
  {
    g.edge(p[k - 1], p[k])
  }

  ghost predicate Links(g: Graph, p: seq<nat>, a: nat, b: nat) {
    IsPath(g, p) && p[0] == a && p[|p| - 1] == b
  }

  ghost predicate Connected(g: Graph, a: nat, b: nat) {
    exists p :: Links(g, p, a, b)
  }

  ghost function Region(g: Graph, s: nat): set<nat> {
    set i | i in g.cells && Connected(g, s, i)
  }

  lemma ConnectedRefl(g: Graph, a: nat)
    requires a in g.cells
    ensures Connected(g, a, a)
  {
    assert Links(g, [a], a, a);
  }

  lemma ConnectedStep(g: Graph, a: nat, b: nat, c: nat)
    requires Connected(g, a, b) && c in g.cells && g.edge(b, c)
    ensures Connected(g, a, c)
  {
    var p :| Links(g, p, a, b);
    var q := p + [c];
    forall k | 0 < k < |q|
      ensures Crosses(g, q, k)
    {
      assert k < |p| ==> Crosses(g, p, k);
    }
    assert Links(g, q, a, c);
  }

  lemma ConnectedSym(g: Graph, a: nat, b: nat)
    requires Symmetric(g) && Connected(g, a, b)
    ensures Connected(g, b, a)
  {
    var p :| Links(g, p, a, b);
    var r := seq(|p|, k requires 0 <= k < |p| => p[|p| - 1 - k]);
    forall k | 0 < k < |r|
      ensures Crosses(g, r, k)
    {
      assert Crosses(g, p, |p| - k);
    }
    assert Links(g, r, b, a);
  }

  lemma ConnectedTrans(g: Graph, a: nat, b: nat, c: nat)
    requires Connected(g, a, b) && Connected(g, b, c)
    ensures Connected(g, a, c)
  {
    var p :| Links(g, p, a, b);
    var q :| Links(g, q, b, c);
    var r := p + q[1..];
    forall k | 0 < k < |r|
      ensures Crosses(g, r, k)
    {
      if k < |p| {
        assert Crosses(g, p, k);
      } else {
        assert Crosses(g, q, k - |p| + 1);
      }
    }
    assert Links(g, r, a, c);
  }

  /** Every live neighbour of a cell of `R` is in `S`. */
  ghost predicate Explored(g: Graph, R: set<nat>, S: set<nat>) {
    forall i, j :: i in R && j in g.cells && g.edge(i, j) ==> j in S
  }

  /** No edge between live cells leaves `S`. */
  ghost predicate Closed(g: Graph, S: set<nat>) {
    Explored(g, S, S)
  }

  /** A closed set holding the start of a path holds its end. */
  lemma {:induction false} ClosedHoldsPath(g: Graph, S: set<nat>, p: seq<nat>)
    requires IsPath(g, p) && Closed(g, S) && p[0] in S
    ensures p[|p| - 1] in S
  {
    if |p| > 1 {
      var q := p[..|p| - 1];
      forall k | 0 < k < |q|
        ensures Crosses(g, q, k)
      {
        assert Crosses(g, p, k);
      }
      ClosedHoldsPath(g, S, q);
      assert Crosses(g, p, |p| - 1);
    }
  }

  lemma ClosedHoldsConnected(g: Graph, S: set<nat>, a: nat, b: nat)
    requires Closed(g, S) && a in S && Connected(g, a, b)
    ensures b in S
  {
    var p :| Links(g, p, a, b);
    ClosedHoldsPath(g, S, p);
  }

  lemma RegionClosed(g: Graph, start: nat)
    ensures Closed(g, Region(g, start))
  {
    forall i, j | i in Region(g, start) && j in g.cells && g.edge(i, j)
      ensures j in Region(g, start)
    {
      ConnectedStep(g, start, i, j);
    }
  }

  /** A closed set of live cells connected to `start` is the whole region. */
  lemma RegionReached(g: Graph, start: nat, R: set<nat>)
    requires start in R && Closed(g, R)
    requires forall i :: i in R ==> i in g.cells && Connected(g, start, i)
    ensures R == Region(g, start)
  {
    forall i | i in Region(g, start)
      ensures i in R
    {
      ClosedHoldsConnected(g, R, start, i);
    }
  }

  // ----- Leaders: the least cell of each region -----

  ghost predicate Leader(g: Graph, s: nat) {
    s in g.cells && forall j: nat :: j < s ==> !Connected(g, j, s)
  }

  /** The leaders below `n`, in ascending order. */
  ghost function Leaders(g: Graph, n: nat): seq<nat> {
    if n == 0 then []
    else Leaders(g, n - 1) + if Leader(g, n - 1) then [n - 1] else []
  }

  lemma {:induction false} LeadersExact(g: Graph, n: nat)
    ensures forall s: nat :: s in Leaders(g, n) <==> s < n && Leader(g, s)
    ensures forall k, l :: 0 <= k < l < |Leaders(g, n)| ==> Leaders(g, n)[k] < Leaders(g, n)[l]
  {
    if n > 0 {
      LeadersExact(g, n - 1);
      var ls := Leaders(g, n - 1);
      forall k | 0 <= k < |ls|
        ensures ls[k] < n - 1
      {
        assert ls[k] in ls;
      }
    }
  }

  lemma {:induction false} LeaderOf(g: Graph, i: nat) returns (s: nat)
    requires i in g.cells
    ensures s <= i && Leader(g, s) && Connected(g, s, i)
  {
    ConnectedRefl(g, i);
    if Leader(g, i) {
      s := i;
    } else {
      var j: nat :| j < i && Connected(g, j, i);
      var p :| Links(g, p, j, i);
      assert p[0] in g.cells;
      s := LeaderOf(g, j);
      ConnectedTrans(g, s, j, i);
    }
  }

  ghost predicate InOneOf(g: Graph, ls: seq<nat>, i: nat) {
    exists k :: 0 <= k < |ls| && i in Region(g, ls[k])
  }

  /** The regions of `ls` partition the live cells into maximal connected sets: every live cell
      lies in one of them and nothing else does, distinct entries have disjoint regions, any two
      cells of a region are connected, and no edge leaves one. */
  ghost predicate Partitions(g: Graph, ls: seq<nat>) {
    && (forall i: nat :: i in g.cells <==> InOneOf(g, ls, i))
    && (forall k, l :: 0 <= k < l < |ls| ==> Region(g, ls[k]) !! Region(g, ls[l]))
    && (forall k, i, j :: 0 <= k < |ls| && i in Region(g, ls[k]) && j in Region(g, ls[k]) ==> Connected(g, i, j))
    && (forall k :: 0 <= k < |ls| ==> Closed(g, Region(g, ls[k])))
  }

  lemma RegionsPartition(g: Graph, n: nat)
    requires Symmetric(g) && forall i :: i in g.cells ==> i < n
    ensures Partitions(g, Leaders(g, n))
  {
    var ls := Leaders(g, n);
    LeadersExact(g, n);
    forall i: nat | i in g.cells
      ensures InOneOf(g, ls, i)
    {
      var s := LeaderOf(g, i);
      assert s in ls;
      var k :| 0 <= k < |ls| && ls[k] == s;
      assert i in Region(g, ls[k]);
    }
    forall k, l | 0 <= k < l < |ls|
      ensures Region(g, ls[k]) !! Region(g, ls[l])
    {
      assert ls[l] in ls;
      forall i | i in Region(g, ls[k]) && i in Region(g, ls[l])
        ensures false
      {
        ConnectedSym(g, ls[l], i);
        ConnectedTrans(g, ls[k], i, ls[l]);
      }
    }
    forall k, i, j | 0 <= k < |ls| && i in Region(g, ls[k]) && j in Region(g, ls[k])
      ensures Connected(g, i, j)
    {
      ConnectedSym(g, ls[k], i);
      ConnectedTrans(g, i, ls[k], j);
    }
    forall k | 0 <= k < |ls|
      ensures Closed(g, Region(g, ls[k]))
    {
      RegionClosed(g, ls[k]);
    }
  }

  // ----- Steps of a search that visits the cells in ascending order -----

  /** The union of the regions led below `n`. */
  ghost function Covered(g: Graph, n: nat): set<nat> {
    if n == 0 then {}
    else Covered(g, n - 1) + if Leader(g, n - 1) then Region(g, n - 1) else {}
  }

  lemma {:induction false} CoveredClosed(g: Graph, n: nat)
    ensures Closed(g, Covered(g, n))
  {
    if n > 0 {
      CoveredClosed(g, n - 1);
      RegionClosed(g, n - 1);
    }
  }

  lemma {:induction false} CoveredLeader(g: Graph, n: nat, i: nat) returns (l: nat)
    requires i in Covered(g, n)
    ensures l < n && Leader(g, l) && i in Region(g, l)
  {
    if i in Covered(g, n - 1) {
      l := CoveredLeader(g, n - 1, i);
    } else {
      l := n - 1;
    }
  }

  lemma {:induction false} CoveredHoldsRegion(g: Graph, n: nat, l: nat)
    requires l < n && Leader(g, l)
    ensures Region(g, l) <= Covered(g, n)
  {
    if l < n - 1 {
      CoveredHoldsRegion(g, n - 1, l);
    }
  }

  /** A live cell not yet covered leads its region, and a covered one does not. */
  lemma UncoveredIsLeader(g: Graph, n: nat)
    requires n in g.cells
    ensures n !in Covered(g, n) <==> Leader(g, n)
  {
    if n in Covered(g, n) {
      var l := CoveredLeader(g, n, n);
    } else {
      var l := LeaderOf(g, n);
      if l < n {
        CoveredHoldsRegion(g, n, l);
      }
    }
  }
}
