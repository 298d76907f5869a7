/** The text detector's connected-component pass: an explicit-stack flood fill over a thresholded
    probability map.

    Connectivity and regions are those of `Regions`, over the graph of hot cells and shared edges;
    the methods are proved to return one exact summary per region. */
module FloodFill {
  import opened Regions

  /** Row-major probability map with its binarization threshold. */
  datatype Grid = Grid(prob: seq<real>, w: nat, h: nat, thresh: real) {
    ghost predicate Valid() {
      |prob| == w * h
    }

    predicate Hot(i: nat) {
      i < |prob| && prob[i] > thresh
    }

    function Col(i: nat): nat {
      if w == 0 then 0 else i % w
    }

    function Row(i: nat): nat {
      if w == 0 then 0 else i / w
    }
  }

  /** Bounding box, pixel count and summed probability of one component. */
  datatype Component = Component(x0: nat, y0: nat, x1: nat, y1: nat, count: nat, scoreSum: real)

  // ----- Geometry -----

  lemma MulMonotone(a: nat, b: nat, w: nat)
    requires a <= b
    ensures a * w <= b * w
  {
    assert b * w == a * w + (b - a) * w;
    MulNonNegative(b - a, w);
  }

  lemma MulNonNegative(a: nat, b: nat)
    ensures a * b >= 0
  {
  }

  /** A row past the end starts past the end. */
  lemma RowBound(q: nat, r: nat, w: nat, h: nat)
    requires r < w
    ensures q * w + r < w * h <==> q < h
  {
    if q < h {
      MulMonotone(q + 1, h, w);
      assert (q + 1) * w == q * w + w;
    } else {
      MulMonotone(h, q, w);
    }
  }

  /** Quotient and remainder are determined by where they lead back to. */
  lemma QuotientUnique(q: nat, r: nat, q': nat, r': nat, w: nat)
    requires r < w && r' < w && q * w + r == q' * w + r'
    ensures q == q' && r == r'
  {
    RowBound(q, r, w, q');
    RowBound(q', r', w, q);
  }

  lemma CellFacts(g: Grid, i: nat)
    requires g.Valid() && i < |g.prob|
    ensures g.w > 0 && g.Col(i) < g.w && g.Row(i) < g.h && i == g.Row(i) * g.w + g.Col(i)
  {
    RowBound(g.Row(i), g.Col(i), g.w, g.h);
  }

  lemma CellIndex(g: Grid, x: nat, y: nat)
    requires g.Valid() && x < g.w && y < g.h
    ensures y * g.w + x < |g.prob| && g.Col(y * g.w + x) == x && g.Row(y * g.w + x) == y
  {
    RowBound(y, x, g.w, g.h);
    var i := y * g.w + x;
    CellFacts(g, i);
    QuotientUnique(g.Row(i), g.Col(i), y, x, g.w);
  }

  /** Two cells share an edge. */
  ghost predicate Adjacent(g: Grid, i: nat, j: nat) {
    || (g.Row(i) == g.Row(j) && (g.Col(i) == g.Col(j) + 1 || g.Col(j) == g.Col(i) + 1))
    || (g.Col(i) == g.Col(j) && (g.Row(i) == g.Row(j) + 1 || g.Row(j) == g.Row(i) + 1))
  }

  /** The candidates the fill looks at, in its order: left, right, up, down, borders dropped. */
  function Neighbours(g: Grid, i: nat): seq<nat> {
    var (x, y) := (g.Col(i), g.Row(i));
    (if x >= 1 then [y * g.w + (x - 1)] else []) +
    (if x + 1 < g.w then [y * g.w + x + 1] else []) +
    (if y >= 1 then [(y - 1) * g.w + x] else []) +
    (if y + 1 < g.h then [(y + 1) * g.w + x] else [])
  }

  /** The candidate list is exactly the set of in-range edge neighbours. */
  lemma NeighboursAreAdjacent(g: Grid, i: nat, j: nat)
    requires g.Valid() && i < |g.prob|
    ensures j in Neighbours(g, i) <==> j < |g.prob| && Adjacent(g, i, j)
  {
    CellFacts(g, i);
    if j < |g.prob| {
      CellFacts(g, j);
    }
    if j in Neighbours(g, i) {
      CandidateIsAdjacent(g, i, j);
    }
  }

  lemma CandidateIsAdjacent(g: Grid, i: nat, j: nat)
    requires g.Valid() && i < |g.prob| && j in Neighbours(g, i)
    ensures j < |g.prob| && Adjacent(g, i, j)
  {
    CellFacts(g, i);
    var (x, y) := (g.Col(i), g.Row(i));
    if x >= 1 { CellIndex(g, x - 1, y); }
    if x + 1 < g.w { CellIndex(g, x + 1, y); }
    if y >= 1 { CellIndex(g, x, y - 1); }
    if y + 1 < g.h { CellIndex(g, x, y + 1); }
  }

  /** The graph of hot cells and shared edges. */
  ghost function GraphOf(g: Grid): Graph {
    Graph(set i | 0 <= i < |g.prob| && g.Hot(i), (i: nat, j: nat) => Adjacent(g, i, j))
  }

  /** `G` is the graph of `g`, in a form that mentions geometry only where `Adjacent` is mentioned. */
  ghost predicate Represents(g: Grid, G: Graph) {
    && g.Valid() && Symmetric(G)
    && (forall i: nat :: i in G.cells <==> g.Hot(i))
    && (forall i: nat, j: nat {:trigger Adjacent(g, i, j)} :: G.edge(i, j) <==> Adjacent(g, i, j))
  }

  // ----- Region summaries -----

  /** Sum of the probabilities of the cells of `R` below `n`. */
  ghost function ScoreSum(prob: seq<real>, R: set<nat>, n: nat): real
    requires n <= |prob|
  {
    if n == 0 then 0.0
    else ScoreSum(prob, R, n - 1) + if n - 1 in R then prob[n - 1] else 0.0
  }

  lemma {:induction false} ScoreSumAdd(prob: seq<real>, R: set<nat>, i: nat, n: nat)
    requires n <= |prob| && i !in R
    ensures ScoreSum(prob, R + {i}, n) == ScoreSum(prob, R, n) + if i < n then prob[i] else 0.0
  {
    if n > 0 {
      ScoreSumAdd(prob, R, i, n - 1);
    }
  }

  lemma {:induction false} ScoreSumEmpty(prob: seq<real>, n: nat)
    requires n <= |prob|
    ensures ScoreSum(prob, {}, n) == 0.0
  {
    if n > 0 {
      ScoreSumEmpty(prob, n - 1);
    }
  }

  ghost predicate Encloses(g: Grid, c: Component, R: set<nat>) {
    forall i :: i in R ==> c.x0 <= g.Col(i) <= c.x1 && c.y0 <= g.Row(i) <= c.y1
  }

  /** Every side of the box is touched by a cell of `R`. */
  ghost predicate Touches(g: Grid, c: Component, R: set<nat>) {
    && (exists i :: i in R && g.Col(i) == c.x0)
    && (exists i :: i in R && g.Col(i) == c.x1)
    && (exists i :: i in R && g.Row(i) == c.y0)
    && (exists i :: i in R && g.Row(i) == c.y1)
  }

  /** `c` is the exact summary of `R`: count, score sum and tight bounding box. */
  ghost predicate Describes(g: Grid, c: Component, R: set<nat>) {
    && c.count == |R|
    && c.scoreSum == ScoreSum(g.prob, R, |g.prob|)
    && Encloses(g, c, R) && Touches(g, c, R)
  }

  /** `comps` lists the summaries of the regions led by `ls`. */
  ghost predicate Summaries(g: Grid, G: Graph, comps: seq<Component>, ls: seq<nat>) {
    && |comps| == |ls|
    && forall k :: 0 <= k < |comps| ==> Describes(g, comps[k], Region(G, ls[k]))
  }

  /** The per-pixel update of count, score sum and box. */
  function Grow(g: Grid, c: Component, i: nat): Component
    requires i < |g.prob|
  {
    var (x, y) := (g.Col(i), g.Row(i));
    Component(if x < c.x0 then x else c.x0, if y < c.y0 then y else c.y0,
              if x > c.x1 then x else c.x1, if y > c.y1 then y else c.y1,
              c.count + 1, c.scoreSum + g.prob[i])
  }

  /** Loop state of one fill's summary: exact over `R`, the box grown from the start cell. */
  ghost predicate Summarizes(g: Grid, c: Component, R: set<nat>, start: nat) {
    && c.count == |R| && c.scoreSum == ScoreSum(g.prob, R, |g.prob|)
    && Encloses(g, c, R) && Touches(g, c, R + {start})
  }

  lemma SummaryStarts(g: Grid, start: nat)
    ensures Summarizes(g, Component(g.Col(start), g.Row(start), g.Col(start), g.Row(start), 0, 0.0), {}, start)
  {
    ScoreSumEmpty(g.prob, |g.prob|);
    assert start in {} + {start};
  }

  lemma SummaryGrows(g: Grid, c: Component, R: set<nat>, i: nat, start: nat)
    requires i < |g.prob| && i !in R && Summarizes(g, c, R, start)
    ensures Summarizes(g, Grow(g, c, i), R + {i}, start)
  {
    ScoreSumAdd(g.prob, R, i, |g.prob|);
    TouchesGrows(g, c, R + {start}, i, R + {i} + {start});
    EnclosesGrows(g, c, R, i);
  }

  lemma EnclosesGrows(g: Grid, c: Component, R: set<nat>, i: nat)
    requires i < |g.prob| && Encloses(g, c, R)
    ensures Encloses(g, Grow(g, c, i), R + {i})
  {
  }

  lemma TouchesGrows(g: Grid, c: Component, R: set<nat>, i: nat, more: set<nat>)
    requires i < |g.prob| && Touches(g, c, R) && R <= more && i in more
    ensures Touches(g, Grow(g, c, i), more)
  {
    var r := Grow(g, c, i);
    var a :| a in R && g.Col(a) == c.x0;
    assert a in more && (r.x0 == g.Col(a) || r.x0 == g.Col(i));
    var b :| b in R && g.Col(b) == c.x1;
    assert b in more && (r.x1 == g.Col(b) || r.x1 == g.Col(i));
    var d :| d in R && g.Row(d) == c.y0;
    assert d in more && (r.y0 == g.Row(d) || r.y0 == g.Row(i));
    var e :| e in R && g.Row(e) == c.y1;
    assert e in more && (r.y1 == g.Row(e) || r.y1 == g.Row(i));
  }

  // ----- The algorithm -----

  ghost predicate Distinct(s: seq<nat>) {
    forall k, l :: 0 <= k < l < |s| ==> s[k] != s[l]
  }

  ghost function SetOf(s: seq<nat>): set<nat> {
    set i | i in s
  }

  /** The flags of `seen` are those of the set `S`. */
  ghost predicate Marks(seen: array<bool>, S: set<nat>)
    reads seen
  {
    forall i: nat :: i < seen.Length ==> (seen[i] <==> i in S)
  }

  /** Loop state of one fill: `R` popped, `stack` pending, `before` marked by earlier fills. */
  ghost predicate Filling(G: Graph, start: nat, before: set<nat>, R: set<nat>, stack: seq<nat>) {
    && Distinct(stack) && R !! SetOf(stack) && before !! (R + SetOf(stack))
    && start in R + SetOf(stack)
    && forall i :: i in R + SetOf(stack) ==> i in G.cells && Connected(G, start, i)
  }

  lemma PopKeepsFilling(G: Graph, start: nat, before: set<nat>, R: set<nat>, stack: seq<nat>)
    requires |stack| > 0 && Filling(G, start, before, R, stack)
    ensures var i, rest := stack[|stack| - 1], stack[..|stack| - 1];
            && Filling(G, start, before, R + {i}, rest) && i !in R && i in G.cells
            && R + SetOf(stack) == R + {i} + SetOf(rest)
  {
    var i, rest := stack[|stack| - 1], stack[..|stack| - 1];
    assert stack == rest + [i];
    assert i in SetOf(stack) && i !in SetOf(rest);
    assert SetOf(stack) == SetOf(rest) + {i};
    assert R + SetOf(stack) == R + {i} + SetOf(rest);
  }

  lemma PushKeepsFilling(G: Graph, start: nat, before: set<nat>, R: set<nat>, stack: seq<nat>, i: nat, n: nat)
    requires Filling(G, start, before, R, stack) && i in R
    requires n in G.cells && G.edge(i, n) && n !in before + R + SetOf(stack)
    ensures Filling(G, start, before, R, stack + [n]) && SetOf(stack + [n]) == SetOf(stack) + {n}
  {
    ConnectedStep(G, start, i, n);
    assert SetOf(stack + [n]) == SetOf(stack) + {n};
  }

  /** Push the unmarked hot neighbours of `i` (the inner `for`). */
  method PushNeighbours(g: Grid, seen: array<bool>, i: nat, stack0: seq<nat>,
                        ghost G: Graph, ghost start: nat, ghost before: set<nat>, ghost R: set<nat>)
    returns (stack: seq<nat>)
    requires Represents(g, G) && seen.Length == |g.prob|
    requires Filling(G, start, before, R, stack0) && i in R && Closed(G, before)
    requires Marks(seen, before + (R + SetOf(stack0)))
    modifies seen
    ensures Filling(G, start, before, R, stack) && Marks(seen, before + (R + SetOf(stack)))
    ensures SetOf(stack0) <= SetOf(stack) && Explored(G, {i}, R + SetOf(stack))
  {
    stack := stack0;
    var ns := Neighbours(g, i);
    for k := 0 to |ns|
      invariant Filling(G, start, before, R, stack) && Marks(seen, before + (R + SetOf(stack)))
      invariant SetOf(stack0) <= SetOf(stack)
      invariant forall l :: 0 <= l < k && ns[l] in G.cells ==> ns[l] in R + SetOf(stack)
    {
      var n := ns[k];
      NeighboursAreAdjacent(g, i, n);
      assert G.edge(i, n) && n !in before;
      if !seen[n] && g.prob[n] > g.thresh {
        PushKeepsFilling(G, start, before, R, stack, i, n);
        seen[n] := true;
        stack := stack + [n];
      }
    }
    forall j: nat | j in G.cells && G.edge(i, j)
      ensures j in R + SetOf(stack)
    {
      assert Adjacent(g, i, j);
      NeighboursAreAdjacent(g, i, j);
    }
  }

  ghost function Below(n: nat): (r: set<nat>)
    ensures forall i: nat :: i in r <==> i < n
  {
    if n == 0 then {} else Below(n - 1) + {n - 1}
  }

  /** One fill from an unmarked hot cell (the `while let Some(i) = stack.pop()` loop): marks the
      whole region and returns its summary. */
  method Fill(g: Grid, seen: array<bool>, start: nat, ghost G: Graph, ghost before: set<nat>) returns (c: Component)
    requires Represents(g, G) && seen.Length == |g.prob|
    requires g.Hot(start) && start !in before
    requires Marks(seen, before) && Closed(G, before)
    modifies seen
    ensures Marks(seen, before + Region(G, start))
    ensures Describes(g, c, Region(G, start))
  {
    var stack := [start];
    seen[start] := true;
    c := Component(g.Col(start), g.Row(start), g.Col(start), g.Row(start), 0, 0.0);
    ghost var R: set<nat> := {};
    FillStarts(g, G, start, before);
    while |stack| > 0
      invariant FillState(g, G, start, before, R, stack, c)
      invariant Marks(seen, before + (R + SetOf(stack)))
      decreases Below(|g.prob|) - R
    {
      var i := stack[|stack| - 1];
      FillPops(g, G, start, before, R, stack, c);
      ghost var marked := R + SetOf(stack);
      stack := stack[..|stack| - 1];
      c := Grow(g, c, i);
      stack := PushNeighbours(g, seen, i, stack, G, start, before, R + {i});
      ExploredGrows(G, R, i, marked, R + {i} + SetOf(stack));
      R := R + {i};
    }
    FillEnds(g, G, start, before, R, c);
  }

  lemma ExploredGrows(G: Graph, R: set<nat>, i: nat, marked: set<nat>, marked': set<nat>)
    requires Explored(G, R, marked) && Explored(G, {i}, marked') && marked <= marked'
    ensures Explored(G, R + {i}, marked')
  {
  }

  /** The state of one fill between two iterations. */
  ghost predicate FillState(g: Grid, G: Graph, start: nat, before: set<nat>, R: set<nat>, stack: seq<nat>, c: Component) {
    && Filling(G, start, before, R, stack) && R <= Below(|g.prob|)
    && Explored(G, R, R + SetOf(stack))
    && Summarizes(g, c, R, start)
  }

  lemma FillStarts(g: Grid, G: Graph, start: nat, before: set<nat>)
    requires start in G.cells && start !in before
    ensures SetOf([start]) == {start}
    ensures FillState(g, G, start, before, {}, [start], Component(g.Col(start), g.Row(start), g.Col(start), g.Row(start), 0, 0.0))
  {
    ConnectedRefl(G, start);
    SummaryStarts(g, start);
  }

  lemma FillPops(g: Grid, G: Graph, start: nat, before: set<nat>, R: set<nat>, stack: seq<nat>, c: Component)
    requires Represents(g, G) && |stack| > 0 && FillState(g, G, start, before, R, stack, c)
    ensures var i, rest := stack[|stack| - 1], stack[..|stack| - 1];
            && i !in R && i < |g.prob|
            && Filling(G, start, before, R + {i}, rest) && Summarizes(g, Grow(g, c, i), R + {i}, start)
            && R + SetOf(stack) == R + {i} + SetOf(rest)
  {
    PopKeepsFilling(G, start, before, R, stack);
    SummaryGrows(g, c, R, stack[|stack| - 1], start);
  }

  lemma FillEnds(g: Grid, G: Graph, start: nat, before: set<nat>, R: set<nat>, c: Component)
    requires FillState(g, G, start, before, R, [], c)
    ensures R + SetOf([]) == R == Region(G, start) && Describes(g, c, R)
  {
    assert R + SetOf([]) == R && R + {start} == R;
    RegionReached(G, start, R);
  }

  /** `prob_map_components`: one exact summary per region, in order of the regions' least cells. */
  method ProbMapComponents(g: Grid) returns (comps: seq<Component>)
    requires g.Valid()
    ensures Summaries(g, GraphOf(g), comps, Leaders(GraphOf(g), |g.prob|))
  {
    var seen := new bool[|g.prob|](_ => false);
    comps := [];
    ghost var G := GraphOf(g);
    for start := 0 to |g.prob|
      invariant Marks(seen, Covered(G, start))
      invariant Summaries(g, G, comps, Leaders(G, start))
    {
      if seen[start] || g.prob[start] <= g.thresh {
        if start in G.cells {
          UncoveredIsLeader(G, start);
        }
        continue;
      }
      UncoveredIsLeader(G, start);
      CoveredClosed(G, start);
      var c := Fill(g, seen, start, G, Covered(G, start));
      comps := comps + [c];
    }
  }

  /** What the regions summarized by `ProbMapComponents` are: a partition of exactly the hot cells
      into maximal sets connected by shared edges. */
  lemma ComponentsPartitionHotCells(g: Grid)
    requires g.Valid()
    ensures Represents(g, GraphOf(g)) && Partitions(GraphOf(g), Leaders(GraphOf(g), |g.prob|))
  {
    RegionsPartition(GraphOf(g), |g.prob|);
  }
}
