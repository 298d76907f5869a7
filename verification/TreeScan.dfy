/** Accessibility-tree scanning and search.

    The live desktop is a graph of accessibles: a reference resolves to a node or to nothing (a dead
    proxy), and nothing forbids cycles. A walk spends one shared node budget. The reference
    definition `FirstNodes` reads nodes off an explicit stack of pending references; it does not know
    about budgets, harvested trees or truncation. */
module TreeScan {
  import opened Detections
  import opened Prelude

  /** What a scan stores of one accessible; every query kind is a predicate over it. */
  datatype Attrs = Attrs(name: string, role: Option<string>, description: string, states: seq<string>, bounds: Option<Rect>,
                         busName: string, objectPath: string)

  type Ref = nat

  const NULL_REF: Ref := 0

  datatype LiveNode = LiveNode(attrs: Attrs, children: seq<Ref>)

  /** The references that answer and what each answers; a reference outside `live` is a dead proxy. */
  datatype Desktop = Desktop(live: set<Ref>, node: Ref -> LiveNode)

  datatype ScannedNode = ScannedNode(ref: Ref, attrs: Attrs, children: seq<ScannedNode>)

  /** `children_of`: null and dead references dropped, order kept. */
  function ChildrenOf(d: Desktop, x: Ref): seq<Ref> {
    Filter(d.node(x).children, r => r != NULL_REF && r in d.live)
  }

  /** Children are visited in the order they are listed: what is visited of a list is what is visited
      of its first part and then of its second. */
  lemma ChildrenInOrder(d: Desktop, d1: Desktop, d2: Desktop, x: Ref)
    requires d.live == d1.live == d2.live && d.node(x).children == d1.node(x).children + d2.node(x).children
    ensures ChildrenOf(d, x) == ChildrenOf(d1, x) + ChildrenOf(d2, x)
  {
    FilterConcat(d1.node(x).children, d2.node(x).children, r => r != NULL_REF && r in d.live);
  }

  /** A single listed child is visited exactly when it is live and not null. */
  lemma ChildVisitedIff(d: Desktop, x: Ref, c: Ref)
    requires d.node(x).children == [c]
    ensures ChildrenOf(d, x) == if c != NULL_REF && c in d.live then [c] else []
  {
    var p := (r: Ref) => r != NULL_REF && r in d.live;
    assert ChildrenOf(d, x) == Filter([c], p);
    assert [c][1..] == [] && Filter([c][1..], p) == [];
  }

  lemma {:induction false} FilterAll(s: seq<Ref>, p: Ref -> bool)
    requires forall r :: r in s ==> p(r)
    ensures Filter(s, p) == s
  {
    if |s| > 0 {
      FilterAll(s[1..], p);
      HeadTail(s);
    }
  }

  // ----- Reference definition: the live preorder -----

  /** The first `k` nodes of the depth-first preorder of the live graph below the pending
      references: visit the first, then its children, then the rest. */
  ghost function FirstNodes(d: Desktop, pending: seq<Ref>, k: nat): (r: seq<Ref>)
    ensures |r| <= k
    decreases k
  {
    if k == 0 || |pending| == 0 then []
    else [pending[0]] + FirstNodes(d, ChildrenOf(d, pending[0]) + pending[1..], k - 1)
  }

  /** Walking `xs` and then `ys` splits the budget: `ys` gets what `xs` left. */
  lemma {:induction false} FirstNodesConcat(d: Desktop, xs: seq<Ref>, ys: seq<Ref>, k: nat)
    ensures FirstNodes(d, xs + ys, k) == FirstNodes(d, xs, k) + FirstNodes(d, ys, k - |FirstNodes(d, xs, k)|)
    decreases k
  {
    if |xs| == 0 {
      assert xs + ys == ys;
    } else if k > 0 {
      var kids := ChildrenOf(d, xs[0]);
      FirstNodesConcat(d, kids + xs[1..], ys, k - 1);
      assert kids + (xs + ys)[1..] == kids + xs[1..] + ys;
    }
  }

  /** A node over live leaves is walked as itself and then its children as listed. */
  lemma LeavesInOrder(d: Desktop, x: Ref, k: nat)
    requires forall c :: c in d.node(x).children ==> c != NULL_REF && c in d.live && d.node(c).children == []
    ensures FirstNodes(d, [x], k) == Take([x] + d.node(x).children, k)
  {
    var kids := d.node(x).children;
    if k > 0 {
      LiveChildrenVisited(d, x);
      assert AreLeaves(d, kids);
      LeafNodes(d, kids, k - 1);
      RootFirst(d, x, k);
      assert ([x] + kids)[1..] == kids;
      TakeCons([x] + kids, k);
    }
  }

  /** Live children are visited as listed. */
  lemma LiveChildrenVisited(d: Desktop, x: Ref)
    requires forall c :: c in d.node(x).children ==> c != NULL_REF && c in d.live
    ensures ChildrenOf(d, x) == d.node(x).children
  {
    var p := (r: Ref) => r != NULL_REF && r in d.live;
    FilterAll(d.node(x).children, p);
    assert ChildrenOf(d, x) == Filter(d.node(x).children, p);
  }

  lemma RootFirst(d: Desktop, x: Ref, k: nat)
    requires k > 0
    ensures FirstNodes(d, [x], k) == [x] + FirstNodes(d, ChildrenOf(d, x), k - 1)
  {
    assert [x][1..] == [] && ChildrenOf(d, x) + [] == ChildrenOf(d, x);
  }

  lemma TakeCons(s: seq<Ref>, k: nat)
    requires k > 0 && |s| > 0
    ensures Take(s, k) == [s[0]] + Take(s[1..], k - 1)
  {
  }

  lemma LeafFirst(d: Desktop, leaves: seq<Ref>, k: nat)
    requires k > 0 && |leaves| > 0 && d.node(leaves[0]).children == []
    ensures FirstNodes(d, leaves, k) == [leaves[0]] + FirstNodes(d, leaves[1..], k - 1)
  {
    assert ChildrenOf(d, leaves[0]) == [];
    assert [] + leaves[1..] == leaves[1..];
  }

  ghost predicate AreLeaves(d: Desktop, refs: seq<Ref>) {
    forall c :: c in refs ==> d.node(c).children == []
  }

  lemma {:induction false} LeafNodes(d: Desktop, leaves: seq<Ref>, k: nat)
    requires AreLeaves(d, leaves)
    ensures FirstNodes(d, leaves, k) == Take(leaves, k)
    decreases k
  {
    if k == 0 || |leaves| == 0 {
      assert FirstNodes(d, leaves, k) == [] == Take(leaves, k);
    } else {
      var rest := leaves[1..];
      assert AreLeaves(d, rest) && d.node(leaves[0]).children == [];
      LeafFirst(d, leaves, k);
      LeafNodes(d, rest, k - 1);
      TakeCons(leaves, k);
    }
  }

  /** A smaller budget yields a prefix. */
  lemma {:induction false} FirstNodesPrefix(d: Desktop, pending: seq<Ref>, k: nat, l: nat)
    requires k <= l
    ensures FirstNodes(d, pending, k) == Take(FirstNodes(d, pending, l), k)
    decreases k
  {
    if k > 0 && |pending| > 0 {
      FirstNodesPrefix(d, ChildrenOf(d, pending[0]) + pending[1..], k - 1, l - 1);
    }
  }

  /** Only live nodes are visited, and no null reference unless one was pending. */
  lemma {:induction false} FirstNodesLive(d: Desktop, pending: seq<Ref>, k: nat)
    requires forall x :: x in pending ==> x in d.live
    ensures forall x :: x in FirstNodes(d, pending, k) ==> x in d.live
    ensures NULL_REF !in pending ==> NULL_REF !in FirstNodes(d, pending, k)
    decreases k
  {
    if k > 0 && |pending| > 0 {
      FilterIn(d.node(pending[0]).children, r => r != NULL_REF && r in d.live);
      FirstNodesLive(d, ChildrenOf(d, pending[0]) + pending[1..], k - 1);
    }
  }

  // ----- Harvested trees -----

  /** The nodes of a harvested forest in preorder. */
  ghost function Preorder(forest: seq<ScannedNode>): seq<ScannedNode> {
    if |forest| == 0 then []
    else [forest[0]] + Preorder(forest[0].children) + Preorder(forest[1..])
  }

  ghost function Refs(forest: seq<ScannedNode>): seq<Ref> {
    MapSeq(Preorder(forest), (n: ScannedNode) => n.ref)
  }

  lemma {:induction false} PreorderConcat(a: seq<ScannedNode>, b: seq<ScannedNode>)
    ensures Preorder(a + b) == Preorder(a) + Preorder(b)
    ensures Refs(a + b) == Refs(a) + Refs(b)
  {
    if |a| == 0 {
      assert a + b == b;
    } else {
      assert (a + b)[1..] == a[1..] + b;
      PreorderConcat(a[1..], b);
      ConcatAssoc([a[0]] + Preorder(a[0].children), Preorder(a[1..]), Preorder(b));
    }
  }

  lemma RefsOne(n: ScannedNode)
    ensures Refs([n]) == [n.ref] + Refs(n.children)
    ensures Preorder([n]) == [n] + Preorder(n.children)
  {
    assert [n][1..] == [];
    assert Preorder([]) == [];
  }

  /** Every harvested node is a live node with the live attributes, its children harvested from a
      prefix of the live children. */
  ghost predicate Mirrors(d: Desktop, forest: seq<ScannedNode>) {
    forall n :: n in forest ==> MirrorsNode(d, n)
  }

  ghost predicate MirrorsNode(d: Desktop, n: ScannedNode) {
    && n.attrs == d.node(n.ref).attrs
    && TopRefs(n.children) <= ChildrenOf(d, n.ref)
    && forall c :: c in n.children ==> MirrorsNode(d, c)
  }

  ghost function TopRefs(forest: seq<ScannedNode>): seq<Ref> {
    MapSeq(forest, (n: ScannedNode) => n.ref)
  }

  // ----- The walk -----

  /** The traversal budget shared by every recursive walk. */
  class Budget {
    var visited: nat
    const limit: nat
    var truncated: bool

    ghost predicate Valid()
      reads this
    {
      visited <= limit
    }

    ghost function Left(): nat
      reads this
      requires Valid()
    {
      limit - visited
    }

    constructor (limit: nat)
      ensures Valid() && Left() == limit && !truncated && this.limit == limit
    {
      this.limit := limit;
      visited, truncated := 0, false;
    }

    /** Account for one more node; false, and truncation noted, once the limit is reached. */
    method Take() returns (ok: bool)
      requires Valid()
      modifies this
      ensures Valid() && ok == (old(Left()) > 0)
      ensures visited == old(visited) + if ok then 1 else 0
      ensures truncated == (old(truncated) || !ok)
    {
      if visited >= limit {
        truncated := true;
        return false;
      }
      visited := visited + 1;
      return true;
    }
  }

  /** `scan_node`: harvest the subtree of `x` under the shared budget. The measure is the budget
      left, so the walk ends on cyclic graphs too. */
  method ScanNode(d: Desktop, x: Ref, budget: Budget) returns (r: Option<ScannedNode>)
    requires budget.Valid()
    modifies budget
    decreases budget.Left(), 0
    ensures budget.Valid() && (r.None? <==> old(budget.Left()) == 0)
    ensures r.Some? ==> r.value.ref == x && Harvested(d, [x], old(budget.Left()), [r.value])
    ensures r.Some? ==> budget.visited == old(budget.visited) + |Refs([r.value])|
    ensures r.Some? ==> budget.truncated == old(budget.truncated)
  {
    ghost var k := budget.Left();
    var ok := budget.Take();
    if !ok {
      return None;
    }
    var children := ScanChildren(d, ChildrenOf(d, x), budget);
    HarvestRoot(d, x, k, children);
    return Some(ScannedNode(x, d.node(x).attrs, children));
  }

  /** The sibling loop of `scan_node`. */
  method ScanChildren(d: Desktop, kids: seq<Ref>, budget: Budget) returns (children: seq<ScannedNode>)
    requires budget.Valid()
    modifies budget
    decreases budget.Left(), 1
    ensures budget.Valid() && budget.truncated == old(budget.truncated)
    ensures Harvested(d, kids, old(budget.Left()), children)
    ensures budget.visited == old(budget.visited) + |Refs(children)|
  {
    ghost var k := budget.Left();
    children := [];
    for i := 0 to |kids|
      invariant budget.Valid() && budget.truncated == old(budget.truncated)
      invariant HarvestedSome(d, kids, i, k, children)
      invariant budget.Left() == k - |Refs(children)|
    {
      if budget.visited >= budget.limit {
        SomeSpent(d, kids, i, k, children);
        return;
      }
      var child := ScanNode(d, kids[i], budget);
      if child.None? {
        return;
      }
      SomeGrows(d, kids, i, k, children, child.value);
      children := children + [child.value];
    }
    SomeAll(d, kids, k, children);
  }

  /** `forest` is the harvest of `refs` under a budget of `k`: the first `k` nodes of their preorder. */
  ghost predicate Harvested(d: Desktop, refs: seq<Ref>, k: nat, forest: seq<ScannedNode>) {
    Mirrors(d, forest) && TopRefs(forest) <= refs && Refs(forest) == FirstNodes(d, refs, k)
  }

  /** Once the budget is spent, further siblings add nothing. */
  lemma HarvestSpent(d: Desktop, refs: seq<Ref>, more: seq<Ref>, k: nat, forest: seq<ScannedNode>)
    requires Harvested(d, refs, k, forest) && |Refs(forest)| == k
    ensures Harvested(d, refs + more, k, forest)
  {
    FirstNodesConcat(d, refs, more, k);
  }

  /** One more sibling appends the harvest of its subtree under what is left. */
  lemma HarvestGrows(d: Desktop, refs: seq<Ref>, k: nat, forest: seq<ScannedNode>, n: ScannedNode)
    requires |forest| == |refs| && Harvested(d, refs, k, forest)
    requires Harvested(d, [n.ref], k - |Refs(forest)|, [n])
    ensures Harvested(d, refs + [n.ref], k, forest + [n])
    ensures |Refs(forest + [n])| == |Refs(forest)| + |Refs([n])|
  {
    FirstNodesConcat(d, refs, [n.ref], k);
    PreorderConcat(forest, [n]);
    assert n in [n];
    assert TopRefs(forest + [n]) == TopRefs(forest) + [n.ref];
  }

  /** Loop state: the harvest of the first `i` of `refs`, one node each. */
  ghost predicate HarvestedSome(d: Desktop, refs: seq<Ref>, i: nat, k: nat, forest: seq<ScannedNode>) {
    i <= |refs| && |forest| == i && Harvested(d, refs[..i], k, forest)
  }

  lemma SomeSpent(d: Desktop, refs: seq<Ref>, i: nat, k: nat, forest: seq<ScannedNode>)
    requires HarvestedSome(d, refs, i, k, forest) && |Refs(forest)| == k
    ensures Harvested(d, refs, k, forest)
  {
    HarvestSpent(d, refs[..i], refs[i..], k, forest);
    SplitAt(refs, i);
  }

  lemma SomeGrows(d: Desktop, refs: seq<Ref>, i: nat, k: nat, forest: seq<ScannedNode>, n: ScannedNode)
    requires i < |refs| && HarvestedSome(d, refs, i, k, forest) && n.ref == refs[i]
    requires Harvested(d, [n.ref], k - |Refs(forest)|, [n])
    ensures HarvestedSome(d, refs, i + 1, k, forest + [n])
    ensures |Refs(forest + [n])| == |Refs(forest)| + |Refs([n])|
  {
    HarvestGrows(d, refs[..i], k, forest, n);
    assert refs[..i] + [refs[i]] == refs[..i + 1];
  }

  lemma SomeAll(d: Desktop, refs: seq<Ref>, k: nat, forest: seq<ScannedNode>)
    requires HarvestedSome(d, refs, |refs|, k, forest)
    ensures Harvested(d, refs, k, forest)
  {
    assert refs[..|refs|] == refs;
  }

  lemma HarvestRoot(d: Desktop, x: Ref, k: nat, children: seq<ScannedNode>)
    requires k > 0 && Harvested(d, ChildrenOf(d, x), k - 1, children)
    ensures Harvested(d, [x], k, [ScannedNode(x, d.node(x).attrs, children)])
    ensures |Refs([ScannedNode(x, d.node(x).attrs, children)])| == 1 + |Refs(children)|
  {
    RefsOne(ScannedNode(x, d.node(x).attrs, children));
    assert ChildrenOf(d, x) + [x][1..] == ChildrenOf(d, x);
  }

  /** The application references that answer, in order (null ones were dropped on listing). */
  ghost function Answering(d: Desktop, apps: seq<Ref>): seq<Ref> {
    Filter(apps, x => x in d.live)
  }

  /** `scan_fresh`: every answering application in search order under one budget. */
  method ScanForest(d: Desktop, apps: seq<Ref>, limit: nat) returns (forest: seq<ScannedNode>)
    ensures Harvested(d, Answering(d, apps), limit, forest)
  {
    var budget := new Budget(limit);
    forest := [];
    for i := 0 to |apps|
      invariant budget.Valid() && budget.limit == limit && fresh(budget)
      invariant Harvested(d, Answering(d, apps[..i]), limit, forest) && |forest| == |Answering(d, apps[..i])|
      invariant budget.Left() == limit - |Refs(forest)|
    {
      AnsweringSplit(d, apps, i);
      if apps[i] !in d.live {
        continue;
      }
      var node := ScanNode(d, apps[i], budget);
      if node.None? {
        HarvestSpent(d, Answering(d, apps[..i]), Answering(d, apps[i..]), limit, forest);
        return;
      }
      HarvestGrows(d, Answering(d, apps[..i]), limit, forest, node.value);
      forest := forest + [node.value];
      if budget.visited >= budget.limit {
        HarvestSpent(d, Answering(d, apps[..i + 1]), Answering(d, apps[i + 1..]), limit, forest);
        return;
      }
    }
    assert apps[..|apps|] == apps;
  }

  lemma AnsweringSplit(d: Desktop, apps: seq<Ref>, i: nat)
    requires i < |apps|
    ensures apps[i] in d.live ==> Answering(d, apps[..i + 1]) == Answering(d, apps[..i]) + [apps[i]]
    ensures apps[i] !in d.live ==> Answering(d, apps[..i + 1]) == Answering(d, apps[..i])
    ensures Answering(d, apps) == Answering(d, apps[..i]) + Answering(d, apps[i..])
    ensures Answering(d, apps) == Answering(d, apps[..i + 1]) + Answering(d, apps[i + 1..])
  {
    var p := (x: Ref) => x in d.live;
    assert apps[..i + 1] == apps[..i] + [apps[i]];
    FilterConcat(apps[..i], [apps[i]], p);
    assert apps[..i] + apps[i..] == apps && apps[..i + 1] + apps[i + 1..] == apps;
    FilterConcat(apps[..i], apps[i..], p);
    FilterConcat(apps[..i + 1], apps[i + 1..], p);
  }
}
