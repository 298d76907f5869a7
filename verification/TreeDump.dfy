/** The depth-limited tree dump: a recursive serializer under a node cap, with a truncation flag on
    every node. */
module TreeDump {
  import opened Prelude
  import opened TreeScan

  /** Hard cap on the nodes of one dump. */
  const MAX_TREE_NODES: nat := 5000

  datatype DumpNode = DumpNode(ref: Ref, attrs: Attrs, children: seq<DumpNode>, truncated: bool)

  /** The references a dump looks at below `x`: a null reference ends the sibling list. */
  function Listed(refs: seq<Ref>): seq<Ref> {
    if |refs| == 0 || refs[0] == NULL_REF then [] else [refs[0]] + Listed(refs[1..])
  }

  /** The listed references are those before the first null one, in order. */
  lemma {:induction false} ListedExact(refs: seq<Ref>)
    ensures Listed(refs) <= refs && NULL_REF !in Listed(refs)
    ensures |Listed(refs)| < |refs| ==> refs[|Listed(refs)|] == NULL_REF
  {
    if |refs| > 0 && refs[0] != NULL_REF {
      ListedExact(refs[1..]);
    }
  }

  // ----- Reference definition: the depth-pruned preorder -----

  /** Every entry the dump would reach without a cap, in preorder, dead references included. */
  ghost function Order(d: Desktop, refs: seq<Ref>, depth: nat): seq<Ref>
    decreases depth, |refs|
  {
    if |refs| == 0 then []
    else Below(d, refs[0], depth) + Order(d, refs[1..], depth)
  }

  ghost function Below(d: Desktop, x: Ref, depth: nat): seq<Ref>
    decreases depth, 0
  {
    [x] + if x in d.live && depth > 0 then Order(d, Listed(d.node(x).children), depth - 1) else []
  }

  /** The entries reached before `k` live ones have been spent: nothing after the k-th live entry. */
  ghost function Cut(d: Desktop, entries: seq<Ref>, k: nat): seq<Ref> {
    if |entries| == 0 || k == 0 then []
    else [entries[0]] + Cut(d, entries[1..], if entries[0] in d.live then k - 1 else k)
  }

  ghost function Live(d: Desktop, entries: seq<Ref>): seq<Ref> {
    Filter(entries, r => r in d.live)
  }

  /** A cap of `k` cuts something off the pruned subtree of `x`. */
  ghost predicate Loses(d: Desktop, x: Ref, depth: nat, k: nat) {
    Cut(d, Below(d, x, depth), k) != Below(d, x, depth)
  }

  /** A cap of `k` cuts something off the pruned preorder of `refs`. */
  ghost predicate Cuts(d: Desktop, refs: seq<Ref>, depth: nat, k: nat) {
    Cut(d, Order(d, refs, depth), k) != Order(d, refs, depth)
  }

  /** `y` is listed at most `depth` levels below `x`, every node on the way but the last alive. */
  ghost predicate Reaches(d: Desktop, x: Ref, y: Ref, depth: nat)
    decreases depth
  {
    x == y || (depth > 0 && x in d.live && exists c :: c in Listed(d.node(x).children) && Reaches(d, c, y, depth - 1))
  }

  /** The pruned preorder of a node holds exactly the references at most `depth` levels below it. */
  lemma {:induction false} BelowReaches(d: Desktop, x: Ref, depth: nat, y: Ref)
    ensures y in Below(d, x, depth) <==> Reaches(d, x, y, depth)
    decreases depth, 0
  {
    if x in d.live && depth > 0 {
      OrderReaches(d, Listed(d.node(x).children), depth - 1, y);
    }
  }

  lemma {:induction false} OrderReaches(d: Desktop, refs: seq<Ref>, depth: nat, y: Ref)
    ensures y in Order(d, refs, depth) <==> exists c :: c in refs && Reaches(d, c, y, depth)
    decreases depth, |refs|
  {
    if |refs| > 0 {
      BelowReaches(d, refs[0], depth, y);
      OrderReaches(d, refs[1..], depth, y);
      HeadTail(refs);
    }
  }

  lemma {:induction false} OrderConcat(d: Desktop, a: seq<Ref>, b: seq<Ref>, depth: nat)
    ensures Order(d, a + b, depth) == Order(d, a, depth) + Order(d, b, depth)
  {
    if |a| == 0 {
      assert a + b == b;
    } else {
      assert (a + b)[1..] == a[1..] + b;
      OrderConcat(d, a[1..], b, depth);
    }
  }

  lemma {:induction false} CutFacts(d: Desktop, s: seq<Ref>, k: nat)
    ensures |Live(d, Cut(d, s, k))| <= k && Cut(d, s, k) <= s
    ensures Cut(d, s, k) != s ==> |Live(d, Cut(d, s, k))| == k
  {
    if |s| > 0 && k > 0 {
      var k' := if s[0] in d.live then k - 1 else k;
      CutFacts(d, s[1..], k');
      assert Cut(d, s, k)[1..] == Cut(d, s[1..], k');
    }
  }

  lemma {:induction false} CutConcat(d: Desktop, s: seq<Ref>, t: seq<Ref>, k: nat)
    ensures |Live(d, Cut(d, s, k))| <= k
    ensures Cut(d, s + t, k) == Cut(d, s, k) + Cut(d, t, k - |Live(d, Cut(d, s, k))|)
  {
    CutFacts(d, s, k);
    if |s| == 0 {
      assert s + t == t;
    } else if k > 0 {
      var k' := if s[0] in d.live then k - 1 else k;
      CutConcat(d, s[1..], t, k');
      assert (s + t)[1..] == s[1..] + t;
      assert Cut(d, s, k)[1..] == Cut(d, s[1..], k');
    }
  }

  // ----- The dump a cap allows -----

  ghost function Nodes(forest: seq<DumpNode>): seq<Ref> {
    if |forest| == 0 then []
    else [forest[0].ref] + Nodes(forest[0].children) + Nodes(forest[1..])
  }

  lemma {:induction false} NodesConcat(a: seq<DumpNode>, b: seq<DumpNode>)
    ensures Nodes(a + b) == Nodes(a) + Nodes(b)
  {
    if |a| == 0 {
      assert a + b == b;
    } else {
      assert (a + b)[1..] == a[1..] + b;
      NodesConcat(a[1..], b);
    }
  }

  /** `forest` is the dump of `refs` under a cap of `k`: its preorder is the live part of the cut
      pruned preorder, and below it every node's flag is exact. */
  ghost predicate DumpOf(d: Desktop, refs: seq<Ref>, depth: nat, k: nat, forest: seq<DumpNode>) {
    && Nodes(forest) == Live(d, Cut(d, Order(d, refs, depth), k))
    && FlagsExact(d, refs, depth, k, forest)
  }

  /** Sibling by sibling, each live reference reached within the cap has its node, with its
      live attributes, whose flag says whether the cap left at that node cuts off part of the node's own pruned subtree. */
  ghost predicate FlagsExact(d: Desktop, refs: seq<Ref>, depth: nat, k: nat, forest: seq<DumpNode>)
    decreases forest, |refs|
  {
    if |refs| == 0 || k == 0 then forest == []
    else if refs[0] !in d.live then FlagsExact(d, refs[1..], depth, k, forest)
    else
      && |forest| > 0 && forest[0].ref == refs[0] && forest[0].attrs == d.node(refs[0]).attrs
      && forest[0].truncated == Loses(d, refs[0], depth, k)
      && FlagsExact(d, if depth > 0 then Listed(d.node(refs[0]).children) else [], if depth > 0 then depth - 1 else 0, k - 1, forest[0].children)
      && |Nodes([forest[0]])| <= k
      && FlagsExact(d, refs[1..], depth, k - |Nodes([forest[0]])|, forest[1..])
  }

  /** Appending the dump of a further reference under what is left. */
  lemma {:induction false} FlagsConcat(d: Desktop, a: seq<Ref>, b: seq<Ref>, depth: nat, k: nat, f: seq<DumpNode>, h: seq<DumpNode>)
    requires FlagsExact(d, a, depth, k, f) && |Nodes(f)| <= k
    requires FlagsExact(d, b, depth, k - |Nodes(f)|, h)
    ensures FlagsExact(d, a + b, depth, k, f + h)
    decreases |a|
  {
    if |a| == 0 {
      assert a + b == b && f + h == h;
    } else if k == 0 {
      assert f + h == [];
    } else {
      assert (a + b)[1..] == a[1..] + b;
      if a[0] !in d.live {
        FlagsConcat(d, a[1..], b, depth, k, f, h);
      } else {
        assert f == [f[0]] + f[1..];
        NodesConcat([f[0]], f[1..]);
        FlagsConcat(d, a[1..], b, depth, k - |Nodes([f[0]])|, f[1..], h);
        assert (f + h)[1..] == f[1..] + h;
      }
    }
  }

  lemma DumpGrows(d: Desktop, a: seq<Ref>, b: seq<Ref>, depth: nat, k: nat, f: seq<DumpNode>, h: seq<DumpNode>)
    requires DumpOf(d, a, depth, k, f) && |Nodes(f)| <= k && DumpOf(d, b, depth, k - |Nodes(f)|, h)
    ensures DumpOf(d, a + b, depth, k, f + h)
    ensures Nodes(f + h) == Nodes(f) + Nodes(h)
    ensures Cuts(d, a + b, depth, k) <==> Cuts(d, a, depth, k) || Cuts(d, b, depth, k - |Nodes(f)|)
  {
    var (s, t) := (Order(d, a, depth), Order(d, b, depth));
    OrderConcat(d, a, b, depth);
    CutConcat(d, s, t, k);
    CutFacts(d, s, k);
    CutFacts(d, t, k - |Nodes(f)|);
    FilterConcat(Cut(d, s, k), Cut(d, t, k - |Nodes(f)|), r => r in d.live);
    NodesConcat(f, h);
    FlagsConcat(d, a, b, depth, k, f, h);
  }

  // ----- The walk -----

  /** `build_node`: dump `x` with `depth` levels of children under the shared budget. */
  method BuildNode(d: Desktop, x: Ref, depth: nat, budget: Budget) returns (r: Option<DumpNode>)
    requires x in d.live && budget.Valid() && (budget.truncated ==> budget.Left() == 0)
    modifies budget
    decreases depth, 0
    ensures budget.Valid() && (budget.truncated ==> budget.Left() == 0)
    ensures r.None? <==> old(budget.Left()) == 0
    ensures r.None? ==> budget.truncated && budget.visited == old(budget.visited)
    ensures r.Some? ==> DumpOf(d, [x], depth, old(budget.Left()), [r.value])
    ensures r.Some? ==> budget.visited == old(budget.visited) + |Nodes([r.value])|
    ensures r.Some? ==> budget.truncated == Loses(d, x, depth, old(budget.Left()))
  {
    ghost var k := budget.Left();
    var ok := budget.Take();
    if !ok {
      return None;
    }
    var children: seq<DumpNode> := [];
    if depth > 0 {
      children := BuildChildren(d, Listed(d.node(x).children), depth - 1, budget);
    }
    DumpRoot(d, x, depth, k, children, budget.truncated);
    return Some(DumpNode(x, d.node(x).attrs, children, budget.truncated));
  }

  /** The sibling loop of `build_node`. */
  method BuildChildren(d: Desktop, refs: seq<Ref>, depth: nat, budget: Budget) returns (children: seq<DumpNode>)
    requires budget.Valid() && !budget.truncated
    modifies budget
    decreases depth, 1
    ensures budget.Valid() && (budget.truncated ==> budget.Left() == 0)
    ensures DumpOf(d, refs, depth, old(budget.Left()), children)
    ensures budget.visited == old(budget.visited) + |Nodes(children)|
    ensures budget.truncated == Cuts(d, refs, depth, old(budget.Left()))
  {
    ghost var k := budget.Left();
    children := [];
    for i := 0 to |refs|
      invariant budget.Valid() && (budget.truncated ==> budget.Left() == 0)
      invariant budget.Left() == k - |Nodes(children)|
      invariant DumpOf(d, refs[..i], depth, k, children)
      invariant budget.truncated == Cuts(d, refs[..i], depth, k)
    {
      assert refs[..i + 1] == refs[..i] + [refs[i]];
      if budget.visited >= budget.limit {
        DumpSpent(d, refs[..i], refs[i..], depth, k, children);
        assert refs[..i] + refs[i..] == refs;
        budget.truncated := true;
        return;
      }
      if refs[i] !in d.live {
        DumpDead(d, refs[..i], refs[i], depth, k, children);
        continue;
      }
      var n := BuildNode(d, refs[i], depth, budget);
      if n.None? {
        return;
      }
      DumpLive(d, refs[..i], refs[i], depth, k, children, n.value);
      children := children + [n.value];
    }
    assert refs[..|refs|] == refs;
  }

  lemma OneRef(d: Desktop, x: Ref, depth: nat)
    ensures Order(d, [x], depth) == Below(d, x, depth)
  {
    assert [x][1..] == [];
    assert Order(d, [], depth) == [];
  }

  /** Once the budget is spent, the remaining references are cut off. */
  lemma DumpSpent(d: Desktop, a: seq<Ref>, b: seq<Ref>, depth: nat, k: nat, f: seq<DumpNode>)
    requires DumpOf(d, a, depth, k, f) && |Nodes(f)| == k && |b| > 0
    ensures DumpOf(d, a + b, depth, k, f) && Cuts(d, a + b, depth, k)
  {
    assert f + [] == f;
    assert |Order(d, b, depth)| > 0;
    DumpGrows(d, a, b, depth, k, f, []);
  }

  /** A dead reference reached with budget left costs nothing. */
  lemma DumpDead(d: Desktop, a: seq<Ref>, x: Ref, depth: nat, k: nat, f: seq<DumpNode>)
    requires DumpOf(d, a, depth, k, f) && |Nodes(f)| < k && x !in d.live
    ensures DumpOf(d, a + [x], depth, k, f)
    ensures Cuts(d, a + [x], depth, k) == Cuts(d, a, depth, k)
  {
    assert f + [] == f && [x][1..] == [];
    OneRef(d, x, depth);
    assert Cut(d, [], k - |Nodes(f)|) == [];
    assert Cut(d, [x], k - |Nodes(f)|) == [x];
    LiveCons(d, x, []);
    assert [x] + [] == [x];
    DumpGrows(d, a, [x], depth, k, f, []);
  }

  lemma DumpLive(d: Desktop, a: seq<Ref>, x: Ref, depth: nat, k: nat, f: seq<DumpNode>, n: DumpNode)
    requires DumpOf(d, a, depth, k, f) && |Nodes(f)| <= k && !Cuts(d, a, depth, k)
    requires DumpOf(d, [x], depth, k - |Nodes(f)|, [n])
    ensures DumpOf(d, a + [x], depth, k, f + [n])
    ensures |Nodes(f + [n])| == |Nodes(f)| + |Nodes([n])|
    ensures Cuts(d, a + [x], depth, k) == Loses(d, x, depth, k - |Nodes(f)|)
  {
    OneRef(d, x, depth);
    DumpGrows(d, a, [x], depth, k, f, [n]);
  }

  lemma LiveCons(d: Desktop, x: Ref, s: seq<Ref>)
    ensures Live(d, [x] + s) == (if x in d.live then [x] else []) + Live(d, s)
  {
    assert ([x] + s)[1..] == s;
  }

  lemma DumpRoot(d: Desktop, x: Ref, depth: nat, k: nat, children: seq<DumpNode>, flag: bool)
    requires x in d.live && k > 0
    requires depth == 0 ==> children == [] && !flag
    requires depth > 0 ==> DumpOf(d, Listed(d.node(x).children), depth - 1, k - 1, children)
    requires depth > 0 ==> flag == Cuts(d, Listed(d.node(x).children), depth - 1, k - 1)
    requires |Nodes(children)| < k
    ensures DumpOf(d, [x], depth, k, [DumpNode(x, d.node(x).attrs, children, flag)])
    ensures |Nodes([DumpNode(x, d.node(x).attrs, children, flag)])| == 1 + |Nodes(children)|
    ensures flag == Loses(d, x, depth, k)
  {
    var n := DumpNode(x, d.node(x).attrs, children, flag);
    OneRef(d, x, depth);
    var rest := if depth > 0 then Order(d, Listed(d.node(x).children), depth - 1) else [];
    assert Below(d, x, depth) == [x] + rest && ([x] + rest)[1..] == rest;
    assert Cut(d, [x] + rest, k) == [x] + Cut(d, rest, k - 1);
    LiveCons(d, x, Cut(d, rest, k - 1));
    assert [n][1..] == [] && Nodes([]) == [] && [x][1..] == [];
    assert Nodes([n]) == [x] + Nodes(children);
    assert FlagsExact(d, [], depth, k - |Nodes([n])|, []);
  }

  /** `get_root_json`: the walk from the desktop root. */
  method RootDump(d: Desktop, root: Ref, depth: nat) returns (r: DumpNode)
    requires root in d.live
    ensures DumpOf(d, [root], depth, 5000, [r])
    ensures r.truncated == Loses(d, root, depth, 5000)
  {
    var budget := new Budget(MAX_TREE_NODES);
    var n := BuildNode(d, root, depth, budget);
    r := n.value;
  }

  // ----- What the flag means -----

  lemma {:induction false} CutLosesIff(d: Desktop, s: seq<Ref>, k: nat)
    requires |s| > 0 && (k > 0 || s[0] in d.live)
    ensures Cut(d, s, k) != s <==>
            |Live(d, s)| > k || (|Live(d, s)| == k && s[|s| - 1] !in d.live)
  {
    assert [s[0]] + s[1..] == s;
    LiveCons(d, s[0], s[1..]);
    if |s| > 1 && k > 0 {
      var k' := if s[0] in d.live then k - 1 else k;
      assert Cut(d, s, k)[1..] == Cut(d, s[1..], k');
      if k' == 0 {
        assert |Cut(d, s[1..], 0)| == 0;
        LiveLast(d, s[1..]);
      } else {
        CutLosesIff(d, s[1..], k');
      }
    }
  }

  lemma {:induction false} LiveLast(d: Desktop, s: seq<Ref>)
    requires |s| > 0
    ensures s[|s| - 1] in d.live ==> |Live(d, s)| > 0
  {
    if |s| > 1 {
      LiveLast(d, s[1..]);
    }
  }

  /** The exact meaning of a node's flag: its pruned subtree holds more live nodes than the cap left
      at it, or exactly as many and a dead reference comes last. */
  lemma TruncatedIff(d: Desktop, x: Ref, depth: nat, k: nat)
    requires x in d.live && k > 0
    ensures var s := Below(d, x, depth);
            Loses(d, x, depth, k) <==> |Live(d, s)| > k || (|Live(d, s)| == k && s[|s| - 1] !in d.live)
  {
    CutLosesIff(d, Below(d, x, depth), k);
  }

  /** With every listed proxy alive the dump is the `k`-prefix of the pruned preorder and the flag
      says exactly that the pruned tree exceeds the cap. */
  lemma TruncatedIffOverCap(d: Desktop, x: Ref, depth: nat, k: nat, n: DumpNode)
    requires x in d.live && k > 0 && DumpOf(d, [x], depth, k, [n])
    requires forall r :: r in Below(d, x, depth) ==> r in d.live
    ensures Nodes([n]) == Take(Below(d, x, depth), k)
    ensures n.truncated <==> |Below(d, x, depth)| > k
  {
    OneRef(d, x, depth);
    CutAllLive(d, Below(d, x, depth), k);
  }

  lemma {:induction false} CutAllLive(d: Desktop, s: seq<Ref>, k: nat)
    requires forall r :: r in s ==> r in d.live
    ensures Cut(d, s, k) == Take(s, k) && Live(d, Cut(d, s, k)) == Take(s, k)
  {
    if |s| > 0 && k > 0 {
      CutAllLive(d, s[1..], k - 1);
      assert Take(s, k)[1..] == Take(s[1..], k - 1);
    }
  }

  // ----- A dead tail -----

  /** `n` references from `first` on. */
  function Span(first: nat, n: nat): (r: seq<Ref>)
    ensures |r| == n && forall x: Ref :: x in r <==> first <= x < first + n
    decreases n
  {
    if n == 0 then [] else [first] + Span(first + 1, n - 1)
  }

  /** A root (reference 1) whose children are 2 up to `k + 1`, where the last one is dead: `k` live nodes
      in all. */
  ghost function DeadTailDesktop(k: nat): Desktop {
    Desktop((set r | r in Span(1, k)), (r: Ref) => LiveNode(Attrs("", None, "", [], None, "", ""), if r == 1 then Span(2, k) else []))
  }

  lemma {:induction false} SpanEntries(d: Desktop, first: nat, n: nat)
    requires first > 0 && forall r :: first <= r < first + n ==> d.node(r).children == []
    ensures Listed(Span(first, n)) == Span(first, n)
    ensures Order(d, Span(first, n), 0) == Span(first, n)
    decreases n
  {
    if n > 0 {
      assert Span(first, n)[1..] == Span(first + 1, n - 1);
      SpanEntries(d, first + 1, n - 1);
    }
  }

  lemma {:induction false} SpanLive(d: Desktop, first: nat, n: nat, k: nat)
    requires forall r: nat :: r in d.live <==> 0 < r <= k
    requires n > 0 && 0 < first && first + n == k + 2
    ensures |Live(d, Span(first, n))| == n - 1 && Span(first, n)[n - 1] == k + 1
    decreases n
  {
    assert Span(first, n)[1..] == Span(first + 1, n - 1);
    if n == 1 {
      assert Live(d, Span(first, n)[1..]) == [];
    } else {
      SpanLive(d, first + 1, n - 1, k);
    }
  }

  lemma DeadTailEntries(k: nat)
    requires k > 0
    ensures var d := DeadTailDesktop(k);
            && Below(d, 1, 1) == [1] + Span(2, k)
            && |Live(d, Below(d, 1, 1))| == k && Below(d, 1, 1)[k] !in d.live
  {
    var d := DeadTailDesktop(k);
    SpanEntries(d, 2, k);
    SpanLive(d, 2, k, k);
    LiveCons(d, 1, Span(2, k));
  }

  /** With a dead proxy listed last the flag can be raised although no live node was lost, whatever the cap: the
      pruned tree has exactly `k` live nodes and all of them are dumped. */
  lemma DeadTailRaisesFlag(k: nat)
    requires k > 0
    ensures var d := DeadTailDesktop(k);
            var s := Below(d, 1, 1);
            && 1 in d.live && |Live(d, s)| == k && Live(d, Cut(d, s, k)) == Live(d, s) && Loses(d, 1, 1, k)
  {
    var d := DeadTailDesktop(k);
    DeadTailEntries(k);
    TruncatedIff(d, 1, 1, k);
    CutKeepsLive(d, Below(d, 1, 1), k);
  }

  /** What a cap of at least the live count cuts off is dead. */
  lemma {:induction false} CutKeepsLive(d: Desktop, s: seq<Ref>, k: nat)
    requires |Live(d, s)| <= k
    ensures Live(d, Cut(d, s, k)) == Live(d, s)
  {
    if |s| > 0 && k > 0 {
      var k' := if s[0] in d.live then k - 1 else k;
      CutKeepsLive(d, s[1..], k');
      LiveCons(d, s[0], Cut(d, s[1..], k'));
    }
  }

  /** The advertised root flag fails so at the real cap. */
  lemma RootFlagRaisedByDeadTail()
    ensures var d := DeadTailDesktop(MAX_TREE_NODES);
            && |Live(d, Below(d, 1, 1))| == MAX_TREE_NODES
            && Loses(d, 1, 1, MAX_TREE_NODES)
  {
    DeadTailRaisesFlag(MAX_TREE_NODES);
  }
}
