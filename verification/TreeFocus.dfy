/** Locating the focused element: a budgeted depth-first search for the first accessible carrying a
    state, over the live graph. */
module TreeFocus {
  import opened Prelude
  import opened TreeScan

  /** Which accessibles carry the wanted state, and which of them yield an object reference. */
  datatype Probe = Probe(carries: Ref -> bool, hasRef: Ref -> bool) {
    function Hit(): Ref -> bool {
      (r: Ref) => carries(r) && hasRef(r)
    }
  }

  /** The desktop the search actually walks: it never looks below a carrier. */
  ghost function Shadowed(d: Desktop, p: Probe): Desktop {
    d.(node := (r: Ref) => if p.carries(r) then d.node(r).(children := []) else d.node(r))
  }

  ghost function FirstHit(visits: seq<Ref>, hit: Ref -> bool): Option<Ref> {
    var hs := Filter(visits, hit);
    if hs == [] then None else Some(hs[0])
  }

  ghost function Visits(d: Desktop, p: Probe, pending: seq<Ref>, k: nat): seq<Ref> {
    FirstNodes(Shadowed(d, p), pending, k)
  }

  /** What a search over `pending` with `k` budget must answer. */
  ghost function Found(d: Desktop, p: Probe, pending: seq<Ref>, k: nat): Option<Ref> {
    FirstHit(Visits(d, p, pending, k), p.Hit())
  }

  /** A further sibling is looked at only when the ones before it yielded nothing, with what they left. */
  lemma FoundConcat(d: Desktop, p: Probe, a: seq<Ref>, b: seq<Ref>, k: nat)
    ensures Found(d, p, a + b, k) ==
            if Found(d, p, a, k).Some? then Found(d, p, a, k) else Found(d, p, b, k - |Visits(d, p, a, k)|)
    ensures |Visits(d, p, a + b, k)| == |Visits(d, p, a, k)| + |Visits(d, p, b, k - |Visits(d, p, a, k)|)|
  {
    FirstNodesConcat(Shadowed(d, p), a, b, k);
    FilterConcat(Visits(d, p, a, k), Visits(d, p, b, k - |Visits(d, p, a, k)|), p.Hit());
  }

  lemma FoundRoot(d: Desktop, p: Probe, x: Ref, k: nat)
    requires k > 0
    ensures p.carries(x) ==> Found(d, p, [x], k) == (if p.hasRef(x) then Some(x) else None) && |Visits(d, p, [x], k)| == 1
    ensures !p.carries(x) ==> Found(d, p, [x], k) == Found(d, p, ChildrenOf(d, x), k - 1)
    ensures !p.carries(x) ==> |Visits(d, p, [x], k)| == 1 + |Visits(d, p, ChildrenOf(d, x), k - 1)|
  {
    var s := Shadowed(d, p);
    var rest := FirstNodes(s, ChildrenOf(s, x), k - 1);
    assert ChildrenOf(s, x) + [x][1..] == ChildrenOf(s, x);
    assert FirstNodes(s, [x], k) == [x] + rest;
    assert ([x] + rest)[1..] == rest;
    if p.carries(x) {
      assert s.node(x).children == [] && ChildrenOf(s, x) == [];
      assert rest == [] && Filter(rest, p.Hit()) == [];
    } else {
      assert ChildrenOf(s, x) == ChildrenOf(d, x);
    }
  }

  /** One sibling `x` after the fruitless `done`, with `rest` to come. */
  lemma FoundStep(d: Desktop, p: Probe, done: seq<Ref>, x: Ref, rest: seq<Ref>, k: nat, all: seq<Ref>)
    requires all == done + [x] + rest && Found(d, p, done, k).None?
    ensures var left := k - |Visits(d, p, done, k)|;
            && left >= 0
            && Found(d, p, done + [x], k) == Found(d, p, [x], left)
            && |Visits(d, p, done + [x], k)| == k - left + |Visits(d, p, [x], left)|
            && (Found(d, p, [x], left).Some? ==> Found(d, p, all, k) == Found(d, p, [x], left))
            && (left == 0 ==> Found(d, p, all, k).None? && |Visits(d, p, all, k)| == k)
  {
    FoundConcat(d, p, done, [x], k);
    FoundConcat(d, p, done + [x], rest, k);
  }

  /** `find_state_in`. */
  method FindStateIn(d: Desktop, x: Ref, p: Probe, budget: Budget) returns (r: Option<Ref>)
    requires budget.Valid()
    modifies budget
    decreases budget.Left()
    ensures budget.Valid() && r == Found(d, p, [x], old(budget.Left()))
    ensures r.None? ==> budget.visited == old(budget.visited) + |Visits(d, p, [x], old(budget.Left()))|
  {
    ghost var k := budget.Left();
    var ok := budget.Take();
    if !ok {
      return None;
    }
    FoundRoot(d, p, x, k);
    if p.carries(x) {
      return if p.hasRef(x) then Some(x) else None;
    }
    var kids := ChildrenOf(d, x);
    for i := 0 to |kids|
      invariant budget.Valid() && Found(d, p, kids[..i], k - 1).None?
      invariant budget.Left() == k - 1 - |Visits(d, p, kids[..i], k - 1)|
    {
      FoundStep(d, p, kids[..i], kids[i], kids[i + 1..], k - 1, kids);
      assert kids[..i] + [kids[i]] == kids[..i + 1];
      if budget.visited >= budget.limit {
        return None;
      }
      var hit := FindStateIn(d, kids[i], p, budget);
      if hit.Some? {
        return hit;
      }
    }
    assert kids[..|kids|] == kids;
    return None;
  }

  /** Position of the first element satisfying `p`, or the length. */
  function FirstIndex<T>(s: seq<T>, p: T -> bool): (i: nat)
    ensures i <= |s| && (i < |s| ==> p(s[i])) && forall j :: 0 <= j < i ==> !p(s[j])
  {
    if |s| == 0 || p(s[0]) then 0 else 1 + FirstIndex(s[1..], p)
  }

  /** `ordered_apps`: null references dropped, and the first application owning an active window
      exchanged with the one in front. */
  function OrderedApps(listed: seq<Ref>, ownsActive: Ref -> bool): seq<Ref> {
    var live := Filter(listed, (r: Ref) => r != NULL_REF);
    var i := FirstIndex(live, ownsActive);
    if i == |live| then live else live[0 := live[i]][i := live[0]]
  }

  /** The search order is a permutation of the non-null applications that starts with the first active
      one, if any, and moves only that one and the one it replaces. */
  lemma ActiveAppFirst(listed: seq<Ref>, ownsActive: Ref -> bool)
    ensures var (live, apps) := (Filter(listed, (r: Ref) => r != NULL_REF), OrderedApps(listed, ownsActive));
            && multiset(apps) == multiset(live)
            && ((forall r :: r in live ==> !ownsActive(r)) ==> apps == live)
            && ((exists r :: r in live && ownsActive(r)) ==>
                  exists i :: 0 <= i < |live| && ownsActive(live[i]) && apps[0] == live[i] && (forall j :: 0 <= j < i ==> !ownsActive(live[j])))
            && forall j :: 0 < j < |live| && apps[j] != live[j] ==> apps[j] == live[0] && apps[0] == live[j]
  {
    var live := Filter(listed, (r: Ref) => r != NULL_REF);
    var i := FirstIndex(live, ownsActive);
    if i < |live| {
      SwapPermutes(live, i);
    }
  }

  lemma SwapPermutes<T>(s: seq<T>, i: nat)
    requires i < |s|
    ensures multiset(s[0 := s[i]][i := s[0]]) == multiset(s)
  {
  }

  /** The first `i` applications were searched without result and left `left` of the budget. */
  ghost predicate Searched(d: Desktop, p: Probe, apps: seq<Ref>, i: nat, k: nat, left: int) {
    && i <= |apps| && Found(d, p, Answering(d, apps[..i]), k).None?
    && left == k - |Visits(d, p, Answering(d, apps[..i]), k)|
  }

  lemma SearchedDead(d: Desktop, p: Probe, apps: seq<Ref>, i: nat, k: nat, left: int)
    requires i < |apps| && apps[i] !in d.live && Searched(d, p, apps, i, k, left)
    ensures Searched(d, p, apps, i + 1, k, left)
  {
    AnsweringSplit(d, apps, i);
  }

  /** The next answering application decides the search, or leaves what it did not use. */
  lemma SearchedNext(d: Desktop, p: Probe, apps: seq<Ref>, i: nat, k: nat, left: int)
    requires i < |apps| && apps[i] in d.live && Searched(d, p, apps, i, k, left)
    ensures left >= 0
    ensures var hit := Found(d, p, [apps[i]], left);
            && (hit.Some? ==> Found(d, p, Answering(d, apps), k) == hit)
            && (hit.None? ==> Searched(d, p, apps, i + 1, k, left - |Visits(d, p, [apps[i]], left)|))
  {
    AnsweringSplit(d, apps, i);
    FoundStep(d, p, Answering(d, apps[..i]), apps[i], Answering(d, apps[i + 1..]), k, Answering(d, apps));
  }

  /** `find_focused`: the applications in search order under one budget. */
  method FindFocused(d: Desktop, apps: seq<Ref>, p: Probe, limit: nat) returns (r: Option<Ref>)
    ensures r == Found(d, p, Answering(d, apps), limit)
  {
    var budget := new Budget(limit);
    for i := 0 to |apps|
      invariant budget.Valid() && budget.limit == limit && fresh(budget)
      invariant Searched(d, p, apps, i, limit, budget.Left())
    {
      if apps[i] !in d.live {
        SearchedDead(d, p, apps, i, limit, budget.Left());
        continue;
      }
      SearchedNext(d, p, apps, i, limit, budget.Left());
      var hit := FindStateIn(d, apps[i], p, budget);
      if hit.Some? {
        return hit;
      }
    }
    assert apps[..|apps|] == apps;
    return None;
  }

  /** An answer carries the state and yields a reference. */
  lemma FoundHits(d: Desktop, p: Probe, pending: seq<Ref>, k: nat)
    ensures Found(d, p, pending, k).Some? ==> p.Hit()(Found(d, p, pending, k).value)
  {
    FirstHitHolds(Visits(d, p, pending, k), p.Hit());
  }

  /** The answer is the first carrier of the plain live preorder within the budget exactly when that
      carrier, if there is one, yields a reference. */
  lemma {:induction false} FocusExact(d: Desktop, p: Probe, pending: seq<Ref>, k: nat)
    ensures var first := FirstHit(FirstNodes(d, pending, k), p.carries);
            Found(d, p, pending, k) == first <==> (first.Some? ==> p.hasRef(first.value))
    decreases k
  {
    if k > 0 && |pending| > 0 {
      var (s, x) := (Shadowed(d, p), pending[0]);
      if p.carries(x) {
        FoundHits(d, p, pending, k);
        assert FirstHit(FirstNodes(d, pending, k), p.carries) == Some(x);
        assert p.hasRef(x) ==> Found(d, p, pending, k) == Some(x);
      } else {
        var next := ChildrenOf(d, x) + pending[1..];
        assert ChildrenOf(s, x) == ChildrenOf(d, x);
        FocusExact(d, p, next, k - 1);
        assert FirstNodes(s, pending, k)[1..] == FirstNodes(s, next, k - 1);
        assert FirstNodes(d, pending, k)[1..] == FirstNodes(d, next, k - 1);
      }
    }
  }

  /** So when every carrier yields a reference, the answer is the first carrier. */
  lemma FocusIsFirstCarrier(d: Desktop, p: Probe, pending: seq<Ref>, k: nat)
    requires forall r :: p.carries(r) ==> p.hasRef(r)
    ensures Found(d, p, pending, k) == FirstHit(FirstNodes(d, pending, k), p.carries)
  {
    FocusExact(d, p, pending, k);
    FirstHitHolds(FirstNodes(d, pending, k), p.carries);
  }

  lemma FirstHitHolds(visits: seq<Ref>, hit: Ref -> bool)
    ensures FirstHit(visits, hit).Some? ==> hit(FirstHit(visits, hit).value)
  {
    FilterIn(visits, hit);
    var hs := Filter(visits, hit);
    assert hs != [] ==> hs[0] in hs;
  }

  /** What the failing branch would do: a carrier whose reference cannot be rebuilt hides a carrier
      below it. The input is hypothetical. Walked proxies are built from a reference's own name and
      path, and whether rebuilding it can ever fail is up to the bindings, which are not part of this
      model. */
  lemma ReflessCarrierHidesChild()
    ensures exists d, p: Probe :: p.carries(2) && p.hasRef(2) && 2 in FirstNodes(d, [1], 2) && Found(d, p, [1], 2).None?
  {
    var a := Attrs("", None, "", [], None, "", "");
    var d := Desktop({1, 2}, r => LiveNode(a, if r == 1 then [2] else []));
    var p := Probe(r => true, r => r == 2);
    assert Filter([2][1..], r => r != NULL_REF && r in d.live) == [];
    assert ChildrenOf(d, 1) == [2];
    assert ChildrenOf(d, 1) + [1][1..] == [2];
    assert FirstNodes(d, [1], 2) == [1] + FirstNodes(d, [2], 1);
    assert FirstNodes(d, [2], 1)[0] == 2;
    FoundRoot(d, p, 1, 2);
  }
}
