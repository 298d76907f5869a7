/** Searching a harvested forest with an explicit stack, and the bounded-staleness cache in front of
    the walk. */
module TreeSearch {
  import opened Detections
  import opened Prelude
  import opened TreeScan

  /** Hard cap on nodes visited by one walk. */
  const MAX_SEARCH_NODES: nat := 16384

  /** Freshness window of the cached walk, in milliseconds. */
  const SCAN_CACHE_TTL: nat := 300

  /** A non-index query: any predicate over the stored attributes. */
  type Query = Attrs -> bool

  ghost function Hits(forest: seq<ScannedNode>, q: Query): seq<ScannedNode> {
    Filter(Preorder(forest), (n: ScannedNode) => q(n.attrs))
  }

  // ----- Stack searches -----

  /** Popping the top of the stack and pushing its children in reverse advances the preorder by one. */
  lemma PopAdvances(stack: seq<ScannedNode>, q: Query)
    requires |stack| > 0
    ensures var (top, rest) := (stack[|stack| - 1], stack[..|stack| - 1]);
            var next := Reverse(rest + Reverse(top.children));
            && Preorder(Reverse(stack)) == [top] + Preorder(next)
            && Hits(Reverse(stack), q) == if q(top.attrs) then [top] + Hits(next, q) else Hits(next, q)
  {
    var (top, rest) := (stack[|stack| - 1], stack[..|stack| - 1]);
    var next := Reverse(rest + Reverse(top.children));
    assert Reverse(stack) == [top] + Reverse(rest) && Reverse(stack)[1..] == Reverse(rest);
    assert next == top.children + Reverse(rest);
    PreorderConcat(top.children, Reverse(rest));
    assert ([top] + Preorder(next))[1..] == Preorder(next);
  }

  /** `TreeScan::first_match`. */
  method FirstMatch(forest: seq<ScannedNode>, q: Query) returns (r: Option<ScannedNode>)
    ensures r == if Hits(forest, q) == [] then None else Some(Hits(forest, q)[0])
  {
    var stack := Reverse(forest);
    assert Reverse(stack) == forest;
    while |stack| > 0
      invariant Hits(Reverse(stack), q) == Hits(forest, q)
      decreases |Preorder(Reverse(stack))|
    {
      var node := stack[|stack| - 1];
      PopAdvances(stack, q);
      if q(node.attrs) {
        return Some(node);
      }
      stack := stack[..|stack| - 1] + Reverse(node.children);
    }
    return None;
  }

  /** `TreeScan::matches`. */
  method Matches(forest: seq<ScannedNode>, q: Query, limit: nat) returns (out: seq<ScannedNode>)
    ensures out == Take(Hits(forest, q), limit)
  {
    out := [];
    var stack := Reverse(forest);
    assert Reverse(stack) == forest;
    while |stack| > 0
      invariant out + Hits(Reverse(stack), q) == Hits(forest, q) && |out| <= limit
      decreases |Preorder(Reverse(stack))|
    {
      var node := stack[|stack| - 1];
      PopAdvances(stack, q);
      if |out| >= limit {
        break;
      }
      if q(node.attrs) {
        ConcatAssoc(out, [node], Hits(Reverse(stack[..|stack| - 1] + Reverse(node.children)), q));
        out := out + [node];
      }
      stack := stack[..|stack| - 1] + Reverse(node.children);
    }
  }

  // ----- Searching the harvest is searching the live graph -----

  lemma {:induction false} PreorderMirrors(d: Desktop, forest: seq<ScannedNode>)
    requires Mirrors(d, forest)
    ensures forall n :: n in Preorder(forest) ==> n.attrs == d.node(n.ref).attrs
  {
    if |forest| > 0 {
      assert MirrorsNode(d, forest[0]);
      PreorderMirrors(d, forest[0].children);
      PreorderMirrors(d, forest[1..]);
      assert forall n :: n in Preorder(forest) ==>
          n == forest[0] || n in Preorder(forest[0].children) || n in Preorder(forest[1..]);
    }
  }

  /** The hits in the first `limit` nodes of the live preorder, in order. */
  ghost function LiveHits(d: Desktop, apps: seq<Ref>, limit: nat, q: Query): seq<Ref> {
    Filter(FirstNodes(d, Answering(d, apps), limit), r => q(d.node(r).attrs))
  }

  /** A search over a harvest finds exactly the live nodes that satisfy the query among the first
      `limit` of the live preorder, in that order. */
  lemma HitsAreLiveHits(d: Desktop, apps: seq<Ref>, limit: nat, forest: seq<ScannedNode>, q: Query)
    requires Harvested(d, Answering(d, apps), limit, forest)
    ensures TopRefs(Hits(forest, q)) == LiveHits(d, apps, limit, q)
  {
    PreorderMirrors(d, forest);
    FilterMap(Preorder(forest), (n: ScannedNode) => n.ref, r => q(d.node(r).attrs), (n: ScannedNode) => q(n.attrs));
  }

  /** What identifies an accessible on the bus. */
  datatype Address = Address(busName: string, objectPath: string)

  /** The address of the first of `hits`, unless none can be rebuilt from what it stores; later hits
      are not tried. */
  ghost function FirstLive(d: Desktop, hits: seq<Ref>, rebuilds: (string, string) -> bool): Option<Address> {
    if hits == [] then None
    else
      var a := d.node(hits[0]).attrs;
      if rebuilds(a.busName, a.objectPath) then Some(Address(a.busName, a.objectPath)) else None
  }

  /** The first hit of a harvest is the first live hit, with its live attributes. */
  lemma FirstHitIsLive(d: Desktop, apps: seq<Ref>, limit: nat, forest: seq<ScannedNode>, q: Query)
    requires Harvested(d, Answering(d, apps), limit, forest)
    ensures var (hits, live) := (Hits(forest, q), LiveHits(d, apps, limit, q));
            && (hits == [] <==> live == [])
            && (hits != [] ==> hits[0].ref == live[0] && hits[0].attrs == d.node(live[0]).attrs)
  {
    HitsAreLiveHits(d, apps, limit, forest, q);
    PreorderMirrors(d, forest);
    FilterIn(Preorder(forest), (n: ScannedNode) => q(n.attrs));
    assert |TopRefs(Hits(forest, q))| == |Hits(forest, q)|;
    assert Hits(forest, q) != [] ==> Hits(forest, q)[0] in Hits(forest, q);
  }

  /** What a match reports. */
  datatype Node = Node(name: string, role: string, description: string, states: seq<string>, bounds: Option<Rect>)

  /** `to_node`. */
  function ToNode(a: Attrs): Node {
    Node(a.name, if a.role.Some? then a.role.value else "unknown", a.description, a.states, a.bounds)
  }

  /** A report repeats what is stored, a missing role as "unknown". */
  lemma ReportedFields(d: Desktop, refs: seq<Ref>, i: nat)
    requires i < |refs|
    ensures |Reported(d, refs)| == |refs|
    ensures var (n, a) := (Reported(d, refs)[i], d.node(refs[i]).attrs);
            && n.name == a.name && n.description == a.description && n.states == a.states && n.bounds == a.bounds
            && (a.role == None ==> n.role == "unknown") && (a.role.Some? ==> a.role == Some(n.role))
  {
  }

  function AsNode(): ScannedNode -> Node {
    (n: ScannedNode) => ToNode(n.attrs)
  }

  /** What live accessibles would be reported as. */
  ghost function Reported(d: Desktop, refs: seq<Ref>): seq<Node> {
    MapSeq(refs, (r: Ref) => ToNode(d.node(r).attrs))
  }

  /** The first `limit` hits of a harvest are reported as the first `limit` live hits would be. */
  lemma MatchesAreLive(d: Desktop, apps: seq<Ref>, k: nat, forest: seq<ScannedNode>, q: Query, limit: nat)
    requires Harvested(d, Answering(d, apps), k, forest)
    ensures MapSeq(Take(Hits(forest, q), limit), AsNode()) == Reported(d, Take(LiveHits(d, apps, k, q), limit))
  {
    var (hits, live) := (Hits(forest, q), LiveHits(d, apps, k, q));
    HitsAreLiveHits(d, apps, k, forest, q);
    PreorderMirrors(d, forest);
    FilterIn(Preorder(forest), (n: ScannedNode) => q(n.attrs));
    assert |TopRefs(hits)| == |hits|;
    forall i | 0 <= i < |hits|
      ensures hits[i].ref == live[i] && hits[i].attrs == d.node(live[i]).attrs
    {
      assert hits[i].ref == TopRefs(hits)[i];
      assert hits[i] in hits;
    }
  }

  // ----- The cache -----

  /** One completed walk: when it completed and what the desktop was. */
  datatype Walk = Walk(taken: nat, desktop: Desktop, apps: seq<Ref>)

  /** `scan_fresh` (the predicate): saturating age below the window. */
  predicate Fresh(taken: nat, now: nat) {
    (if now >= taken then now - taken else 0) < SCAN_CACHE_TTL
  }

  /** A walk is reused for the 300 milliseconds after it completed, and by a clock that reads earlier. */
  lemma FreshWindow(taken: nat, now: nat)
    ensures Fresh(taken, now) <==> now < taken + 300
  {
  }

  datatype CachedScan = CachedScan(taken: nat, forest: seq<ScannedNode>)

  /** `cached_scan` has an answer. */
  predicate Hit(cache: Option<CachedScan>, now: nat) {
    cache.Some? && Fresh(cache.value.taken, now)
  }

  class AtspiUi {
    var scanCache: Option<CachedScan>
    /** Every successful walk so far. */
    ghost var walks: seq<Walk>

    ghost predicate Valid()
      reads this
    {
      scanCache.Some? ==> exists w :: w in walks && IsHarvestOf(w, scanCache.value)
    }

    static ghost predicate IsHarvestOf(w: Walk, c: CachedScan) {
      c.taken == w.taken && Harvested(w.desktop, Answering(w.desktop, w.apps), MAX_SEARCH_NODES, c.forest)
    }

    constructor ()
      ensures Valid() && walks == []
    {
      scanCache, walks := None, [];
    }

    /** The walk an answer rests on: the cached one on a hit, else a new one of the desktop as it is;
        nothing is walked when listing the applications fails. */
    twostate predicate Consulted(desktop: Desktop, listed: Result<seq<Ref>, string>, now: nat, done: nat, ok: bool, used: Walk)
      reads this
    {
      && (ok <==> Hit(old(scanCache), now) || listed.Ok?)
      && (Hit(old(scanCache), now) ==>
            && walks == old(walks) && scanCache == old(scanCache)
            && used in walks && IsHarvestOf(used, scanCache.value))
      && (!Hit(old(scanCache), now) && listed.Ok? ==>
            && used == Walk(done, desktop, listed.value) && walks == old(walks) + [used]
            && scanCache.Some? && IsHarvestOf(used, scanCache.value))
      && (!ok ==> walks == old(walks) && scanCache == old(scanCache))
    }

    /** `tree_scan`: the cached walk while it is fresh, else a new one; `listed` is what listing the
        applications answers now and `done` the time a new walk would complete. A failed listing
        leaves the cache alone. */
    method TreeScan(desktop: Desktop, listed: Result<seq<Ref>, string>, now: nat, done: nat)
      returns (r: Result<seq<ScannedNode>, string>, ghost used: Walk)
      requires Valid() && now <= done
      modifies this
      ensures Valid()
      ensures Consulted(desktop, listed, now, done, r.Ok?, used)
      ensures Hit(old(scanCache), now) ==> r == Ok(old(scanCache).value.forest)
      ensures r.Err? ==> listed.Err? && r.error == listed.error
      ensures r.Ok? ==> used in walks && IsHarvestOf(used, CachedScan(used.taken, r.value))
      ensures r.Ok? ==> now < used.taken + SCAN_CACHE_TTL
    {
      used := Walk(done, desktop, []);
      if Hit(scanCache, now) {
        used :| used in walks && IsHarvestOf(used, scanCache.value);
        return Ok(scanCache.value.forest), used;
      }
      if listed.Err? {
        return Err(listed.error), used;
      }
      var forest := ScanForest(desktop, listed.value, MAX_SEARCH_NODES);
      used := Walk(done, desktop, listed.value);
      walks := walks + [used];
      scanCache := Some(CachedScan(done, forest));
      assert IsHarvestOf(used, scanCache.value);
      return Ok(forest), used;
    }

    /** `find_matches` for a non-index query: the first `limit` hits of the live preorder of a desktop
        walked less than one freshness window before the call, in order, each with its attributes
        there. */
    method FindMatches(desktop: Desktop, listed: Result<seq<Ref>, string>, now: nat, done: nat, q: Query, limit: nat)
      returns (r: Result<seq<Node>, string>, ghost used: Walk)
      requires Valid() && now <= done
      modifies this
      ensures Valid()
      ensures r.Err? ==> listed.Err? && r.error == listed.error && scanCache == old(scanCache)
      ensures Consulted(desktop, listed, now, done, r.Ok?, used)
      ensures r.Ok? ==> used in walks && now < used.taken + SCAN_CACHE_TTL
      ensures r.Ok? ==> r.value == Reported(used.desktop, Take(LiveHits(used.desktop, used.apps, 16384, q), limit))
    {
      var scan;
      scan, used := TreeScan(desktop, listed, now, done);
      if scan.Err? {
        return Err(scan.error), used;
      }
      MatchesAreLive(used.desktop, used.apps, MAX_SEARCH_NODES, scan.value, q, limit);
      var hits := Matches(scan.value, q, limit);
      return Ok(MapSeq(hits, AsNode())), used;
    }

    /** `find_match` for a non-index query: the stored address of the first hit of the live preorder, if
        there is one and a reference can be rebuilt from its bus name and object path. */
    method FindMatch(desktop: Desktop, listed: Result<seq<Ref>, string>, now: nat, done: nat, q: Query,
                     rebuilds: (string, string) -> bool)
      returns (r: Result<Option<Address>, string>, ghost used: Walk)
      requires Valid() && now <= done
      modifies this
      ensures Valid()
      ensures r.Err? ==> listed.Err? && r.error == listed.error
      ensures Consulted(desktop, listed, now, done, r.Ok?, used)
      ensures r.Ok? ==> used in walks && now < used.taken + SCAN_CACHE_TTL
      ensures r.Ok? ==> r.value == FirstLive(used.desktop, LiveHits(used.desktop, used.apps, 16384, q), rebuilds)
    {
      var scan;
      scan, used := TreeScan(desktop, listed, now, done);
      if scan.Err? {
        return Err(scan.error), used;
      }
      FirstHitIsLive(used.desktop, used.apps, MAX_SEARCH_NODES, scan.value, q);
      var hit := FirstMatch(scan.value, q);
      if hit.Some? && rebuilds(hit.value.attrs.busName, hit.value.attrs.objectPath) {
        return Ok(Some(Address(hit.value.attrs.busName, hit.value.attrs.objectPath))), used;
      }
      return Ok(None), used;
    }
  }
}
