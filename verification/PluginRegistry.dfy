/** Scanning the manifest directory, and the registry of plugin-exposed tools over it. */
module PluginRegistry {
  import opened Lexical
  import opened Prelude
  import opened Sorting
  import opened Manifest
  import opened Substitution
  import opened ToolSchema
  import opened VersionGrammar

  const MAX_MANIFEST_FILES: nat := 256

  /** One manifest file and what loading it gives. */
  datatype File = File(path: string, load: Result<PluginManifest, string>)

  datatype Plugin = Plugin(manifest: PluginManifest, source: string)

  datatype Reason = DuplicateName(name: string) | DuplicateTool(name: string) | Invalid(error: string)

  datatype Skipped = Skipped(file: string, reason: Reason)

  // ----- Order -----

  function ByPath(): (File, File) -> bool {
    (a: File, b: File) => StrLe(a.path, b.path)
  }

  function ByName(): (Plugin, Plugin) -> bool {
    (a: Plugin, b: Plugin) => StrLe(a.manifest.name, b.manifest.name)
  }

  function ByToolName(): (Tool, Tool) -> bool {
    (a: Tool, b: Tool) => StrLe(a.name, b.name)
  }

  lemma OrdersTotal()
    ensures TotalPreorder(ByPath()) && TotalPreorder(ByName()) && TotalPreorder(ByToolName())
  {
    forall a: string, b: string
      ensures StrLe(a, b) || StrLe(b, a)
    {
      StrLeTotal(a, b);
    }
    forall a: string, b: string, c: string | StrLe(a, b) && StrLe(b, c)
      ensures StrLe(a, c)
    {
      StrLeTransitive(a, b, c);
    }
  }

  // ----- Which files load -----

  ghost predicate HasName(f: File, name: string) {
    f.load.Ok? && f.load.value.name == name
  }

  predicate Exposes(m: PluginManifest, tool: string) {
    m.tool.Some? && m.tool.value.name == tool
  }

  /** A file loads beside plugin names and tool names already taken. */
  ghost predicate Admits(f: File, names: set<string>, tools: set<string>) {
    && f.load.Ok? && f.load.value.name !in names
    && (f.load.value.tool.Some? ==> f.load.value.tool.value.name !in tools)
  }

  /** The names of the valid files below `n`, loaded or not. */
  ghost function NamesBelow(c: seq<File>, n: nat): set<string>
    requires n <= |c|
  {
    if n == 0 then {} else NamesBelow(c, n - 1) + if c[n - 1].load.Ok? then {c[n - 1].load.value.name} else {}
  }

  /** The tool names of the files loaded below `n`. */
  ghost function ToolsBelow(c: seq<File>, n: nat): set<string>
    requires n <= |c|
  {
    if n == 0 then {}
    else
      var prev := ToolsBelow(c, n - 1);
      prev + if Admits(c[n - 1], NamesBelow(c, n - 1), prev) && c[n - 1].load.value.tool.Some?
             then {c[n - 1].load.value.tool.value.name} else {}
  }

  ghost predicate LoadsAt(c: seq<File>, i: nat)
    requires i < |c|
  {
    Admits(c[i], NamesBelow(c, i), ToolsBelow(c, i))
  }

  ghost predicate HoldsTool(c: seq<File>, j: nat, tool: string)
    requires j < |c|
  {
    LoadsAt(c, j) && Exposes(c[j].load.value, tool)
  }

  lemma {:induction false} NamesBelowExact(c: seq<File>, n: nat)
    requires n <= |c|
    ensures forall x :: x in NamesBelow(c, n) <==> exists j :: 0 <= j < n && HasName(c[j], x)
  {
    if n > 0 {
      NamesBelowExact(c, n - 1);
      assert c[n - 1].load.Ok? ==> HasName(c[n - 1], c[n - 1].load.value.name);
    }
  }

  lemma {:induction false} ToolsBelowExact(c: seq<File>, n: nat)
    requires n <= |c|
    ensures forall t :: t in ToolsBelow(c, n) <==> exists j :: 0 <= j < n && HoldsTool(c, j, t)
  {
    if n > 0 {
      ToolsBelowExact(c, n - 1);
      forall t
        ensures t in ToolsBelow(c, n) <==> t in ToolsBelow(c, n - 1) || HoldsTool(c, n - 1, t)
      {
      }
    }
  }

  /** File `i` loads exactly when it is valid, no earlier valid file has its name (loaded or not), and
      no earlier loaded one exposes its tool name. */
  lemma LoadsIff(c: seq<File>, i: nat)
    requires i < |c|
    ensures LoadsAt(c, i) <==>
            && c[i].load.Ok?
            && (forall j :: 0 <= j < i ==> !HasName(c[j], c[i].load.value.name))
            && (c[i].load.value.tool.Some? ==> forall j :: 0 <= j < i ==> !HoldsTool(c, j, c[i].load.value.tool.value.name))
  {
    NamesBelowExact(c, i);
    ToolsBelowExact(c, i);
  }

  /** The plugins loaded among the first `n` files, in file order. */
  ghost function LoadedOf(c: seq<File>, n: nat): seq<Plugin>
    requires n <= |c|
  {
    if n == 0 then []
    else LoadedOf(c, n - 1) + if LoadsAt(c, n - 1) then [Plugin(c[n - 1].load.value, c[n - 1].path)] else []
  }

  /** Why a file that does not load is skipped. */
  ghost function ReasonAt(c: seq<File>, i: nat): Reason
    requires i < |c| && !LoadsAt(c, i)
  {
    match c[i].load
    case Err(e) => Invalid(e)
    case Ok(m) =>
      if m.name in NamesBelow(c, i) then DuplicateName(m.name)
      else DuplicateTool(m.tool.value.name)
  }

  ghost function SkippedOf(c: seq<File>, n: nat): seq<Skipped>
    requires n <= |c|
  {
    if n == 0 then []
    else SkippedOf(c, n - 1) + if LoadsAt(c, n - 1) then [] else [Skipped(c[n - 1].path, ReasonAt(c, n - 1))]
  }

  // ----- The scan -----

  /** The files one scan looks at. */
  function Considered(files: seq<File>): seq<File> {
    Take(Sort(files, ByPath()), MAX_MANIFEST_FILES)
  }

  /** The plugins one scan reports. */
  ghost function Listing(files: seq<File>): seq<Plugin> {
    Sort(LoadedOf(Considered(files), |Considered(files)|), ByName())
  }

  /** `PluginStore::scan`. */
  method Scan(files: seq<File>) returns (plugins: seq<Plugin>, skipped: seq<Skipped>)
    ensures plugins == Listing(files)
    ensures skipped == SkippedOf(Considered(files), |Considered(files)|)
  {
    var c := Considered(files);
    plugins, skipped := [], [];
    var seen: set<string> := {};
    var seenTools: set<string> := {};
    for i := 0 to |c|
      invariant plugins == LoadedOf(c, i) && skipped == SkippedOf(c, i)
      invariant seen == NamesBelow(c, i) && seenTools == ToolsBelow(c, i)
    {
      match c[i].load
      case Ok(m) =>
        if m.name in seen {
          skipped := skipped + [Skipped(c[i].path, DuplicateName(m.name))];
          continue;
        }
        seen := seen + {m.name};
        if m.tool.Some? {
          if m.tool.value.name in seenTools {
            skipped := skipped + [Skipped(c[i].path, DuplicateTool(m.tool.value.name))];
            continue;
          }
          seenTools := seenTools + {m.tool.value.name};
        }
        plugins := plugins + [Plugin(m, c[i].path)];
      case Err(e) =>
        skipped := skipped + [Skipped(c[i].path, Invalid(e))];
    }
    plugins := Sort(plugins, ByName());
  }

  // ----- Which files are considered -----

  /** The considered files are the first of the directory in path order: sorted by path, all of them or
      256, and none left out comes before one of them. */
  lemma ConsideredFacts(files: seq<File>)
    ensures var c := Considered(files);
            && |c| == Min(|files|, 256) && multiset(c) <= multiset(files)
            && (forall i, j :: 0 <= i < j < |c| ==> StrLe(c[i].path, c[j].path))
            && (forall f, g :: f in c && g in multiset(files) - multiset(c) ==> StrLe(f.path, g.path))
  {
    OrdersTotal();
    SortSorts(files, ByPath());
    FirstOfSorted(Sort(files, ByPath()), files, ByPath(), 256);
    var c := Considered(files);
    forall i, j | 0 <= i < j < |c|
      ensures StrLe(c[i].path, c[j].path)
    {
      assert ByPath()(c[i], c[j]);
    }
    forall f, g | f in c && g in multiset(files) - multiset(c)
      ensures StrLe(f.path, g.path)
    {
      assert ByPath()(f, g);
    }
  }

  /** The first `n` of a sorted permutation of `all`. */
  lemma FirstOfSorted<T>(s: seq<T>, all: seq<T>, le: (T, T) -> bool, n: nat)
    requires SortedBy(s, le) && multiset(s) == multiset(all)
    ensures var c := Take(s, n);
            && |c| == Min(|all|, n) && multiset(c) <= multiset(all) && SortedBy(c, le)
            && (forall f, g :: f in c && g in multiset(all) - multiset(c) ==> le(f, g))
  {
    var c := Take(s, n);
    var rest := s[|c|..];
    assert |multiset(s)| == |s| && |multiset(all)| == |all|;
    assert s == c + rest;
    assert multiset(all) - multiset(c) == multiset(rest);
    forall f, g | f in c && g in multiset(rest)
      ensures le(f, g)
    {
      var i :| 0 <= i < |c| && c[i] == f;
      var j :| 0 <= j < |rest| && rest[j] == g;
      assert s[i] == f && s[|c| + j] == g;
    }
  }

  // ----- What a scan guarantees -----

  ghost predicate LoadedFrom(c: seq<File>, p: Plugin, i: nat) {
    i < |c| && LoadsAt(c, i) && p == Plugin(c[i].load.value, c[i].path)
  }

  ghost predicate SkippedFrom(c: seq<File>, s: Skipped, i: nat) {
    i < |c| && !LoadsAt(c, i) && s == Skipped(c[i].path, ReasonAt(c, i))
  }

  lemma {:induction false} SkippedOfExact(c: seq<File>, n: nat)
    requires n <= |c|
    ensures forall s :: s in SkippedOf(c, n) <==> exists i :: 0 <= i < n && SkippedFrom(c, s, i)
  {
    if n > 0 {
      SkippedOfExact(c, n - 1);
      assert !LoadsAt(c, n - 1) ==> SkippedFrom(c, Skipped(c[n - 1].path, ReasonAt(c, n - 1)), n - 1);
    }
  }

  lemma {:induction false} LoadedOfExact(c: seq<File>, n: nat)
    requires n <= |c|
    ensures forall p :: p in LoadedOf(c, n) <==> exists i :: 0 <= i < n && LoadedFrom(c, p, i)
    ensures DistinctNames(LoadedOf(c, n)) && DistinctTools(LoadedOf(c, n))
    ensures |LoadedOf(c, n)| + |SkippedOf(c, n)| == n
  {
    if n > 0 {
      LoadedOfExact(c, n - 1);
      var ps := LoadedOf(c, n - 1);
      assert LoadsAt(c, n - 1) ==> LoadedFrom(c, Plugin(c[n - 1].load.value, c[n - 1].path), n - 1);
      if LoadsAt(c, n - 1) {
        LoadsIff(c, n - 1);
        var m := c[n - 1].load.value;
        forall k | 0 <= k < |ps|
          ensures ps[k].manifest.name != m.name && (m.tool.Some? ==> !Exposes(ps[k].manifest, m.tool.value.name))
        {
          assert ps[k] in ps;
          var i :| 0 <= i < n - 1 && LoadedFrom(c, ps[k], i);
          assert !HasName(c[i], m.name);
          assert m.tool.Some? ==> !HoldsTool(c, i, m.tool.value.name);
        }
      }
    }
  }

  function OtherName(): (Plugin, Plugin) -> bool {
    (p: Plugin, q: Plugin) => p.manifest.name != q.manifest.name
  }

  function OtherTool(): (Plugin, Plugin) -> bool {
    (p: Plugin, q: Plugin) => p.manifest.tool.Some? && q.manifest.tool.Some? ==> p.manifest.tool.value.name != q.manifest.tool.value.name
  }

  ghost predicate DistinctNames(ps: seq<Plugin>) {
    Pairwise(ps, OtherName())
  }

  ghost predicate DistinctTools(ps: seq<Plugin>) {
    Pairwise(ps, OtherTool())
  }

  /** Every considered file ends up loaded or skipped exactly once, a plugin is listed exactly when
      its file loads, a file is reported skipped exactly when it does not, with its reason, and the
      listing is sorted by name with pairwise distinct names and tool names. */
  lemma ScanExact(files: seq<File>)
    ensures var c := Considered(files);
            var (plugins, skipped) := (Listing(files), SkippedOf(c, |c|));
            && |plugins| + |skipped| == |c| <= MAX_MANIFEST_FILES
            && (forall p :: p in plugins <==> exists i :: 0 <= i < |c| && LoadedFrom(c, p, i))
            && (forall s :: s in skipped <==> exists i :: 0 <= i < |c| && SkippedFrom(c, s, i))
            && (forall i, j :: 0 <= i < j < |plugins| ==> StrLe(plugins[i].manifest.name, plugins[j].manifest.name))
            && SortedBy(plugins, ByName()) && DistinctNames(plugins) && DistinctTools(plugins)
  {
    var c := Considered(files);
    LoadedOfExact(c, |c|);
    SkippedOfExact(c, |c|);
    OrdersTotal();
    SortedFacts(LoadedOf(c, |c|));
    var plugins := Listing(files);
    forall i, j | 0 <= i < j < |plugins|
      ensures StrLe(plugins[i].manifest.name, plugins[j].manifest.name)
    {
      assert ByName()(plugins[i], plugins[j]);
    }
  }

  /** Sorting by name keeps the members and their distinctness. */
  lemma SortedFacts(ps: seq<Plugin>)
    requires DistinctNames(ps) && DistinctTools(ps)
    ensures var qs := Sort(ps, ByName());
            && |qs| == |ps| && (forall p :: p in qs <==> p in ps)
            && SortedBy(qs, ByName()) && DistinctNames(qs) && DistinctTools(qs)
  {
    var qs := Sort(ps, ByName());
    OrdersTotal();
    SortSorts(ps, ByName());
    SameMembers(ps, qs);
    SortPairwise(ps, ByName(), OtherName());
    SortPairwise(ps, ByName(), OtherTool());
  }

  lemma SameMembers<T>(a: seq<T>, b: seq<T>)
    requires multiset(a) == multiset(b)
    ensures forall x :: x in a <==> x in b
  {
    forall x
      ensures x in a <==> x in b
    {
      assert x in a <==> x in multiset(a);
      assert x in b <==> x in multiset(b);
    }
  }

  /** A name that some valid file has is held by a loaded plugin exactly when the first valid file of
      that name was not refused for its tool name. */
  lemma NameHeldIff(c: seq<File>, name: string, j: nat)
    requires j < |c| && HasName(c[j], name) && forall i :: 0 <= i < j ==> !HasName(c[i], name)
    ensures (exists i :: 0 <= i < |c| && LoadsAt(c, i) && HasName(c[i], name)) <==>
            (c[j].load.value.tool.Some? ==> forall k :: 0 <= k < j ==> !HoldsTool(c, k, c[j].load.value.tool.value.name))
  {
    LoadsIff(c, j);
    forall i: nat | i < |c| && HasName(c[i], name) && LoadsAt(c, i)
      ensures i == j
    {
      LoadsIff(c, i);
    }
  }

  /** A document with one legal step over a catalog of one tool. */
  function Sample(name: string, tool: Option<RawTool>): RawManifest {
    RawManifest(Some(1), name, "1.0.0", "", map[], tool, [Step("sleep", [])])
  }

  /** File `f` holds the accepted document `raw`. */
  ghost predicate Holds(f: File, raw: RawManifest) {
    Acceptable(raw, {"sleep"}) && f.load == Ok(Validated(raw))
  }

  lemma SampleStepOk()
    ensures StepOk(Step("sleep", []), map[], {"sleep"})
  {
    assert "sleep"[0] != "plugin_"[0] && "sleep"[0] != "replay_action"[0];
  }

  lemma SampleToolOk()
    ensures ToolOk(RawTool("t", "", map[]), map[], {"sleep"})
  {
    assert "t"[0] != "sleep"[0];
  }

  lemma SampleHeld(f: File, name: string, tool: Option<RawTool>)
    requires (name == "a" || name == "b") && (tool.Some? ==> tool.value == RawTool("t", "", map[]))
    requires f.load == Ok(Validated(Sample(name, tool)))
    ensures Holds(f, Sample(name, tool))
  {
    var raw := Sample(name, tool);
    WrittenIsValid("1", "0", "0", None, None);
    assert raw.version == Written("1", "0", "0", None, None);
    assert "a"[0] != "sleep"[0] && "b"[0] != "sleep"[0];
    assert Merged(raw) == map[];
    SampleStepOk();
    SampleToolOk();
  }

  /** A name can be blocked without a loaded holder: three accepted manifests of which the second is
      skipped for its tool name and the third, which would load on its own, for the second one's name. */
  lemma BlockedNameWithoutHolder() returns (raws: seq<RawManifest>, c: seq<File>)
    ensures |raws| == |c| == 3 && Holds(c[0], raws[0]) && Holds(c[1], raws[1]) && Holds(c[2], raws[2])
    ensures HasName(c[2], "b") && !LoadsAt(c, 2) && LoadsAt([c[2]], 0)
    ensures forall j: nat :: j < 3 && LoadsAt(c, j) ==> !HasName(c[j], "b")
  {
    var tool := Some(RawTool("t", "", map[]));
    var r0, r1, r2 := Sample("a", tool), Sample("b", tool), Sample("b", None);
    var f0, f1, f2 := File("0", Ok(Validated(r0))), File("1", Ok(Validated(r1))), File("2", Ok(Validated(r2)));
    SampleHeld(f0, "a", tool);
    SampleHeld(f1, "b", tool);
    SampleHeld(f2, "b", None);
    assert "a"[0] != "b"[0];
    ThirdBlocked([f0, f1, f2], "a", "b", "t");
    raws, c := [r0, r1, r2], [f0, f1, f2];
  }

  lemma ThirdBlocked(c: seq<File>, a: string, b: string, t: string)
    requires |c| == 3 && a != b && HasName(c[0], a) && HasName(c[1], b) && HasName(c[2], b)
    requires Exposes(c[0].load.value, t) && Exposes(c[1].load.value, t) && c[2].load.value.tool.None?
    ensures LoadsAt(c, 0) && !LoadsAt(c, 1) && !LoadsAt(c, 2) && LoadsAt([c[2]], 0)
  {
    LoadsIff(c, 0);
    LoadsIff([c[2]], 0);
    assert HoldsTool(c, 0, t);
    LoadsIff(c, 1);
    LoadsIff(c, 2);
  }

  ghost predicate Earlier(a: File, b: File) {
    StrLe(a.path, b.path) && a.path != b.path
  }

  /** `f` is valid and its plugin is listed. */
  ghost predicate IsLoaded(files: seq<File>, f: File) {
    f.load.Ok? && Plugin(f.load.value, f.path) in Listing(files)
  }

  ghost predicate DistinctPaths(files: seq<File>) {
    forall i, j :: 0 <= i < j < |files| ==> files[i].path != files[j].path
  }

  lemma DistinctInAnyOrder(a: seq<File>, b: seq<File>)
    requires multiset(a) == multiset(b) && DistinctPaths(a)
    ensures DistinctPaths(b)
  {
    forall i, j | 0 <= i < j < |b|
      ensures b[i].path != b[j].path
    {
      if b[i].path == b[j].path {
        SameMembers(a, b);
        assert b[i] in a && b[j] in a;
        var k :| 0 <= k < |a| && a[k] == b[i];
        var l :| 0 <= l < |a| && a[l] == b[j];
        assert k == l;
        TwiceInMultiset(b, i, j);
        OnceInMultiset(a, k);
      }
    }
  }

  lemma TwiceInMultiset<T>(s: seq<T>, i: nat, j: nat)
    requires i < j < |s| && s[i] == s[j]
    ensures multiset(s)[s[i]] >= 2
  {
    SplitAt(s, j);
    assert multiset(s) == multiset(s[..j]) + multiset(s[j..]);
    assert s[..j][i] == s[i] && s[j..][0] == s[j];
  }

  lemma OnceInMultiset(s: seq<File>, k: nat)
    requires k < |s| && DistinctPaths(s)
    ensures multiset(s)[s[k]] == 1
  {
    var (a, b) := (s[..k], s[k + 1..]);
    assert s == a + [s[k]] + b;
    assert multiset(s) == multiset(a) + multiset{s[k]} + multiset(b);
    assert s[k] !in a && s[k] !in b;
  }

  /** In a directory of at most 256 files a valid file loads exactly when no valid file of smaller path
      has its name and no loaded file of smaller path has its tool name, whatever order the directory is
      listed in. */
  lemma LoadsByPath(files: seq<File>, f: File)
    requires |files| <= 256 && DistinctPaths(files) && f in files && f.load.Ok?
    ensures IsLoaded(files, f) <==>
            && (forall g :: g in files && Earlier(g, f) ==> !HasName(g, f.load.value.name))
            && (f.load.value.tool.Some? ==>
                  forall g :: g in files && Earlier(g, f) && IsLoaded(files, g) ==> !Exposes(g.load.value, f.load.value.tool.value.name))
  {
    var c := Considered(files);
    ConsideredOrdered(files);
    SameMembers(files, c);
    var i :| 0 <= i < |c| && c[i] == f;
    LoadsIff(c, i);
    PositionsAndPaths(files, i, if f.load.value.tool.Some? then f.load.value.tool.value.name else "");
  }

  /** Clauses about the positions before `i` are clauses about the files of smaller path. */
  lemma PositionsAndPaths(files: seq<File>, i: nat, t: string)
    requires |files| <= 256 && DistinctPaths(files) && i < |Considered(files)| && Considered(files)[i].load.Ok?
    ensures var c := Considered(files);
            && (IsLoaded(files, c[i]) <==> LoadsAt(c, i))
            && ((forall j :: 0 <= j < i ==> !HasName(c[j], c[i].load.value.name)) <==>
                (forall g :: g in files && Earlier(g, c[i]) ==> !HasName(g, c[i].load.value.name)))
            && ((forall j :: 0 <= j < i ==> !HoldsTool(c, j, t)) <==>
                (forall g :: g in files && Earlier(g, c[i]) && IsLoaded(files, g) ==> !Exposes(g.load.value, t)))
  {
    var c := Considered(files);
    ConsideredOrdered(files);
    SameMembers(files, c);
    forall j: nat | j < |c|
      ensures (j < i <==> Earlier(c[j], c[i])) && (IsLoaded(files, c[j]) <==> LoadsAt(c, j))
    {
      BeforeIsEarlier(c, j, i);
      LoadedAt(files, j);
    }
    forall g | g in files && Earlier(g, c[i])
      ensures exists j: nat :: j < i && c[j] == g && (HoldsTool(c, j, t) <==> IsLoaded(files, g) && Exposes(g.load.value, t))
    {
      var j: nat :| j < |c| && c[j] == g;
    }
    forall j: nat | j < i
      ensures c[j] in files && Earlier(c[j], c[i])
    {
      assert c[j] in c;
    }
  }

  lemma BeforeIsEarlier(c: seq<File>, j: nat, i: nat)
    requires i < |c| && j < |c| && forall k, l :: 0 <= k < l < |c| ==> Earlier(c[k], c[l])
    ensures j < i <==> Earlier(c[j], c[i])
  {
    EarlierOneWay(c[i], c[j]);
  }

  lemma EarlierOneWay(a: File, b: File)
    ensures !(Earlier(a, b) && Earlier(b, a))
  {
    if StrLe(a.path, b.path) && StrLe(b.path, a.path) {
      StrLeAntisymmetric(a.path, b.path);
    }
  }

  lemma ConsideredOrdered(files: seq<File>)
    requires |files| <= 256 && DistinctPaths(files)
    ensures var c := Considered(files);
            multiset(c) == multiset(files) && DistinctPaths(c) && forall i, j :: 0 <= i < j < |c| ==> Earlier(c[i], c[j])
  {
    var c := Considered(files);
    ConsideredFacts(files);
    OrdersTotal();
    SortSorts(files, ByPath());
    assert |Sort(files, ByPath())| == |files| by {
      assert |multiset(Sort(files, ByPath()))| == |multiset(files)|;
    }
    assert c == Sort(files, ByPath());
    DistinctInAnyOrder(files, c);
  }

  lemma LoadedAt(files: seq<File>, j: nat)
    requires j < |Considered(files)| && DistinctPaths(Considered(files))
    ensures IsLoaded(files, Considered(files)[j]) <==> LoadsAt(Considered(files), j)
  {
    var c := Considered(files);
    ScanExact(files);
    if c[j].load.Ok? {
      var p := Plugin(c[j].load.value, c[j].path);
      assert LoadsAt(c, j) ==> LoadedFrom(c, p, j);
      if p in Listing(files) {
        var i :| 0 <= i < |c| && LoadedFrom(c, p, i);
        assert i == j;
      }
    }
  }

  /** Why a file is skipped: it is invalid, an earlier valid file has its name, or else an earlier loaded
      one has its tool name. */
  lemma ReasonExact(c: seq<File>, i: nat)
    requires i < |c| && !LoadsAt(c, i)
    ensures match ReasonAt(c, i)
            case Invalid(e) => c[i].load == Err(e)
            case DuplicateName(n) => HasName(c[i], n) && exists j :: 0 <= j < i && HasName(c[j], n)
            case DuplicateTool(t) =>
              && c[i].load.Ok? && Exposes(c[i].load.value, t) && (exists j :: 0 <= j < i && HoldsTool(c, j, t))
              && forall j :: 0 <= j < i ==> !HasName(c[j], c[i].load.value.name)
  {
    NamesBelowExact(c, i);
    ToolsBelowExact(c, i);
  }

  // ----- The registry -----

  function OtherEntry(): (Tool, Tool) -> bool {
    (a: Tool, b: Tool) => a.name != b.name
  }

  /** The entries of a scan's plugins, as their manifests generate them, sorted by tool name, one per
      name. */
  ghost predicate IsToolList(files: seq<File>, tools: seq<Tool>) {
    && (forall i, j :: 0 <= i < j < |tools| ==> StrLe(tools[i].name, tools[j].name) && tools[i].name != tools[j].name)
    && forall t :: t in tools <==> exists p :: p in Listing(files) && Advertises(p.manifest, t)
  }

  ghost predicate Advertises(m: PluginManifest, t: Tool) {
    m.tool.Some? && t == ToolFor(m)
  }

  /** A plugin of the scan exposing the name, or none when there is none. */
  ghost predicate IsResolution(files: seq<File>, tool: string, r: Option<Plugin>) {
    match r
    case Some(p) => p in Listing(files) && Exposes(p.manifest, tool)
    case None => forall p :: p in Listing(files) ==> !Exposes(p.manifest, tool)
  }

  /** `listed` holds the entries of the first `n` plugins, one per name. */
  ghost predicate Lists(plugins: seq<Plugin>, n: nat, listed: seq<Tool>) {
    n <= |plugins| && Pairwise(listed, OtherEntry()) && forall t :: t in listed <==> exists j :: 0 <= j < n && Advertises(plugins[j].manifest, t)
  }

  lemma EntryNew(plugins: seq<Plugin>, i: nat, listed: seq<Tool>, t: Tool)
    requires DistinctTools(plugins) && Lists(plugins, i, listed)
    requires i < |plugins| && Advertises(plugins[i].manifest, t)
    ensures Lists(plugins, i + 1, listed + [t])
  {
    forall k | 0 <= k < |listed|
      ensures listed[k].name != t.name
    {
      assert listed[k] in listed;
      var j :| 0 <= j < i && Advertises(plugins[j].manifest, listed[k]);
      ToolsApart(plugins, j, i);
    }
  }

  /** `ToolRegistry::tools`. */
  method Tools(files: seq<File>) returns (tools: seq<Tool>)
    ensures IsToolList(files, tools)
  {
    var plugins, _ := Scan(files);
    var listed: seq<Tool> := [];
    ScanExact(files);
    for i := 0 to |plugins|
      invariant Lists(plugins, i, listed)
    {
      var t := ExposedTool(plugins[i].manifest);
      if t.Some? {
        EntryNew(plugins, i, listed, t.value);
        listed := listed + [t.value];
      }
    }
    tools := Sort(listed, ByToolName());
    SortedEntries(files, listed);
  }

  lemma SortedEntries(files: seq<File>, listed: seq<Tool>)
    requires Lists(Listing(files), |Listing(files)|, listed)
    ensures IsToolList(files, Sort(listed, ByToolName()))
  {
    OrdersTotal();
    SortSorts(listed, ByToolName());
    SortPairwise(listed, ByToolName(), OtherEntry());
    var tools := Sort(listed, ByToolName());
    SameMembers(listed, tools);
    forall i, j | 0 <= i < j < |tools|
      ensures StrLe(tools[i].name, tools[j].name) && tools[i].name != tools[j].name
    {
      assert ByToolName()(tools[i], tools[j]) && OtherEntry()(tools[i], tools[j]);
    }
  }

  /** `ToolRegistry::resolve`: the first plugin of a scan exposing the name. */
  method Resolve(files: seq<File>, tool: string) returns (r: Option<Plugin>)
    ensures IsResolution(files, tool, r)
  {
    var plugins, _ := Scan(files);
    for i := 0 to |plugins|
      invariant forall j :: 0 <= j < i ==> !Exposes(plugins[j].manifest, tool)
    {
      if Exposes(plugins[i].manifest, tool) {
        return Some(plugins[i]);
      }
    }
    return None;
  }

  lemma ToolsApart(ps: seq<Plugin>, i: nat, j: nat)
    requires DistinctTools(ps) && i < |ps| && j < |ps|
    ensures i != j ==> OtherTool()(ps[i], ps[j])
  {
  }

  /** Dispatch and listing agree: a name resolves exactly when it is listed, and then to the only
      plugin that exposes it, whose entry is in the list. */
  lemma ResolveMatchesTools(files: seq<File>, tool: string, r: Option<Plugin>, tools: seq<Tool>)
    requires IsResolution(files, tool, r) && IsToolList(files, tools)
    ensures r.Some? <==> exists t :: t in tools && t.name == tool
    ensures r.Some? ==> r.value.manifest.tool.Some? && ToolFor(r.value.manifest) in tools
    ensures r.Some? ==> forall p :: p in Listing(files) && Exposes(p.manifest, tool) ==> p == r.value
  {
    ScanExact(files);
    if r.Some? {
      assert Advertises(r.value.manifest, ToolFor(r.value.manifest));
      var ps := Listing(files);
      var i :| 0 <= i < |ps| && ps[i] == r.value;
      forall p | p in ps && Exposes(p.manifest, tool)
        ensures p == r.value
      {
        var j :| 0 <= j < |ps| && ps[j] == p;
        ToolsApart(ps, i, j);
      }
    }
  }

  /** Every listed tool dispatches, to a plugin under whose manifest exactly the arguments that conform
      to the listed schema bind. */
  lemma ListedToolBinds(files: seq<File>, tools: seq<Tool>, t: Tool, r: Option<Plugin>)
    requires IsToolList(files, tools) && t in tools && IsResolution(files, t.name, r)
    ensures r.Some? && r.value.manifest.tool.Some? && t == ToolFor(r.value.manifest)
    ensures forall args :: Conforms(t.inputSchema, Obj(args)) <==> BindOk(r.value.manifest.params, args)
  {
    ResolveMatchesTools(files, t.name, r, tools);
    var p :| p in Listing(files) && Advertises(p.manifest, t);
    assert Exposes(p.manifest, t.name);
    SchemaMatches(r.value.manifest.params);
  }
}
