/** Plugin manifests: load-time validation, run-time binding, and the soundness of the static check. */
module Manifest {
  import opened Lexical
  import opened Prelude
  import opened Templates
  import opened Substitution

  const MAX_STEPS: nat := 32
  const MAX_PARAMS: nat := 64
  const MAX_TOOL_DESCRIPTION: nat := 256
  const MANIFEST_VERSION: nat := 1

  datatype ParamSpec = ParamSpec(ty: ParamType, required: bool, description: Option<string>)

  type Params = map<string, ParamSpec>

  datatype Step = Step(tool: string, args: seq<Field>)

  datatype RawTool = RawTool(name: string, description: string, params: Params)

  datatype RawManifest = RawManifest(manifestVersion: Option<nat>, name: string, version: string, description: string,
                                     params: Params, tool: Option<RawTool>, steps: seq<Step>)

  datatype ToolSpec = ToolSpec(name: string, description: string)

  datatype PluginManifest = PluginManifest(name: string, version: string, description: string,
                                           params: Params, steps: seq<Step>, tool: Option<ToolSpec>)

  datatype StepFault =
    | UnknownTool(tool: string)
    | SelfReference(tool: string)
    | DispatchReentry(tool: string)
    | TemplateFault(e: TemplateError)
    | UndeclaredParam(name: string)

  datatype ManifestError =
    | UnsupportedVersion(v: nat)
    | BadPluginName(name: string)
    | NameCollidesWithTool(name: string)
    | BadVersion(version: string)
    | BadParamName(name: string)
    | TooManyParams(n: nat)
    | EmptySteps
    | TooManySteps(n: nat)
    | BadToolName(name: string)
    | ToolNameCollidesWithTool(name: string)
    | ToolDescriptionTooLong(n: nat)
    | ToolParamDuplicate(name: string)
    | InStep(index: nat, fault: StepFault)

  // ----- Grammars -----

  /** `^[a-z][a-z0-9-]{0,63}$`. */
  predicate ValidPluginName(name: string) {
    && 0 < |name| <= 64 && IsLower(name[0])
    && forall i :: 0 < i < |name| ==> IsLower(name[i]) || IsDigit(name[i]) || name[i] == '-'
  }

  /** Text before the first `c`, and the text after it when there is one. */
  function SplitOnce(s: string, c: char): (string, Option<string>) {
    if s == "" then ("", None)
    else if s[0] == c then ("", Some(s[1..]))
    else var (head, tail) := SplitOnce(s[1..], c); ([s[0]] + head, tail)
  }

  /** The pieces of `s` between dots; never empty. */
  function Labels(s: string): (r: seq<string>)
    ensures |r| > 0
  {
    if s == "" then [""]
    else if s[0] == '.' then [""] + Labels(s[1..])
    else var rest := Labels(s[1..]); [[s[0]] + rest[0]] + rest[1..]
  }

  predicate Numeric(s: string) {
    s != "" && forall i :: 0 <= i < |s| ==> IsDigit(s[i])
  }

  predicate IsLabelChar(c: char) {
    IsLower(c) || 'A' <= c <= 'Z' || IsDigit(c) || c == '-'
  }

  predicate DottedLabels(s: string) {
    forall l :: l in Labels(s) ==> l != "" && forall i :: 0 <= i < |l| ==> IsLabelChar(l[i])
  }

  /** MAJOR.MINOR.PATCH with optional `-prerelease` and `+build`. */
  predicate ValidVersion(v: string) {
    var (head, build) := SplitOnce(v, '+');
    var (core, pre) := SplitOnce(head, '-');
    && |Labels(core)| == 3 && (forall l :: l in Labels(core) ==> Numeric(l))
    && (pre.Some? ==> DottedLabels(pre.value)) && (build.Some? ==> DottedLabels(build.value))
  }

  // ----- Declarative acceptance -----

  predicate PluginTool(tool: string) {
    "plugin_" <= tool
  }

  /** `names` are all legal parameter names. */
  ghost predicate LegalNames(names: set<string>) {
    forall n :: n in names ==> ValidParamName(n)
  }

  /** A step names a catalog tool that cannot re-enter plugins, and its templates are well formed over
      declared parameters. */
  ghost predicate StepOk(step: Step, params: Params, catalog: set<string>) {
    && !PluginTool(step.tool) && step.tool != "replay_action" && step.tool in catalog
    && RefsOfFields(step.args).Ok?
    && forall n :: n in RefsOfFields(step.args).value ==> n in params
  }

  ghost predicate ToolOk(tool: RawTool, params: Params, catalog: set<string>) {
    && ValidParamName(tool.name) && tool.name !in catalog
    && |tool.description| <= MAX_TOOL_DESCRIPTION && |tool.params| <= MAX_PARAMS
    && LegalNames(tool.params.Keys) && tool.params.Keys !! params.Keys
  }

  /** The declared parameters, those of the tool section included. */
  function Merged(raw: RawManifest): Params {
    if raw.tool.None? then raw.params else raw.params + raw.tool.value.params
  }

  /** The first `k` document-level conditions, in the order they are checked. */
  ghost predicate Passed(raw: RawManifest, catalog: set<string>, k: nat) {
    && (k >= 1 ==> raw.manifestVersion.None? || raw.manifestVersion == Some(MANIFEST_VERSION))
    && (k >= 2 ==> ValidPluginName(raw.name))
    && (k >= 3 ==> raw.name !in catalog)
    && (k >= 4 ==> ValidVersion(raw.version))
    && (k >= 5 ==> |raw.params| <= MAX_PARAMS)
    && (k >= 6 ==> LegalNames(raw.params.Keys))
    && (k >= 7 ==> raw.tool.Some? ==> ToolOk(raw.tool.value, raw.params, catalog))
    && (k >= 8 ==> |Merged(raw)| <= MAX_PARAMS)
    && (k >= 9 ==> |raw.steps| > 0)
    && (k >= 10 ==> |raw.steps| <= MAX_STEPS)
  }

  ghost predicate Acceptable(raw: RawManifest, catalog: set<string>) {
    && Passed(raw, catalog, 10)
    && forall i :: 0 <= i < |raw.steps| ==> StepOk(raw.steps[i], Merged(raw), catalog)
  }

  // ----- What each error says -----

  ghost predicate ToolCallable(step: Step, catalog: set<string>) {
    !PluginTool(step.tool) && step.tool != "replay_action" && step.tool in catalog
  }

  /** `n` is the first of `refs` that is not declared. */
  ghost predicate FirstUndeclared(refs: seq<string>, params: Params, n: string) {
    exists i :: 0 <= i < |refs| && refs[i] == n && n !in params && forall j :: 0 <= j < i ==> refs[j] in params
  }

  ghost predicate StepFaultTrue(f: StepFault, step: Step, params: Params, catalog: set<string>) {
    match f
    case SelfReference(t) => t == step.tool && PluginTool(t)
    case DispatchReentry(t) => t == step.tool == "replay_action"
    case UnknownTool(t) => t == step.tool && t !in catalog && !PluginTool(t) && t != "replay_action"
    case TemplateFault(e) => ToolCallable(step, catalog) && RefsOfFields(step.args) == Err(e)
    case UndeclaredParam(n) =>
      ToolCallable(step, catalog) && RefsOfFields(step.args).Ok? && FirstUndeclared(RefsOfFields(step.args).value, params, n)
  }

  /** The illegal names among `names`. */
  ghost function Illegal(names: set<string>): set<string> {
    set n | n in names && !ValidParamName(n)
  }

  /** The keys of `own` that are illegal or already taken. */
  ghost function Clashing(own: set<string>, taken: set<string>): set<string> {
    set n | n in own && (!ValidParamName(n) || n in taken)
  }

  /** The first `k` conditions on the tool section, in the order they are checked. */
  ghost predicate ToolPassed(tool: RawTool, catalog: set<string>, k: nat) {
    && (k >= 1 ==> ValidParamName(tool.name))
    && (k >= 2 ==> tool.name !in catalog)
    && (k >= 3 ==> |tool.description| <= MAX_TOOL_DESCRIPTION)
    && (k >= 4 ==> |tool.params| <= MAX_PARAMS)
  }

  ghost predicate ToolErrorTrue(e: ManifestError, tool: RawTool, params: Params, catalog: set<string>) {
    match e
    case BadToolName(n) => n == tool.name && !ValidParamName(n)
    case ToolNameCollidesWithTool(n) => ToolPassed(tool, catalog, 1) && n == tool.name && n in catalog
    case ToolDescriptionTooLong(n) => ToolPassed(tool, catalog, 2) && n == |tool.description| > MAX_TOOL_DESCRIPTION
    case TooManyParams(n) => ToolPassed(tool, catalog, 3) && n == |tool.params| > MAX_PARAMS
    case BadParamName(n) => ToolPassed(tool, catalog, 4) && Least(Clashing(tool.params.Keys, params.Keys), n) && !ValidParamName(n)
    case ToolParamDuplicate(n) => ToolPassed(tool, catalog, 4) && Least(Clashing(tool.params.Keys, params.Keys), n) && ValidParamName(n)
    case _ => false
  }

  /** A violation outside the tool section is there, and everything checked before it is in order. */
  ghost predicate DocumentErrorTrue(e: ManifestError, raw: RawManifest, catalog: set<string>) {
    match e
    case UnsupportedVersion(v) => raw.manifestVersion == Some(v) && v != MANIFEST_VERSION
    case BadPluginName(n) => Passed(raw, catalog, 1) && n == raw.name && !ValidPluginName(n)
    case NameCollidesWithTool(n) => Passed(raw, catalog, 2) && n == raw.name && n in catalog
    case BadVersion(v) => Passed(raw, catalog, 3) && v == raw.version && !ValidVersion(v)
    case TooManyParams(n) =>
      || (Passed(raw, catalog, 4) && n == |raw.params| > MAX_PARAMS)
      || (Passed(raw, catalog, 7) && n == |Merged(raw)| > MAX_PARAMS)
    case BadParamName(n) => Passed(raw, catalog, 5) && Least(Illegal(raw.params.Keys), n)
    case EmptySteps => Passed(raw, catalog, 8) && |raw.steps| == 0
    case TooManySteps(n) => Passed(raw, catalog, 9) && n == |raw.steps| > MAX_STEPS
    case InStep(i, f) => Passed(raw, catalog, 10) && FirstFault(i, f, raw, catalog)
    case _ => false
  }

  /** The same of a violation in the tool section. */
  ghost predicate SectionErrorTrue(e: ManifestError, raw: RawManifest, catalog: set<string>) {
    raw.tool.Some? && Passed(raw, catalog, 6) && ToolErrorTrue(e, raw.tool.value, raw.params, catalog)
  }

  /** The violation an error reports is there, and everything checked before it is in order. */
  ghost predicate ErrorTrue(e: ManifestError, raw: RawManifest, catalog: set<string>) {
    DocumentErrorTrue(e, raw, catalog) || SectionErrorTrue(e, raw, catalog)
  }

  /** Step `i` is the first offending one. */
  ghost predicate FirstFault(i: nat, f: StepFault, raw: RawManifest, catalog: set<string>) {
    && i < |raw.steps| && StepFaultTrue(f, raw.steps[i], Merged(raw), catalog)
    && forall j :: 0 <= j < i ==> StepOk(raw.steps[j], Merged(raw), catalog)
  }

  // ----- The validator -----

  /** Every key of `names` in order, stopping at the first illegal one. */
  method CheckNames(names: set<string>) returns (bad: Option<string>)
    ensures bad.None? <==> LegalNames(names)
    ensures bad.Some? ==> Least(Illegal(names), bad.value)
  {
    var todo := names;
    while todo != {}
      invariant todo <= names && forall n :: n in names && n !in todo ==> ValidParamName(n)
      decreases |todo|
    {
      LeastExists(todo);
      var n :| Least(todo, n);
      if !ValidParamName(n) {
        return Some(n);
      }
      todo := todo - {n};
    }
    return None;
  }

  /** `validate_tool`: also returns the parameter map with the tool's own entries inserted. */
  method ValidateTool(tool: RawTool, params: Params, catalog: set<string>)
    returns (r: Result<ToolSpec, ManifestError>, merged: Params)
    ensures r.Ok? <==> ToolOk(tool, params, catalog)
    ensures r.Ok? ==> r.value == ToolSpec(tool.name, tool.description) && merged == params + tool.params
    ensures r.Err? ==> ToolErrorTrue(r.error, tool, params, catalog)
  {
    merged := params;
    if !ValidParamName(tool.name) {
      return Err(BadToolName(tool.name)), merged;
    }
    if tool.name in catalog {
      return Err(ToolNameCollidesWithTool(tool.name)), merged;
    }
    if |tool.description| > MAX_TOOL_DESCRIPTION {
      return Err(ToolDescriptionTooLong(|tool.description|)), merged;
    }
    if |tool.params| > MAX_PARAMS {
      return Err(TooManyParams(|tool.params|)), merged;
    }
    var clash;
    clash, merged := InsertAll(tool.params, params);
    if clash.Some? {
      var n := clash.value;
      return Err(if !ValidParamName(n) then BadParamName(n) else ToolParamDuplicate(n)), merged;
    }
    return Ok(ToolSpec(tool.name, tool.description)), merged;
  }

  /** Loop state: the entries of `own` outside `todo` are legal, were undeclared, and are in. */
  ghost predicate Inserted(own: Params, params: Params, todo: set<string>, merged: Params) {
    && todo <= own.Keys
    && (forall n :: n in merged <==> n in params || (n in own && n !in todo))
    && (forall n :: n in own && n !in todo ==> ValidParamName(n) && n !in params && merged[n] == own[n])
    && (forall n :: n in params ==> merged[n] == params[n])
  }

  lemma DisjointUnion<K, V>(m: map<K, V>, a: map<K, V>, b: map<K, V>)
    requires m.Keys == a.Keys + b.Keys
    requires forall n :: n in a && n !in b ==> m[n] == a[n]
    requires forall n :: n in b ==> m[n] == b[n]
    ensures m == a + b
  {
  }

  /** The insertion loop of `validate_tool`: the entries of `own` in key order, stopping at the first
      whose key is not legal or already there. */
  method InsertAll(own: Params, params: Params) returns (clash: Option<string>, merged: Params)
    ensures clash.None? ==> LegalNames(own.Keys) && own.Keys !! params.Keys && merged == params + own
    ensures clash.Some? ==> Least(Clashing(own.Keys, params.Keys), clash.value)
  {
    merged, clash := params, None;
    var todo := own.Keys;
    while todo != {}
      invariant Inserted(own, params, todo, merged)
      decreases todo
    {
      LeastExists(todo);
      var n :| Least(todo, n);
      if !ValidParamName(n) || n in merged {
        return Some(n), merged;
      }
      merged := merged[n := own[n]];
      todo := todo - {n};
    }
    DisjointUnion(merged, params, own);
  }

  /** The per-step checks, in order. */
  method ValidateStep(step: Step, params: Params, catalog: set<string>) returns (r: Option<StepFault>)
    ensures r.None? <==> StepOk(step, params, catalog)
    ensures r.Some? ==> StepFaultTrue(r.value, step, params, catalog)
  {
    if PluginTool(step.tool) {
      return Some(SelfReference(step.tool));
    }
    if step.tool == "replay_action" {
      return Some(DispatchReentry(step.tool));
    }
    if step.tool !in catalog {
      return Some(UnknownTool(step.tool));
    }
    var refs: Refs := Ok([]);
    JoinNil(RefsOfFields(step.args));
    assert step.args[0..] == step.args;
    for i := 0 to |step.args|
      invariant refs.Ok? && RefsOfFields(step.args) == Join(refs, RefsOfFields(step.args[i..]))
    {
      var before := refs;
      refs := CollectRefs(step.args[i].value, refs.value);
      assert step.args[i..][1..] == step.args[i + 1..];
      JoinAssoc(before, RefsOf(step.args[i].value), RefsOfFields(step.args[i + 1..]));
      if refs.Err? {
        return Some(TemplateFault(refs.error));
      }
    }
    JoinNil(refs);
    for i := 0 to |refs.value|
      invariant forall j :: 0 <= j < i ==> refs.value[j] in params
    {
      if refs.value[i] !in params {
        return Some(UndeclaredParam(refs.value[i]));
      }
    }
    return None;
  }

  /** The checks made before the tool section is looked at. */
  method CheckHeader(raw: RawManifest, catalog: set<string>) returns (e: Option<ManifestError>)
    ensures e.None? <==> Passed(raw, catalog, 6)
    ensures e.Some? ==> ErrorTrue(e.value, raw, catalog)
  {
    if raw.manifestVersion.Some? && raw.manifestVersion.value != MANIFEST_VERSION {
      return Some(UnsupportedVersion(raw.manifestVersion.value));
    }
    if !ValidPluginName(raw.name) {
      return Some(BadPluginName(raw.name));
    }
    if raw.name in catalog {
      return Some(NameCollidesWithTool(raw.name));
    }
    if !ValidVersion(raw.version) {
      return Some(BadVersion(raw.version));
    }
    if |raw.params| > MAX_PARAMS {
      return Some(TooManyParams(|raw.params|));
    }
    var bad := CheckNames(raw.params.Keys);
    return if bad.Some? then Some(BadParamName(bad.value)) else None;
  }

  /** The checks made once the parameters are merged. */
  method CheckBody(raw: RawManifest, params: Params, catalog: set<string>) returns (e: Option<ManifestError>)
    requires Passed(raw, catalog, 7) && params == Merged(raw)
    ensures e.None? <==> Acceptable(raw, catalog)
    ensures e.Some? ==> ErrorTrue(e.value, raw, catalog)
  {
    if |params| > MAX_PARAMS {
      return Some(TooManyParams(|params|));
    }
    if |raw.steps| == 0 {
      return Some(EmptySteps);
    }
    if |raw.steps| > MAX_STEPS {
      return Some(TooManySteps(|raw.steps|));
    }
    for i := 0 to |raw.steps|
      invariant forall j :: 0 <= j < i ==> StepOk(raw.steps[j], params, catalog)
    {
      var fault := ValidateStep(raw.steps[i], params, catalog);
      if fault.Some? {
        assert FirstFault(i, fault.value, raw, catalog);
        return Some(InStep(i, fault.value));
      }
    }
    return None;
  }

  /** `validate`: accepts exactly the acceptable manifests, carrying every field over and merging the
      two parameter sites; every error reports the first violation in checking order. */
  method Validate(raw: RawManifest, catalog: set<string>) returns (r: Result<PluginManifest, ManifestError>)
    ensures r.Ok? <==> Acceptable(raw, catalog)
    ensures r.Ok? ==> r.value == Validated(raw) && CarriesOver(r.value, raw)
    ensures r.Err? ==> ErrorTrue(r.error, raw, catalog)
  {
    var e := CheckHeader(raw, catalog);
    if e.Some? {
      return Err(e.value);
    }
    var params, tool := raw.params, None;
    if raw.tool.Some? {
      var t;
      t, params := ValidateTool(raw.tool.value, params, catalog);
      if t.Err? {
        return Err(t.error);
      }
      tool := Some(t.value);
    }
    e := CheckBody(raw, params, catalog);
    if e.Some? {
      return Err(e.value);
    }
    return Ok(PluginManifest(raw.name, raw.version, raw.description, params, raw.steps, tool));
  }

  /** Every field of the document is carried over, and the parameters are those of both sites. */
  ghost predicate CarriesOver(m: PluginManifest, raw: RawManifest) {
    && m.name == raw.name && m.version == raw.version && m.description == raw.description && m.steps == raw.steps
    && (raw.tool.None? ==> m.tool.None? && m.params == raw.params)
    && (raw.tool.Some? ==>
          && m.tool.Some? && m.tool.value.name == raw.tool.value.name && m.tool.value.description == raw.tool.value.description
          && m.params.Keys == raw.params.Keys + raw.tool.value.params.Keys && raw.params.Keys !! raw.tool.value.params.Keys
          && (forall n :: n in raw.params ==> m.params[n] == raw.params[n])
          && (forall n :: n in raw.tool.value.params ==> m.params[n] == raw.tool.value.params[n]))
  }

  /** Acceptance spelled out: the limits, the grammars, and for every step a callable tool and
      templates over declared parameters. */
  lemma AcceptedExactly(raw: RawManifest, catalog: set<string>)
    ensures Acceptable(raw, catalog) <==>
            && (raw.manifestVersion == None || raw.manifestVersion == Some(1))
            && ValidPluginName(raw.name) && raw.name !in catalog && ValidVersion(raw.version)
            && 1 <= |raw.steps| <= 32 && |Merged(raw)| <= 64 && |raw.params| <= 64
            && (forall n :: n in raw.params ==> ValidParamName(n))
            && (raw.tool.Some? ==>
                  var t := raw.tool.value;
                  && ValidParamName(t.name) && t.name !in catalog && |t.description| <= 256 && |t.params| <= 64
                  && forall n :: n in t.params ==> ValidParamName(n) && n !in raw.params)
            && (forall i :: 0 <= i < |raw.steps| ==> StepCallable(raw.steps[i], catalog) && StepDeclared(raw.steps[i], Merged(raw)))
  {
    forall i | 0 <= i < |raw.steps|
      ensures StepOk(raw.steps[i], Merged(raw), catalog)
              <==> StepCallable(raw.steps[i], catalog) && StepDeclared(raw.steps[i], Merged(raw))
    {
    }
  }

  ghost predicate StepCallable(step: Step, catalog: set<string>) {
    step.tool in catalog && !("plugin_" <= step.tool) && step.tool != "replay_action"
  }

  ghost predicate StepDeclared(step: Step, params: Params) {
    RefsOfFields(step.args).Ok? && forall n :: n in RefsOfFields(step.args).value ==> n in params
  }

  /** A legal plugin name is 1 to 64 characters: a letter of the table, then letters, digits and
      hyphens. */
  lemma PluginNameGrammar(n: string)
    ensures ValidPluginName(n) <==>
            && 1 <= |n| <= 64 && n[0] in LOWER_LETTERS
            && forall i :: 1 <= i < |n| ==> n[i] in LOWER_LETTERS || n[i] in DIGITS || n[i] == '-'
  {
    forall c: char
      ensures (IsLower(c) <==> c in LOWER_LETTERS) && (IsDigit(c) <==> c in DIGITS)
    {
      CharTables(c);
    }
  }

  /** The characters of a version label. */
  lemma LabelChars(c: char)
    ensures IsLabelChar(c) <==>
            c in LOWER_LETTERS || c in DIGITS || c == '-' || ('A' <= c <= 'Z' && (c as int + 32) as char in LOWER_LETTERS)
  {
    CharTables(c);
    if 'A' <= c <= 'Z' {
      CharTables((c as int + 32) as char);
    }
  }

  /** The manifest an accepted document denotes. */
  function Validated(raw: RawManifest): PluginManifest {
    PluginManifest(raw.name, raw.version, raw.description, Merged(raw), raw.steps,
                   if raw.tool.None? then None
                   else Some(ToolSpec(raw.tool.value.name, raw.tool.value.description)))
  }

  // ----- Errors are determined -----

  lemma StepFaultDetermined(f: StepFault, g: StepFault, step: Step, params: Params, catalog: set<string>)
    requires StepFaultTrue(f, step, params, catalog)
    ensures !StepOk(step, params, catalog)
    ensures StepFaultTrue(g, step, params, catalog) ==> f == g
  {
    assert "replay_action"[0] != "plugin_"[0];
    if f.UndeclaredParam? && StepFaultTrue(g, step, params, catalog) && g.UndeclaredParam? {
      FirstUndeclaredUnique(RefsOfFields(step.args).value, params, f.name, g.name);
    }
  }

  lemma FirstUndeclaredUnique(refs: seq<string>, params: Params, a: string, b: string)
    requires FirstUndeclared(refs, params, a) && FirstUndeclared(refs, params, b)
    ensures a == b
  {
    var i :| 0 <= i < |refs| && refs[i] == a && a !in params && forall j :: 0 <= j < i ==> refs[j] in params;
    var k :| 0 <= k < |refs| && refs[k] == b && b !in params && forall j :: 0 <= j < k ==> refs[j] in params;
    assert i == k;
  }

  lemma ToolErrorDetermined(e: ManifestError, f: ManifestError, tool: RawTool, params: Params, catalog: set<string>)
    requires ToolErrorTrue(e, tool, params, catalog)
    ensures !ToolOk(tool, params, catalog)
    ensures ToolErrorTrue(f, tool, params, catalog) ==> e == f
  {
    var clashing := Clashing(tool.params.Keys, params.Keys);
    forall a, b | Least(clashing, a) && Least(clashing, b)
      ensures a == b
    {
      LeastUnique(clashing, a, b);
    }
  }

  lemma FirstFaultDetermined(i: nat, f: StepFault, j: nat, g: StepFault, raw: RawManifest, catalog: set<string>)
    requires FirstFault(i, f, raw, catalog) && FirstFault(j, g, raw, catalog)
    ensures i == j && f == g && !StepOk(raw.steps[i], Merged(raw), catalog)
  {
    StepFaultDetermined(f, g, raw.steps[i], Merged(raw), catalog);
    StepFaultDetermined(g, f, raw.steps[j], Merged(raw), catalog);
  }

  lemma DocumentErrorDetermined(e: ManifestError, f: ManifestError, raw: RawManifest, catalog: set<string>)
    requires DocumentErrorTrue(e, raw, catalog) && DocumentErrorTrue(f, raw, catalog)
    ensures e == f && !Acceptable(raw, catalog)
  {
    if e.InStep? {
      FirstFaultDetermined(e.index, e.fault, e.index, e.fault, raw, catalog);
      if f.InStep? {
        FirstFaultDetermined(e.index, e.fault, f.index, f.fault, raw, catalog);
      }
    }
    if e.BadParamName? && f.BadParamName? {
      LeastUnique(Illegal(raw.params.Keys), e.name, f.name);
    }
  }

  lemma SectionErrorAlone(e: ManifestError, f: ManifestError, raw: RawManifest, catalog: set<string>)
    requires SectionErrorTrue(e, raw, catalog)
    ensures !DocumentErrorTrue(f, raw, catalog) && !Passed(raw, catalog, 7)
    ensures SectionErrorTrue(f, raw, catalog) ==> e == f
  {
    ToolErrorDetermined(e, f, raw.tool.value, raw.params, catalog);
  }

  /** A rejected manifest has exactly one true complaint: the errors above pin down which of several
      violations is reported. */
  lemma ErrorDetermined(e: ManifestError, f: ManifestError, raw: RawManifest, catalog: set<string>)
    requires ErrorTrue(e, raw, catalog) && ErrorTrue(f, raw, catalog)
    ensures e == f && !Acceptable(raw, catalog)
  {
    if SectionErrorTrue(e, raw, catalog) {
      SectionErrorAlone(e, f, raw, catalog);
    } else if SectionErrorTrue(f, raw, catalog) {
      SectionErrorAlone(f, e, raw, catalog);
    } else {
      DocumentErrorDetermined(e, f, raw, catalog);
    }
  }

  // ----- Binding -----

  function Keys(fields: seq<Field>): set<string> {
    set f | f in fields :: f.key
  }

  /** The map an object denotes. */
  function MapOf(fields: seq<Field>): (m: Bound)
    ensures m.Keys == Keys(fields)
  {
    if |fields| == 0 then map[]
    else
      var last := fields[|fields| - 1];
      var rest := fields[..|fields| - 1];
      assert fields == rest + [last];
      MapOf(rest)[last.key := last.value]
  }

  /** A key is bound to the value of its last member. */
  lemma {:induction false} MapOfLast(fields: seq<Field>, i: nat)
    requires i < |fields| && forall j :: i < j < |fields| ==> fields[j].key != fields[i].key
    ensures fields[i].key in MapOf(fields) && MapOf(fields)[fields[i].key] == fields[i].value
    decreases |fields|
  {
    if i < |fields| - 1 {
      MapOfLast(fields[..|fields| - 1], i);
    }
  }

  ghost predicate FieldOk(f: Field, params: Params) {
    f.key in params && params[f.key].ty.Accepts(f.value)
  }

  /** Every supplied member is declared and of its type, and nothing required is missing. */
  ghost predicate BindOk(params: Params, supplied: seq<Field>) {
    && (forall f :: f in supplied ==> FieldOk(f, params))
    && forall n :: n in params && params[n].required ==> n in Keys(supplied)
  }

  /** Member `i` is the first offending one. */
  ghost predicate FirstBad(params: Params, supplied: seq<Field>, i: nat) {
    i < |supplied| && !FieldOk(supplied[i], params) && AllOk(supplied[..i], params)
  }

  /** The complaint is true: about the first offending member, or about the least missing required one. */
  ghost predicate BindErrorTrue(e: ParamError, params: Params, supplied: seq<Field>) {
    match e
    case Unknown(n) =>
      exists i: nat :: FirstBad(params, supplied, i) && supplied[i].key == n && n !in params
    case WrongType(n, t) =>
      exists i: nat :: FirstBad(params, supplied, i) && supplied[i].key == n && n in params && t == params[n].ty
    case Missing(n) => Least(Absent(params, Keys(supplied)), n) && AllOk(supplied, params)
    case _ => false
  }

  /** The required parameters that are not among `given`. */
  ghost function Absent(params: Params, given: set<string>): set<string> {
    set n | n in params && params[n].required && n !in given
  }

  ghost predicate AllOk(fields: seq<Field>, params: Params) {
    forall f :: f in fields ==> FieldOk(f, params)
  }

  /** `bind_params`. */
  method BindParams(m: PluginManifest, supplied: seq<Field>) returns (r: Result<Bound, ParamError>)
    ensures r.Ok? <==> BindOk(m.params, supplied)
    ensures r.Ok? ==> r.value == MapOf(supplied)
    ensures r.Err? ==> BindErrorTrue(r.error, m.params, supplied)
  {
    var bound: Bound := map[];
    for i := 0 to |supplied|
      invariant bound == MapOf(supplied[..i]) && AllOk(supplied[..i], m.params)
    {
      var f := supplied[i];
      assert supplied[..i + 1] == supplied[..i] + [f];
      if f.key !in m.params {
        assert FirstBad(m.params, supplied, i);
        return Err(Unknown(f.key));
      }
      var spec := m.params[f.key];
      if !spec.ty.Accepts(f.value) {
        assert FirstBad(m.params, supplied, i);
        return Err(WrongType(f.key, spec.ty));
      }
      bound := bound[f.key := f.value];
    }
    assert supplied[..|supplied|] == supplied;
    var missing := CheckRequired(m.params, bound);
    return if missing.Some? then Err(Missing(missing.value)) else Ok(bound);
  }

  /** The second loop of `bind_params`: every parameter in name order, stopping at the first required
      one that is not bound. */
  method CheckRequired(params: Params, bound: Bound) returns (missing: Option<string>)
    ensures missing.None? <==> forall n :: n in params && params[n].required ==> n in bound
    ensures missing.Some? ==> Least(Absent(params, bound.Keys), missing.value)
  {
    var todo := params.Keys;
    while todo != {}
      invariant todo <= params.Keys
      invariant forall n :: n in params && n !in todo && params[n].required ==> n in bound
      decreases |todo|
    {
      LeastExists(todo);
      var n :| Least(todo, n);
      if params[n].required && n !in bound {
        return Some(n);
      }
      todo := todo - {n};
    }
    return None;
  }

  lemma BeforeFirstBad(params: Params, supplied: seq<Field>, i: nat, j: nat)
    requires i < j && FirstBad(params, supplied, j)
    ensures FieldOk(supplied[i], params)
  {
    assert supplied[i] in supplied[..j];
  }

  lemma FirstBadUnique(params: Params, supplied: seq<Field>, i: nat, j: nat)
    requires FirstBad(params, supplied, i) && FirstBad(params, supplied, j)
    ensures i == j && !AllOk(supplied, params)
  {
    if i < j {
      BeforeFirstBad(params, supplied, i, j);
    } else if j < i {
      BeforeFirstBad(params, supplied, j, i);
    }
  }

  /** Rejected arguments have exactly one true complaint. */
  lemma BindErrorDetermined(e: ParamError, f: ParamError, params: Params, supplied: seq<Field>)
    requires BindErrorTrue(e, params, supplied) && BindErrorTrue(f, params, supplied)
    ensures e == f && !BindOk(params, supplied)
  {
    forall i: nat, j: nat | FirstBad(params, supplied, i) && FirstBad(params, supplied, j)
      ensures i == j && !AllOk(supplied, params)
    {
      FirstBadUnique(params, supplied, i, j);
    }
    if e.Missing? && f.Missing? && Least(Absent(params, Keys(supplied)), e.name) {
      LeastUnique(Absent(params, Keys(supplied)), e.name, f.name);
    }
  }

  // ----- Soundness of the static check -----

  /** For an accepted manifest and accepted arguments, substituting any step succeeds exactly when
      every parameter the step refers to is bound, and the only failure there is names the first
      unbound one: declared, optional and not supplied. Template faults and missing required
      parameters cannot happen. */
  lemma StaticCheckSound(raw: RawManifest, catalog: set<string>, supplied: seq<Field>, i: nat, render: Render)
    requires Acceptable(raw, catalog) && i < |raw.steps| && BindOk(Merged(raw), supplied)
    ensures var (m, bound) := (Validated(raw), MapOf(supplied));
            var r := SubstituteArgs(m.steps[i].args, bound, render);
            && RefsOfFields(m.steps[i].args).Ok?
            && (r.Ok? <==> forall n :: n in RefsOfFields(m.steps[i].args).value ==> n in Keys(supplied))
            && (r.Err? ==> r.error.Unsupplied? && FirstUnbound(RefsOfFields(m.steps[i].args).value, bound) == Some(r.error.name)
                           && r.error.name in m.params && !m.params[r.error.name].required && r.error.name !in Keys(supplied))
  {
    var m := Validated(raw);
    var args := m.steps[i].args;
    assert StepOk(raw.steps[i], Merged(raw), catalog);
    SubstituteArgsResolves(args, MapOf(supplied), render);
    FirstUnboundExact(RefsOfFields(args).value, MapOf(supplied));
  }
}
