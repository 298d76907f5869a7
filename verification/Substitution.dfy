/** JSON values, the references a value holds, and run-time substitution. */
module Substitution {
  import opened Prelude
  import opened Templates

  /** A JSON document. A number is its rendered text; an object lists its members in the map's
      iteration order. */
  datatype Value =
    | Null
    | Bool(b: bool)
    | Number(text: string)
    | Str(s: string)
    | Arr(items: seq<Value>)
    | Obj(fields: seq<Field>)

  datatype Field = Field(key: string, value: Value)

  // ----- References -----

  function RefNames(segs: seq<Segment>): seq<string> {
    if |segs| == 0 then []
    else (match segs[0] case Ref(n) => [n] case Lit(_) => []) + RefNames(segs[1..])
  }

  type Refs = Result<seq<string>, TemplateError>

  function Join(a: Refs, b: Refs): Refs {
    match (a, b)
    case (Ok(x), Ok(y)) => Ok(x + y)
    case (Ok(_), Err(e)) => Err(e)
    case (Err(e), _) => Err(e)
  }

  /** Every reference of a value in traversal order, or the first template fault. */
  function RefsOf(v: Value): Refs {
    match v
    case Str(s) =>
      (match Parse(s)
       case Ok(segs) => Ok(RefNames(segs))
       case Err(e) => Err(e))
    case Arr(items) => RefsOfAll(items)
    case Obj(fields) => RefsOfFields(fields)
    case _ => Ok([])
  }

  function RefsOfAll(items: seq<Value>): Refs {
    if |items| == 0 then Ok([]) else Join(RefsOf(items[0]), RefsOfAll(items[1..]))
  }

  function RefsOfFields(fields: seq<Field>): Refs {
    if |fields| == 0 then Ok([])
    else
      assert fields[0].value < fields[0];
      Join(RefsOf(fields[0].value), RefsOfFields(fields[1..]))
  }

  lemma JoinAssoc(a: Refs, b: Refs, c: Refs)
    ensures Join(Join(a, b), c) == Join(a, Join(b, c))
  {
    if a.Ok? && b.Ok? && c.Ok? {
      assert a.value + b.value + c.value == a.value + (b.value + c.value);
    }
  }

  lemma JoinNil(a: Refs)
    ensures Join(a, Ok([])) == a && Join(Ok([]), a) == a
  {
    if a.Ok? {
      assert a.value + [] == a.value && [] + a.value == a.value;
    }
  }

  lemma {:induction false} RefNamesConcat(a: seq<Segment>, b: seq<Segment>)
    ensures RefNames(a + b) == RefNames(a) + RefNames(b)
  {
    if |a| == 0 {
      assert a + b == b;
    } else {
      assert (a + b)[1..] == a[1..] + b;
      RefNamesConcat(a[1..], b);
    }
  }

  /** `collect_refs`: append the references of `v` to `refs`. */
  method CollectRefs(v: Value, refs: seq<string>) returns (r: Refs)
    ensures r == Join(Ok(refs), RefsOf(v))
    decreases v
  {
    r := Ok(refs);
    JoinNil(r);
    match v {
      case Str(s) =>
        var segs := ParseTemplate(s);
        if segs.Err? {
          return Err(segs.error);
        }
        var out := refs;
        for i := 0 to |segs.value|
          invariant out == refs + RefNames(segs.value[..i])
        {
          assert segs.value[..i + 1] == segs.value[..i] + [segs.value[i]];
          RefNamesConcat(segs.value[..i], [segs.value[i]]);
          assert [segs.value[i]][1..] == [];
          if segs.value[i].Ref? {
            out := out + [segs.value[i].name];
          }
        }
        assert segs.value[..|segs.value|] == segs.value;
        return Ok(out);
      case Arr(items) =>
        assert items[0..] == items;
        for i := 0 to |items|
          invariant r.Ok? && Join(Ok(refs), RefsOfAll(items)) == Join(r, RefsOfAll(items[i..]))
        {
          var before := r;
          r := CollectRefs(items[i], r.value);
          assert items[i..][1..] == items[i + 1..];
          JoinAssoc(before, RefsOf(items[i]), RefsOfAll(items[i + 1..]));
          if r.Err? {
            return;
          }
        }
        JoinNil(r);
      case Obj(fields) =>
        assert fields[0..] == fields;
        for i := 0 to |fields|
          invariant r.Ok? && Join(Ok(refs), RefsOfFields(fields)) == Join(r, RefsOfFields(fields[i..]))
        {
          var before := r;
          assert fields[i].value < fields[i];
          r := CollectRefs(fields[i].value, r.value);
          assert fields[i..][1..] == fields[i + 1..];
          JoinAssoc(before, RefsOf(fields[i].value), RefsOfFields(fields[i + 1..]));
          if r.Err? {
            return;
          }
        }
        JoinNil(r);
      case _ =>
    }
  }

  // ----- Substitution -----

  datatype ParamError =
    | Missing(name: string)
    | Unknown(name: string)
    | WrongType(name: string, expected: ParamType)
    | Unsupplied(name: string)
    | Template(e: TemplateError)

  datatype ParamType = StringT | NumberT | BooleanT {
    predicate Accepts(v: Value) {
      match this
      case StringT => v.Str?
      case NumberT => v.Number?
      case BooleanT => v.Bool?
    }
  }

  type Bound = map<string, Value>

  /** JSON text of a non-string value inside a larger string: any rendering. */
  type Render = Value -> string

  function Piece(v: Value, render: Render): string {
    if v.Str? then v.s else render(v)
  }

  /** The string-building loop: literals and bound values in order, stopping at the first reference
      that is not bound. */
  function Fill(segs: seq<Segment>, bound: Bound, render: Render): Result<string, ParamError> {
    if |segs| == 0 then Ok("")
    else match segs[0]
      case Ref(n) =>
        if n !in bound then Err(Unsupplied(n)) else Cat(Piece(bound[n], render), Fill(segs[1..], bound, render))
      case Lit(t) => Cat(t, Fill(segs[1..], bound, render))
  }

  function Cat(head: string, rest: Result<string, ParamError>): Result<string, ParamError> {
    match rest
    case Ok(s) => Ok(head + s)
    case Err(e) => Err(e)
  }

  /** `substitute_value`. */
  function Substitute(v: Value, bound: Bound, render: Render): Result<Value, ParamError> {
    match v
    case Str(s) =>
      (match Parse(s)
       case Err(e) => Err(Template(e))
       case Ok(segs) =>
         if |segs| == 1 && segs[0].Ref? then
           if segs[0].name in bound then Ok(bound[segs[0].name]) else Err(Unsupplied(segs[0].name))
         else
           match Fill(segs, bound, render)
           case Ok(t) => Ok(Str(t))
           case Err(e) => Err(e))
    case Arr(items) =>
      (match SubstituteAll(items, bound, render)
       case Ok(vs) => Ok(Arr(vs))
       case Err(e) => Err(e))
    case Obj(fields) =>
      (match SubstituteArgs(fields, bound, render)
       case Ok(fs) => Ok(Obj(fs))
       case Err(e) => Err(e))
    case _ => Ok(v)
  }

  function SubstituteAll(items: seq<Value>, bound: Bound, render: Render): Result<seq<Value>, ParamError> {
    if |items| == 0 then Ok([])
    else match Substitute(items[0], bound, render)
      case Err(e) => Err(e)
      case Ok(v) =>
        match SubstituteAll(items[1..], bound, render)
        case Err(e) => Err(e)
        case Ok(vs) => Ok([v] + vs)
  }

  /** `substitute_args`. */
  function SubstituteArgs(fields: seq<Field>, bound: Bound, render: Render): Result<seq<Field>, ParamError> {
    if |fields| == 0 then Ok([])
    else
      assert fields[0].value < fields[0];
      match Substitute(fields[0].value, bound, render)
      case Err(e) => Err(e)
      case Ok(v) =>
        match SubstituteArgs(fields[1..], bound, render)
        case Err(e) => Err(e)
        case Ok(fs) => Ok([Field(fields[0].key, v)] + fs)
  }

  // ----- When substitution succeeds -----

  /** The first name that is not bound. */
  function FirstUnbound(refs: seq<string>, bound: Bound): Option<string> {
    if |refs| == 0 then None
    else if refs[0] !in bound then Some(refs[0])
    else FirstUnbound(refs[1..], bound)
  }

  lemma {:induction false} FirstUnboundConcat(a: seq<string>, b: seq<string>, bound: Bound)
    ensures FirstUnbound(a + b, bound) == if FirstUnbound(a, bound).Some? then FirstUnbound(a, bound) else FirstUnbound(b, bound)
  {
    if |a| == 0 {
      assert a + b == b;
    } else {
      assert (a + b)[1..] == a[1..] + b;
      FirstUnboundConcat(a[1..], b, bound);
    }
  }

  lemma {:induction false} FirstUnboundExact(refs: seq<string>, bound: Bound)
    ensures FirstUnbound(refs, bound).None? <==> forall n :: n in refs ==> n in bound
    ensures FirstUnbound(refs, bound).Some? ==>
              FirstUnbound(refs, bound).value in refs && FirstUnbound(refs, bound).value !in bound
  {
    if |refs| > 0 {
      FirstUnboundExact(refs[1..], bound);
    }
  }

  /** Outcome of a substitution whose references are `refs`: success, or the first unbound one. */
  ghost predicate Resolves<T>(r: Result<T, ParamError>, refs: seq<string>, bound: Bound) {
    match FirstUnbound(refs, bound)
    case None => r.Ok?
    case Some(n) => r == Err(Unsupplied(n))
  }

  lemma {:induction false} FillResolves(segs: seq<Segment>, bound: Bound, render: Render)
    ensures Resolves(Fill(segs, bound, render), RefNames(segs), bound)
  {
    if |segs| > 0 {
      FillResolves(segs[1..], bound, render);
      match segs[0]
      case Ref(n) => assert RefNames(segs)[1..] == RefNames(segs[1..]);
      case Lit(_) => assert RefNames(segs) == RefNames(segs[1..]);
    }
  }

  /** Substitution of a well-formed value fails only on its first unbound reference. */
  lemma {:induction false} SubstituteResolves(v: Value, bound: Bound, render: Render)
    requires RefsOf(v).Ok?
    ensures Resolves(Substitute(v, bound, render), RefsOf(v).value, bound)
    decreases v
  {
    match v {
      case Str(s) =>
        var segs := Parse(s).value;
        FillResolves(segs, bound, render);
        if |segs| == 1 && segs[0].Ref? {
          assert segs[1..] == [];
          assert RefNames(segs) == [segs[0].name];
        }
      case Arr(items) => SubstituteAllResolves(items, bound, render);
      case Obj(fields) => SubstituteArgsResolves(fields, bound, render);
      case _ =>
    }
  }

  lemma {:induction false} SubstituteAllResolves(items: seq<Value>, bound: Bound, render: Render)
    requires RefsOfAll(items).Ok?
    ensures Resolves(SubstituteAll(items, bound, render), RefsOfAll(items).value, bound)
    decreases items
  {
    if |items| > 0 {
      SubstituteResolves(items[0], bound, render);
      SubstituteAllResolves(items[1..], bound, render);
      FirstUnboundConcat(RefsOf(items[0]).value, RefsOfAll(items[1..]).value, bound);
    }
  }

  lemma {:induction false} SubstituteArgsResolves(fields: seq<Field>, bound: Bound, render: Render)
    requires RefsOfFields(fields).Ok?
    ensures Resolves(SubstituteArgs(fields, bound, render), RefsOfFields(fields).value, bound)
    decreases fields
  {
    if |fields| > 0 {
      assert fields[0].value < fields[0];
      SubstituteResolves(fields[0].value, bound, render);
      SubstituteArgsResolves(fields[1..], bound, render);
      FirstUnboundConcat(RefsOf(fields[0].value).value, RefsOfFields(fields[1..]).value, bound);
    }
  }

  // ----- What success yields -----

  /** A string that is exactly one placeholder yields the bound value with its JSON type. */
  lemma PlaceholderKeepsType(n: string, bound: Bound, render: Render)
    requires ValidParamName(n) && n in bound
    ensures Substitute(Str("${" + n + "}"), bound, render) == Ok(bound[n])
  {
    assert NormalAt([Ref(n)], 0) && [Ref(n)][1..] == [];
    assert Print([Ref(n)]) == "${" + n + "}" + "";
    assert "${" + n + "}" + "" == "${" + n + "}";
    ParsePrint([Ref(n)]);
  }

  /** Escaped text passes through as itself whatever is bound. */
  lemma EscapedTextUnchanged(t: string, bound: Bound, render: Render)
    ensures Substitute(Str(Escape(t)), bound, render) == Ok(Str(t))
  {
    EscapedIsLiteral(t, "", "");
    assert Escape(t) + "" == Escape(t) && "" + t == t;
    assert Parse(Escape(t)) == Ok(Flush(t));
    if t == "" {
      assert Fill([], bound, render) == Ok("");
    } else {
      assert [Lit(t)][1..] == [] && t + "" == t;
      assert Fill([Lit(t)], bound, render) == Cat(t, Ok(""));
    }
  }

  /** What one segment contributes to a string: its text, or the bound value as text. */
  function TextOf(seg: Segment, bound: Bound, render: Render): string {
    match seg
    case Lit(t) => t
    case Ref(n) => if n in bound then Piece(bound[n], render) else ""
  }

  /** The contributions one after the other. */
  ghost function Texts(segs: seq<Segment>, bound: Bound, render: Render): string {
    if |segs| == 0 then "" else Texts(segs[..|segs| - 1], bound, render) + TextOf(segs[|segs| - 1], bound, render)
  }

  lemma {:induction false} TextsCons(seg: Segment, segs: seq<Segment>, bound: Bound, render: Render)
    ensures Texts([seg] + segs, bound, render) == TextOf(seg, bound, render) + Texts(segs, bound, render)
    decreases |segs|
  {
    var all := [seg] + segs;
    if |segs| == 0 {
      assert all[..0] == [] && Texts([], bound, render) == "";
    } else {
      assert all[..|all| - 1] == [seg] + segs[..|segs| - 1];
      TextsCons(seg, segs[..|segs| - 1], bound, render);
    }
  }

  lemma {:induction false} FillIsTexts(segs: seq<Segment>, bound: Bound, render: Render)
    requires forall n :: n in RefNames(segs) ==> n in bound
    ensures Fill(segs, bound, render) == Ok(Texts(segs, bound, render))
  {
    if |segs| > 0 {
      assert segs == [segs[0]] + segs[1..];
      assert segs[0].Ref? ==> RefNames(segs)[0] == segs[0].name;
      FillIsTexts(segs[1..], bound, render);
      TextsCons(segs[0], segs[1..], bound, render);
    }
  }

  /** The template printed from any normal segment list renders to its literals and bound values in
      order, except that a single placeholder yields the value itself. */
  lemma PrintedTemplateRenders(segs: seq<Segment>, bound: Bound, render: Render)
    requires Normal(segs) && forall n :: n in RefNames(segs) ==> n in bound
    ensures Substitute(Str(Print(segs)), bound, render) ==
            if |segs| == 1 && segs[0].Ref? then Ok(bound[segs[0].name]) else Ok(Str(Texts(segs, bound, render)))
  {
    ParsePrint(segs);
    FillIsTexts(segs, bound, render);
    assert |segs| == 1 && segs[0].Ref? ==> RefNames(segs)[0] == segs[0].name;
  }

  /** Arrays are substituted element by element. */
  lemma {:induction false} ItemsKept(items: seq<Value>, bound: Bound, render: Render)
    requires SubstituteAll(items, bound, render).Ok?
    ensures var out := SubstituteAll(items, bound, render).value;
            |out| == |items| && forall i :: 0 <= i < |items| ==> Substitute(items[i], bound, render) == Ok(out[i])
    decreases |items|
  {
    if |items| > 0 {
      ItemsKept(items[1..], bound, render);
      var (out, rest) := (SubstituteAll(items, bound, render).value, SubstituteAll(items[1..], bound, render).value);
      forall i | 0 <= i < |items|
        ensures Substitute(items[i], bound, render) == Ok(out[i])
      {
        if i > 0 {
          assert out[i] == rest[i - 1] && items[i] == items[1..][i - 1];
        }
      }
    }
  }

  /** The result has the argument's shape: same keys in the same order, arrays of the same length. */
  lemma {:induction false} ShapeKept(fields: seq<Field>, bound: Bound, render: Render)
    requires SubstituteArgs(fields, bound, render).Ok?
    ensures var out := SubstituteArgs(fields, bound, render).value;
            |out| == |fields| && forall i :: 0 <= i < |fields| ==>
              out[i].key == fields[i].key && Substitute(fields[i].value, bound, render) == Ok(out[i].value)
    decreases |fields|
  {
    if |fields| > 0 {
      ShapeKept(fields[1..], bound, render);
      var (out, rest) := (SubstituteArgs(fields, bound, render).value, SubstituteArgs(fields[1..], bound, render).value);
      forall i | 0 <= i < |fields|
        ensures out[i].key == fields[i].key && Substitute(fields[i].value, bound, render) == Ok(out[i].value)
      {
        if i > 0 {
          assert out[i] == rest[i - 1] && fields[i] == fields[1..][i - 1];
        }
      }
    }
  }

  // ----- Values as a whole -----

  /** No string in the value holds a dollar sign. */
  ghost predicate NoDollar(v: Value) {
    match v
    case Str(s) => '$' !in s
    case Arr(items) => forall w :: w in items ==> NoDollar(w)
    case Obj(fields) => forall f :: f in fields ==> NoDollarField(f)
    case _ => true
  }

  ghost predicate NoDollarField(f: Field) {
    NoDollar(f.value)
  }

  /** A value without dollar signs substitutes to itself whatever is bound: scalars keep their type and
      value, arrays and objects every member. */
  lemma {:induction false} PlainValueUnchanged(v: Value, bound: Bound, render: Render)
    requires NoDollar(v)
    ensures Substitute(v, bound, render) == Ok(v)
    decreases v
  {
    match v {
      case Str(s) =>
        PlainTextParses(s, "");
        assert "" + s == s;
        FillText(s, bound, render);
      case Arr(items) => PlainItemsUnchanged(items, bound, render);
      case Obj(fields) => PlainFieldsUnchanged(fields, bound, render);
      case _ =>
    }
  }

  lemma FillText(t: string, bound: Bound, render: Render)
    ensures Fill(Flush(t), bound, render) == Ok(t)
  {
    if t != "" {
      assert [Lit(t)][1..] == [] && t + "" == t;
      assert Fill([Lit(t)], bound, render) == Cat(t, Fill([], bound, render));
    }
  }

  lemma {:induction false} PlainItemsUnchanged(items: seq<Value>, bound: Bound, render: Render)
    requires forall w :: w in items ==> NoDollar(w)
    ensures SubstituteAll(items, bound, render) == Ok(items)
    decreases items
  {
    if |items| > 0 {
      PlainValueUnchanged(items[0], bound, render);
      PlainItemsUnchanged(items[1..], bound, render);
      HeadTail(items);
    }
  }

  lemma {:induction false} PlainFieldsUnchanged(fields: seq<Field>, bound: Bound, render: Render)
    requires forall f :: f in fields ==> NoDollarField(f)
    ensures SubstituteArgs(fields, bound, render) == Ok(fields)
    decreases fields
  {
    if |fields| > 0 {
      assert fields[0].value < fields[0] && NoDollarField(fields[0]);
      PlainValueUnchanged(fields[0].value, bound, render);
      PlainFieldsUnchanged(fields[1..], bound, render);
      HeadTail(fields);
    }
  }

  /** An array whose items substitute to `outs` substitutes to the array of `outs`. */
  lemma {:induction false} ArraySubstituted(items: seq<Value>, outs: seq<Value>, bound: Bound, render: Render)
    requires |outs| == |items| && forall i :: 0 <= i < |items| ==> Substitute(items[i], bound, render) == Ok(outs[i])
    ensures SubstituteAll(items, bound, render) == Ok(outs) && Substitute(Arr(items), bound, render) == Ok(Arr(outs))
    decreases |items|
  {
    if |items| > 0 {
      ArraySubstituted(items[1..], outs[1..], bound, render);
      HeadTail(outs);
    }
  }

  /** An object whose members substitute to those of `outs`, under the same keys, substitutes to the
      object of `outs`. */
  lemma {:induction false} ObjectSubstituted(fields: seq<Field>, outs: seq<Field>, bound: Bound, render: Render)
    requires |outs| == |fields|
    requires forall i :: 0 <= i < |fields| ==>
               outs[i].key == fields[i].key && Substitute(fields[i].value, bound, render) == Ok(outs[i].value)
    ensures SubstituteArgs(fields, bound, render) == Ok(outs) && Substitute(Obj(fields), bound, render) == Ok(Obj(outs))
    decreases |fields|
  {
    if |fields| > 0 {
      ObjectSubstituted(fields[1..], outs[1..], bound, render);
      HeadTail(outs);
    }
  }

  lemma ThreePrinted(a: string, n: string, b: string)
    ensures Print([Lit(a), Ref(n), Lit(b)]) == Escape(a) + ("${" + n + "}" + Escape(b))
  {
    var segs := [Lit(a), Ref(n), Lit(b)];
    assert segs[1..] == [Ref(n), Lit(b)] && [Ref(n), Lit(b)][1..] == [Lit(b)] && [Lit(b)][1..] == [];
    assert Print([Lit(b)]) == Escape(b) + Print([]) == Escape(b);
  }

  lemma RefNamesThree(a: string, n: string, b: string)
    ensures RefNames([Lit(a), Ref(n), Lit(b)]) == [n]
  {
    var segs := [Lit(a), Ref(n), Lit(b)];
    assert segs[1..] == [Ref(n), Lit(b)] && [Ref(n), Lit(b)][1..] == [Lit(b)] && [Lit(b)][1..] == [];
    assert RefNames([Ref(n), Lit(b)]) == [n] + RefNames([Lit(b)]) == [n] + RefNames([]);
  }

  /** A placeholder inside a larger text puts in the bound string itself, or the rendering of any other
      bound value, between the texts around it. */
  lemma EmbeddedValue(a: string, n: string, b: string, bound: Bound, render: Render)
    requires ValidParamName(n) && n in bound && a != "" && b != ""
    ensures Substitute(Str(Escape(a) + ("${" + n + "}" + Escape(b))), bound, render) ==
            Ok(Str(a + (match bound[n] case Str(s) => s case v => render(v)) + b))
  {
    var segs := [Lit(a), Ref(n), Lit(b)];
    assert Normal(segs);
    assert segs == [Lit(a)] + [Ref(n), Lit(b)] && [Ref(n), Lit(b)] == [Ref(n)] + [Lit(b)];
    ThreePrinted(a, n, b);
    assert RefNames(segs) == [n] by {
      RefNamesThree(a, n, b);
    }
    PrintedTemplateRenders(segs, bound, render);
    TextsCons(Lit(a), [Ref(n), Lit(b)], bound, render);
    TextsCons(Ref(n), [Lit(b)], bound, render);
    TextsCons(Lit(b), [], bound, render);
    assert [Lit(b)] + [] == [Lit(b)] && b + "" == b;
    ConcatAssoc(a, Piece(bound[n], render), b);
  }
}
