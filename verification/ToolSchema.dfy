/** The input schema generated for a plugin tool, and its agreement with argument binding.

    `Conforms` evaluates the JSON Schema 2020-12 vocabulary the generator uses: `type` and `required`
    of the Validation specification (sections 6.1.1 and 6.5.3), `properties` and
    `additionalProperties` of the Core specification (sections 10.3.2.1 and 10.3.2.3), boolean
    schemas, and annotations, which constrain nothing. It knows nothing about manifests. */
module ToolSchema {
  import opened Lexical
  import opened Prelude
  import opened Templates
  import opened Substitution
  import opened Manifest

  // ----- JSON Schema -----

  predicate TypeIs(t: string, v: Value) {
    match v
    case Null => t == "null"
    case Bool(_) => t == "boolean"
    case Number(_) => t == "number"
    case Str(_) => t == "string"
    case Arr(_) => t == "array"
    case Obj(_) => t == "object"
  }

  /** The member of an object with a given name. */
  function Member(fields: seq<Field>, key: string): (r: Option<Value>)
    ensures r.Some? ==> Field(key, r.value) in fields
    ensures r.None? <==> key !in Keys(fields)
  {
    if |fields| == 0 then None
    else
      assert Keys(fields) == {fields[0].key} + Keys(fields[1..]) by { KeysCons(fields); }
      if fields[0].key == key then Some(fields[0].value) else Member(fields[1..], key)
  }

  lemma KeysCons(fields: seq<Field>)
    requires |fields| > 0
    ensures Keys(fields) == {fields[0].key} + Keys(fields[1..])
  {
    assert fields == [fields[0]] + fields[1..];
  }

  /** `inst` is valid against `schema`. */
  ghost predicate Conforms(schema: Value, inst: Value)
    decreases schema, 1
  {
    match schema
    case Bool(b) => b
    case Obj(keywords) =>
      && TypeHolds(Member(keywords, "type"), inst)
      && (inst.Obj? ==>
            && RequiredHolds(Member(keywords, "required"), inst.fields)
            && PropertiesHold(schema, inst.fields)
            && AdditionalHolds(schema, inst.fields))
    case _ => false
  }

  ghost predicate TypeHolds(t: Option<Value>, inst: Value) {
    t.Some? && t.value.Str? ==> TypeIs(t.value.s, inst)
  }

  ghost predicate RequiredHolds(names: Option<Value>, members: seq<Field>) {
    names.Some? && names.value.Arr? ==> forall n :: n in names.value.items && n.Str? ==> n.s in Keys(members)
  }

  /** A member named by `properties` is valid against the schema given there. */
  ghost predicate PropertiesHold(schema: Value, members: seq<Field>)
    requires schema.Obj?
    decreases schema, 0
  {
    var props := Member(schema.fields, "properties");
    props.Some? && props.value.Obj? ==>
      assert Field("properties", props.value) < schema;
      forall f :: f in members ==> PropertyHolds(props.value, f)
  }

  ghost predicate PropertyHolds(props: Value, f: Field)
    requires props.Obj?
    decreases props, 1
  {
    var p := Member(props.fields, f.key);
    p.Some? ==>
      assert Field(f.key, p.value) < props;
      Conforms(p.value, f.value)
  }

  /** Any other member is valid against the `additionalProperties` schema. */
  ghost predicate AdditionalHolds(schema: Value, members: seq<Field>)
    requires schema.Obj?
    decreases schema, 0
  {
    var others := Member(schema.fields, "additionalProperties");
    others.Some? ==>
      assert Field("additionalProperties", others.value) < schema;
      forall f :: f in members && !Named(schema, f.key) ==> Conforms(others.value, f.value)
  }

  ghost predicate Named(schema: Value, key: string)
    requires schema.Obj?
  {
    var props := Member(schema.fields, "properties");
    props.Some? && props.value.Obj? && key in Keys(props.value.fields)
  }

  // ----- The generator -----

  function TypeName(t: ParamType): string {
    match t
    case StringT => "string"
    case NumberT => "number"
    case BooleanT => "boolean"
  }

  function PropertyOf(spec: ParamSpec): Value {
    Obj([Field("type", Str(TypeName(spec.ty)))] +
        if spec.description.Some? then [Field("description", Str(spec.description.value))] else [])
  }

  function SchemaOf(properties: seq<Field>, required: seq<Value>): Value {
    Obj([Field("type", Str("object")), Field("properties", Obj(properties)), Field("additionalProperties", Bool(false))] +
        if required == [] then [] else [Field("required", Arr(required))])
  }

  /** The generated properties of the parameters in `names`, in name order. */
  ghost function PropertiesOf(params: Params, names: set<string>): seq<Field>
    requires names <= params.Keys
    decreases names
  {
    if names == {} then []
    else
      var n := First(names);
      [Field(n, PropertyOf(params[n]))] + PropertiesOf(params, names - {n})
  }

  /** The required ones among the parameters in `names`, in name order. */
  ghost function RequiredOf(params: Params, names: set<string>): seq<Value>
    requires names <= params.Keys
    decreases names
  {
    if names == {} then []
    else
      var n := First(names);
      (if params[n].required then [Str(n)] else []) + RequiredOf(params, names - {n})
  }

  ghost function SchemaFor(params: Params): Value {
    SchemaOf(PropertiesOf(params, params.Keys), RequiredOf(params, params.Keys))
  }

  /** `properties` describes exactly the parameters in `names`, strictly ascending, and `required` lists
      exactly the required ones. */
  ghost predicate Describes(properties: seq<Field>, required: seq<Value>, params: Params, names: set<string>) {
    && names <= params.Keys
    && (forall f :: f in properties <==> f.key in names && f.value == PropertyOf(params[f.key]))
    && (forall i, j :: 0 <= i < j < |properties| ==> Before(properties[i].key, properties[j].key))
    && (forall v :: v in required <==> v.Str? && v.s in names && params[v.s].required)
    && (forall i, j :: 0 <= i < j < |required| ==> required[i].Str? && required[j].Str? && Before(required[i].s, required[j].s))
  }

  ghost predicate Before(a: string, b: string) {
    StrLe(a, b) && a != b
  }

  /** The generated lists hold each parameter once, in name order. */
  lemma {:induction false} GeneratedDescribes(params: Params, names: set<string>)
    requires names <= params.Keys
    ensures Describes(PropertiesOf(params, names), RequiredOf(params, names), params, names)
    decreases names
  {
    if names != {} {
      var n := First(names);
      GeneratedDescribes(params, names - {n});
      DescribesCons(PropertiesOf(params, names - {n}), RequiredOf(params, names - {n}), params, names, n);
    }
  }

  lemma DescribesCons(properties: seq<Field>, required: seq<Value>, params: Params, names: set<string>, n: string)
    requires names <= params.Keys && Least(names, n) && Describes(properties, required, params, names - {n})
    ensures Describes([Field(n, PropertyOf(params[n]))] + properties, (if params[n].required then [Str(n)] else []) + required, params, names)
  {
    forall f | f in properties
      ensures Before(n, f.key)
    {
    }
    forall v | v in required
      ensures v.Str? && Before(n, v.s)
    {
    }
  }

  /** A `tools/list` entry. */
  datatype Tool = Tool(name: string, description: string, inputSchema: Value)

  /** The entry of the tool that `m` exposes. */
  ghost function ToolFor(m: PluginManifest): Tool
    requires m.tool.Some?
  {
    Tool(m.tool.value.name, m.tool.value.description, SchemaFor(m.params))
  }

  /** `exposed_tool`: the advertised name, description and schema, or nothing without a tool section. */
  method ExposedTool(m: PluginManifest) returns (r: Option<Tool>)
    ensures r == if m.tool.None? then None else Some(ToolFor(m))
    ensures r.Some? ==> r.value.name == m.tool.value.name && r.value.description == m.tool.value.description
    ensures r.Some? ==> forall args :: Conforms(r.value.inputSchema, Obj(args)) <==> BindOk(m.params, args)
  {
    if m.tool.None? {
      return None;
    }
    var props, req := Properties(m.params);
    SchemaMatches(m.params);
    return Some(Tool(m.tool.value.name, m.tool.value.description, SchemaOf(props, req)));
  }

  /** The parameter loop of `exposed_tool`. */
  method Properties(params: Params) returns (props: seq<Field>, req: seq<Value>)
    ensures props == PropertiesOf(params, params.Keys) && req == RequiredOf(params, params.Keys)
    ensures Describes(props, req, params, params.Keys)
  {
    props, req := [], [];
    var todo := params.Keys;
    while todo != {}
      invariant todo <= params.Keys
      invariant props + PropertiesOf(params, todo) == PropertiesOf(params, params.Keys)
      invariant req + RequiredOf(params, todo) == RequiredOf(params, params.Keys)
      decreases todo
    {
      LeastExists(todo);
      var n :| Least(todo, n);
      LeastUnique(todo, n, First(todo));
      ConcatAssoc(props, [Field(n, PropertyOf(params[n]))], PropertiesOf(params, todo - {n}));
      ConcatAssoc(req, if params[n].required then [Str(n)] else [], RequiredOf(params, todo - {n}));
      props := props + [Field(n, PropertyOf(params[n]))];
      req := req + if params[n].required then [Str(n)] else [];
      todo := todo - {n};
    }
    GeneratedDescribes(params, params.Keys);
  }

  lemma SchemaMatches(params: Params)
    ensures forall args :: Conforms(SchemaFor(params), Obj(args)) <==> BindOk(params, args)
  {
    forall args
      ensures Conforms(SchemaFor(params), Obj(args)) <==> BindOk(params, args)
    {
      GeneratedDescribes(params, params.Keys);
      SchemaMatchesBinding(PropertiesOf(params, params.Keys), RequiredOf(params, params.Keys), params, args);
    }
  }

  // ----- The two notions of legal arguments coincide -----

  lemma PropertyAccepts(spec: ParamSpec, v: Value)
    ensures Conforms(PropertyOf(spec), v) <==> spec.ty.Accepts(v)
  {
    var fs := PropertyOf(spec).fields;
    assert Member(fs, "type") == Some(Str(TypeName(spec.ty)));
    assert forall k :: k in Keys(fs) ==> k == "type" || k == "description";
  }

  lemma SchemaMembers(props: seq<Field>, req: seq<Value>)
    ensures var fs := SchemaOf(props, req).fields;
            && Member(fs, "type") == Some(Str("object"))
            && Member(fs, "properties") == Some(Obj(props))
            && Member(fs, "additionalProperties") == Some(Bool(false))
            && Member(fs, "required") == if req == [] then None else Some(Arr(req))
  {
    var fs := SchemaOf(props, req).fields;
    var f1, f2 := fs[1..], fs[1..][1..];
    assert fs[0].key == "type" && f1[0].key == "properties" && f2[0].key == "additionalProperties";
    assert Member(fs, "properties") == Member(f1, "properties");
    assert Member(fs, "additionalProperties") == Member(f1, "additionalProperties") == Member(f2, "additionalProperties");
    assert Member(fs, "required") == Member(f1, "required") == Member(f2, "required") == Member(f2[1..], "required");
    assert f2[1..] == if req == [] then [] else [Field("required", Arr(req))];
  }

  /** A property schema names the JSON type and repeats the description, if there is one. */
  lemma PropertyMembers(spec: ParamSpec)
    ensures var fs := PropertyOf(spec).fields;
            && Member(fs, "type") == Some(Str(match spec.ty case StringT => "string" case NumberT => "number" case BooleanT => "boolean"))
            && Member(fs, "description") == (if spec.description.Some? then Some(Str(spec.description.value)) else None)
            && forall k :: k in Keys(fs) ==> k == "type" || k == "description"
  {
    var fs := PropertyOf(spec).fields;
    assert fs[0].key == "type" && "type" != "description" by {
      assert "type"[0] != "description"[0];
    }
    assert Member(fs, "description") == Member(fs[1..], "description");
    assert fs[1..] == if spec.description.Some? then [Field("description", Str(spec.description.value))] else [];
  }

  /** The property schema found for a name is the one generated for that parameter. */
  lemma PropertyLookup(props: seq<Field>, req: seq<Value>, params: Params, key: string)
    requires Describes(props, req, params, params.Keys)
    ensures Member(props, key) == if key in params then Some(PropertyOf(params[key])) else None
    ensures key in Keys(props) <==> key in params
  {
    if key in params {
      assert Field(key, PropertyOf(params[key])) in props;
    }
  }

  /** Arguments conform to the generated schema exactly when they bind. */
  lemma SchemaMatchesBinding(props: seq<Field>, req: seq<Value>, params: Params, args: seq<Field>)
    requires Describes(props, req, params, params.Keys)
    ensures Conforms(SchemaOf(props, req), Obj(args)) <==> BindOk(params, args)
  {
    SchemaMembers(props, req);
    PropertiesMatch(props, req, params, args);
    RequiredMatches(props, req, params, args);
  }

  lemma PropertiesMatch(props: seq<Field>, req: seq<Value>, params: Params, args: seq<Field>)
    requires Describes(props, req, params, params.Keys)
    ensures PropertiesHold(SchemaOf(props, req), args) && AdditionalHolds(SchemaOf(props, req), args) <==> AllOk(args, params)
  {
    var s := SchemaOf(props, req);
    SchemaMembers(props, req);
    forall f | f in args
      ensures Named(s, f.key) <==> f.key in params
      ensures f.key in params ==> (PropertyHolds(Obj(props), f) <==> FieldOk(f, params))
      ensures f.key !in params ==> PropertyHolds(Obj(props), f)
    {
      PropertyLookup(props, req, params, f.key);
      if f.key in params {
        PropertyAccepts(params[f.key], f.value);
      }
    }
  }

  lemma RequiredMatches(props: seq<Field>, req: seq<Value>, params: Params, args: seq<Field>)
    requires Describes(props, req, params, params.Keys)
    ensures RequiredHolds(if req == [] then None else Some(Arr(req)), args)
            <==> forall n :: n in params && params[n].required ==> n in Keys(args)
  {
    forall n | n in params && params[n].required
      ensures Str(n) in req
    {
    }
  }
}
