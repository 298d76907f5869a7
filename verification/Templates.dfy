/** The `${...}` template language of plugin manifests: parser, printer and normal form. */
module Templates {
  import opened Prelude

  datatype Segment = Lit(text: string) | Ref(name: string)

  datatype TemplateError = Unclosed | BadName(name: string)

  type Parsed = Result<seq<Segment>, TemplateError>

  predicate IsLower(c: char) {
    'a' <= c <= 'z'
  }

  predicate IsDigit(c: char) {
    '0' <= c <= '9'
  }

  /** `^[a-z][a-z0-9_]{0,63}$`. */
  predicate ValidParamName(name: string) {
    && 0 < |name| <= 64 && IsLower(name[0])
    && forall i :: 0 < i < |name| ==> IsLower(name[i]) || IsDigit(name[i]) || name[i] == '_'
  }

  // ----- Specification of the parser -----

  /** Position of the first `}`, or the length when there is none. */
  function Brace(s: string): (i: nat)
    ensures i <= |s| && (i < |s| ==> s[i] == '}')
    ensures forall j :: 0 <= j < i ==> s[j] != '}'
  {
    if |s| == 0 || s[0] == '}' then 0 else 1 + Brace(s[1..])
  }

  function Flush(lit: string): seq<Segment> {
    if lit == "" then [] else [Lit(lit)]
  }

  function Prepend(segs: seq<Segment>, r: Parsed): Parsed {
    match r
    case Ok(rest) => Ok(segs + rest)
    case Err(e) => Err(e)
  }

  /** The segments of `s` when `lit` is the literal text already pending. */
  function ParseFrom(s: string, lit: string): Parsed
    decreases |s|
  {
    if s == "" then Ok(Flush(lit))
    else if s[0] != '$' then ParseFrom(s[1..], lit + [s[0]])
    else if |s| == 1 then Ok(Flush(lit + "$"))
    else if s[1] == '$' then ParseFrom(s[2..], lit + "$")
    else if s[1] == '{' then
      var i := Brace(s[2..]);
      var name := s[2..][..i];
      if i == |s[2..]| then Err(Unclosed)
      else if !ValidParamName(name) then Err(BadName(name))
      else Prepend(Flush(lit) + [Ref(name)], ParseFrom(s[2..][i + 1..], ""))
    else ParseFrom(s[2..], lit + "$" + [s[1]])
  }

  function Parse(s: string): Parsed {
    ParseFrom(s, "")
  }

  // ----- The parser -----

  /** The inner loop: collect a placeholder name up to the closing brace. */
  method TakeName(s: string, start: nat) returns (name: string, next: nat, closed: bool)
    requires start <= |s|
    ensures name == s[start..][..Brace(s[start..])] && closed == (Brace(s[start..]) < |s| - start)
    ensures closed ==> next == start + Brace(s[start..]) + 1
  {
    name, next, closed := "", start, false;
    while next < |s|
      invariant start <= next <= |s| && name == s[start..next]
      invariant Brace(s[start..]) == next - start + Brace(s[next..])
      decreases |s| - next
    {
      var c := s[next];
      next := next + 1;
      if c == '}' {
        return name, next, true;
      }
      name := name + [c];
      assert s[next - 1..][1..] == s[next..];
    }
  }

  lemma PrependNil(r: Parsed)
    ensures Prepend([], r) == r
  {
    if r.Ok? {
      assert [] + r.value == r.value;
    }
  }

  lemma PrependPrepend(a: seq<Segment>, b: seq<Segment>, r: Parsed)
    ensures Prepend(a, Prepend(b, r)) == Prepend(a + b, r)
  {
    if r.Ok? {
      assert a + (b + r.value) == a + b + r.value;
    }
  }

  /** `parse_template`. */
  method ParseTemplate(s: string) returns (r: Parsed)
    ensures r == Parse(s)
  {
    var segs: seq<Segment> := [];
    var lit := "";
    var i := 0;
    assert s[0..] == s;
    PrependNil(Parse(s));
    while i < |s|
      invariant 0 <= i <= |s|
      invariant Parse(s) == Prepend(segs, ParseFrom(s[i..], lit))
      decreases |s| - i
    {
      ghost var rest := s[i..];
      var c := s[i];
      i := i + 1;
      assert rest[1..] == s[i..];
      if c != '$' {
        lit := lit + [c];
        continue;
      }
      if i == |s| {
        lit := lit + "$";
        assert s[i..] == "";
        continue;
      }
      var d := s[i];
      i := i + 1;
      assert rest[2..] == s[i..] && rest[1] == d;
      if d == '$' {
        lit := lit + "$";
      } else if d == '{' {
        var name, next, closed := TakeName(s, i);
        if !closed {
          return Err(Unclosed);
        }
        if !ValidParamName(name) {
          return Err(BadName(name));
        }
        assert s[i..][Brace(s[i..]) + 1..] == s[next..];
        PrependPrepend(segs, Flush(lit) + [Ref(name)], ParseFrom(s[next..], ""));
        assert segs + (Flush(lit) + [Ref(name)]) == segs + Flush(lit) + [Ref(name)];
        assert segs + [] == segs;
        if lit != "" {
          segs := segs + [Lit(lit)];
          lit := "";
        }
        segs := segs + [Ref(name)];
        i := next;
      } else {
        lit := lit + "$" + [d];
      }
    }
    assert s[i..] == "" && segs + [] == segs;
    if lit != "" {
      segs := segs + [Lit(lit)];
    }
    return Ok(segs);
  }

  // ----- The printer -----

  /** Literal text with every `$` doubled. */
  function Escape(t: string): string {
    if t == "" then ""
    else (if t[0] == '$' then "$$" else [t[0]]) + Escape(t[1..])
  }

  function Print(segs: seq<Segment>): string {
    if |segs| == 0 then ""
    else (match segs[0]
          case Lit(t) => Escape(t)
          case Ref(n) => "${" + n + "}") + Print(segs[1..])
  }

  /** Non-empty literals, no two in a row, legal names. */
  ghost predicate Normal(segs: seq<Segment>) {
    forall i :: 0 <= i < |segs| ==> NormalAt(segs, i)
  }

  ghost predicate NormalAt(segs: seq<Segment>, i: nat)
    requires i < |segs|
  {
    match segs[i]
    case Lit(t) => t != "" && (i > 0 ==> segs[i - 1].Ref?)
    case Ref(n) => ValidParamName(n)
  }

  lemma NormalTail(segs: seq<Segment>)
    requires Normal(segs) && |segs| > 0
    ensures Normal(segs[1..]) && NormalAt(segs, 0)
    ensures segs[0].Lit? && |segs| > 1 ==> segs[1].Ref?
  {
    forall i | 0 <= i < |segs| - 1
      ensures NormalAt(segs[1..], i)
    {
      assert NormalAt(segs, i + 1);
    }
    assert |segs| > 1 ==> NormalAt(segs, 1);
  }

  lemma {:induction false} EscapedIsLiteral(t: string, rest: string, lit: string)
    ensures ParseFrom(Escape(t) + rest, lit) == ParseFrom(rest, lit + t)
    decreases |t|
  {
    if t == "" {
      assert Escape(t) + rest == rest && lit + t == lit;
    } else {
      var tail := Escape(t[1..]) + rest;
      EscapedIsLiteral(t[1..], rest, lit + [t[0]]);
      ConcatAssoc(lit, [t[0]], t[1..]);
      HeadTail(t);
      ConcatAssoc(if t[0] == '$' then "$$" else [t[0]], Escape(t[1..]), rest);
      EscapedChar(Escape(t) + rest, t[0], tail, lit);
    }
  }

  lemma EscapedChar(s: string, c: char, tail: string, lit: string)
    requires s == (if c == '$' then "$$" else [c]) + tail
    ensures ParseFrom(s, lit) == ParseFrom(tail, lit + [c])
  {
    assert if c == '$' then s[2..] == tail else s[1..] == tail;
  }

  lemma PlaceholderIsRef(n: string, rest: string, lit: string)
    requires ValidParamName(n)
    ensures ParseFrom("${" + n + "}" + rest, lit) == Prepend(Flush(lit) + [Ref(n)], ParseFrom(rest, ""))
  {
    var s := "${" + n + "}" + rest;
    var t := n + "}" + rest;
    ConcatAssoc("${", n, "}");
    ConcatAssoc("${", n + "}", rest);
    ConcatParts("${", t);
    ConcatAssoc(n, "}", rest);
    ConcatParts(n, "}" + rest);
    assert s[0] == '$' && s[1] == '{';
    var i := Brace(t);
    assert forall j :: 0 <= j < |n| ==> t[j] == n[j] && t[j] != '}';
    assert t[|n|] == '}' && i == |n|;
    assert t[..i] == n && t[i + 1..] == rest;
  }

  lemma {:induction false} PrintedParses(segs: seq<Segment>, lit: string)
    requires Normal(segs) && (lit == "" || |segs| == 0 || segs[0].Ref?)
    ensures ParseFrom(Print(segs), lit) == Ok(Flush(lit) + segs)
    decreases |segs|
  {
    if |segs| == 0 {
      assert Flush(lit) + segs == Flush(lit);
    } else {
      var tail := segs[1..];
      HeadTail(segs);
      NormalTail(segs);
      match segs[0] {
        case Lit(t) =>
          EscapedIsLiteral(t, Print(tail), lit);
          PrintedParses(tail, t);
          assert Flush(lit) + segs == segs && lit + t == t;
        case Ref(n) =>
          PlaceholderIsRef(n, Print(tail), lit);
          PrintedParses(tail, "");
          assert Flush("") + tail == tail;
          ConcatAssoc(Flush(lit), [Ref(n)], tail);
      }
    }
  }

  /** Parsing undoes printing on every normal segment list. */
  lemma ParsePrint(segs: seq<Segment>)
    requires Normal(segs)
    ensures Parse(Print(segs)) == Ok(segs)
  {
    PrintedParses(segs, "");
    assert Flush("") + segs == segs;
  }

  lemma NormalJoin(lit: string, n: string, rest: seq<Segment>)
    requires ValidParamName(n) && Normal(rest)
    ensures Normal(Flush(lit) + [Ref(n)] + rest)
  {
    var a := Flush(lit) + [Ref(n)];
    var r := a + rest;
    forall i | 0 <= i < |r|
      ensures NormalAt(r, i)
    {
      if i >= |a| {
        assert NormalAt(rest, i - |a|);
      }
    }
  }

  /** Parsing only yields normal lists. */
  lemma {:induction false} ParseNormal(s: string, lit: string)
    ensures ParseFrom(s, lit).Ok? ==> Normal(ParseFrom(s, lit).value)
    decreases |s|
  {
    if s == "" || (s[0] == '$' && |s| == 1) {
    } else if s[0] != '$' {
      ParseNormal(s[1..], lit + [s[0]]);
    } else if s[1] == '$' {
      ParseNormal(s[2..], lit + "$");
    } else if s[1] == '{' {
      var i := Brace(s[2..]);
      var name := s[2..][..i];
      if i < |s[2..]| && ValidParamName(name) {
        var rest := ParseFrom(s[2..][i + 1..], "");
        ParseNormal(s[2..][i + 1..], "");
        if rest.Ok? {
          NormalJoin(lit, name, rest.value);
        }
      }
    } else {
      ParseNormal(s[2..], lit + "$" + [s[1]]);
    }
  }

  /** Printing what was parsed gives a string that parses the same. */
  lemma PrintParse(s: string)
    requires Parse(s).Ok?
    ensures Normal(Parse(s).value) && Parse(Print(Parse(s).value)) == Parse(s)
  {
    ParseNormal(s, "");
    ParsePrint(Parse(s).value);
  }

  // ----- Plain text and faults -----

  /** No dollar sign that is followed by another one or by an opening brace. */
  ghost predicate Plain(t: string) {
    forall i :: 0 <= i < |t| - 1 && t[i] == '$' ==> t[i + 1] != '$' && t[i + 1] != '{'
  }

  /** Plain text is its own single literal: a dollar sign before any other character, or at the end,
      stands for itself. */
  lemma {:induction false} PlainTextParses(t: string, lit: string)
    requires Plain(t)
    ensures ParseFrom(t, lit) == Ok(Flush(lit + t))
    decreases |t|
  {
    if t == "" {
      assert lit + t == lit;
    } else if t[0] != '$' {
      PlainTextParses(t[1..], lit + [t[0]]);
      HeadTail(t);
      ConcatAssoc(lit, [t[0]], t[1..]);
    } else if |t| == 1 {
      assert t == "$";
    } else {
      PlainTextParses(t[2..], lit + "$" + [t[1]]);
      assert lit + "$" + [t[1]] + t[2..] == lit + t;
    }
  }

  /** A placeholder that is not closed is refused, whatever literal text comes before it. */
  lemma UnclosedRefused(t: string, s: string)
    requires '}' !in s
    ensures Parse(Escape(t) + ("${" + s)) == Err(Unclosed)
  {
    EscapedIsLiteral(t, "${" + s, "");
    ConcatParts("${", s);
    assert Brace(s) == |s|;
  }

  /** A placeholder whose name is not legal is refused with that name. */
  lemma BadNameRefused(t: string, n: string, rest: string)
    requires '}' !in n && !ValidParamName(n)
    ensures Parse(Escape(t) + ("${" + (n + ("}" + rest)))) == Err(BadName(n))
  {
    var s := n + ("}" + rest);
    EscapedIsLiteral(t, "${" + s, "");
    ConcatParts("${", s);
    ConcatParts(n, "}" + rest);
    BraceAfter(n, rest);
  }

  lemma {:induction false} BraceAfter(n: string, rest: string)
    requires '}' !in n
    ensures Brace(n + ("}" + rest)) == |n|
  {
    if n != "" {
      assert (n + ("}" + rest))[1..] == n[1..] + ("}" + rest);
      BraceAfter(n[1..], rest);
    }
  }

  const LOWER_LETTERS: string := "abcdefghijklmnopqrstuvwxyz"
  const DIGITS: string := "0123456789"

  lemma CharTables(c: char)
    ensures IsLower(c) <==> c in LOWER_LETTERS
    ensures IsDigit(c) <==> c in DIGITS
  {
    if IsLower(c) {
      assert LOWER_LETTERS[c as int - 'a' as int] == c;
    }
    if IsDigit(c) {
      assert DIGITS[c as int - '0' as int] == c;
    }
  }

  /** A legal name is 1 to 64 characters: a letter of the table, then letters, digits and underscores. */
  lemma ParamNameGrammar(n: string)
    ensures ValidParamName(n) <==>
            && 1 <= |n| <= 64 && n[0] in LOWER_LETTERS
            && forall i :: 1 <= i < |n| ==> n[i] in LOWER_LETTERS || n[i] in DIGITS || n[i] == '_'
  {
    forall c: char
      ensures (IsLower(c) <==> c in LOWER_LETTERS) && (IsDigit(c) <==> c in DIGITS)
    {
      CharTables(c);
    }
  }
}
