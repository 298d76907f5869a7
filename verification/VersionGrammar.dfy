/** The manifest version grammar: the splitting check accepts exactly the written forms
    MAJOR.MINOR.PATCH[-prerelease][+build]. */
module VersionGrammar {
  import opened Prelude
  import opened Templates
  import opened Manifest

  function Suffix(mark: char, s: Option<string>): string {
    if s.None? then "" else [mark] + s.value
  }

  function Written(a: string, b: string, c: string, pre: Option<string>, build: Option<string>): string {
    a + "." + b + "." + c + Suffix('-', pre) + Suffix('+', build)
  }

  /** Numeric components and dotted alphanumeric suffixes. */
  ghost predicate Parts(a: string, b: string, c: string, pre: Option<string>, build: Option<string>) {
    && Numeric(a) && Numeric(b) && Numeric(c)
    && (pre.Some? ==> DottedLabels(pre.value)) && (build.Some? ==> DottedLabels(build.value))
  }

  // ----- Splitting -----

  lemma {:induction false} SplitJoins(head: string, c: char, tail: Option<string>)
    requires c !in head
    ensures SplitOnce(head + Suffix(c, tail), c) == (head, tail)
  {
    var s := head + Suffix(c, tail);
    if head == "" {
      assert s == Suffix(c, tail);
      assert tail.Some? ==> s[1..] == tail.value;
    } else {
      assert s[1..] == head[1..] + Suffix(c, tail);
      SplitJoins(head[1..], c, tail);
      assert [head[0]] + head[1..] == head;
    }
  }

  lemma {:induction false} SplitRejoins(s: string, c: char)
    ensures var (head, tail) := SplitOnce(s, c); c !in head && s == head + Suffix(c, tail)
  {
    if s != "" && s[0] != c {
      SplitRejoins(s[1..], c);
    }
  }

  lemma {:induction false} LabelsOfDotted(a: string, rest: string)
    requires '.' !in a
    ensures Labels(a + "." + rest) == [a] + Labels(rest)
  {
    var s := a + "." + rest;
    if a == "" {
      assert s[1..] == rest;
    } else {
      assert s[1..] == a[1..] + "." + rest;
      LabelsOfDotted(a[1..], rest);
      assert [a[0]] + a[1..] == a;
    }
  }

  lemma {:induction false} LabelsOfPlain(a: string)
    requires '.' !in a
    ensures Labels(a) == [a]
  {
    if a != "" {
      LabelsOfPlain(a[1..]);
      assert [a[0]] + a[1..] == a;
    }
  }

  function Dotted(labels: seq<string>): string
    requires |labels| > 0
  {
    if |labels| == 1 then labels[0] else labels[0] + "." + Dotted(labels[1..])
  }

  lemma {:induction false} LabelsRejoin(s: string)
    ensures Dotted(Labels(s)) == s
  {
    if s != "" {
      var (all, rest) := (Labels(s), Labels(s[1..]));
      LabelsRejoin(s[1..]);
      HeadTail(s);
      if s[0] == '.' {
        assert all[1..] == rest;
        assert all[0] + "." + s[1..] == s;
      } else {
        assert all[1..] == rest[1..];
        if |rest| > 1 {
          var more := Dotted(rest[1..]);
          ConcatAssoc([s[0]], rest[0], ".");
          ConcatAssoc([s[0]], rest[0] + ".", more);
        }
      }
    }
  }

  /** A character of the text is a dot or belongs to a label. */
  lemma {:induction false} LabelsCover(s: string, c: char)
    requires c in s && c != '.'
    ensures exists l :: l in Labels(s) && c in l
  {
    var (all, rest) := (Labels(s), Labels(s[1..]));
    HeadTail(s);
    assert all[0] in all;
    if s[0] != c {
      LabelsCover(s[1..], c);
      var l :| l in rest && c in l;
      HeadTail(rest);
      assert s[0] != '.' ==> all[0] == [s[0]] + rest[0] && all[1..] == rest[1..];
      assert s[0] == '.' ==> all[1..] == rest;
    }
  }

  lemma DottedLabelsNoPlus(s: string)
    requires DottedLabels(s)
    ensures '+' !in s
  {
    if '+' in s {
      LabelsCover(s, '+');
    }
  }

  // ----- Both directions -----

  /** Every written form is accepted. */
  lemma WrittenIsValid(a: string, b: string, c: string, pre: Option<string>, build: Option<string>)
    requires Parts(a, b, c, pre, build)
    ensures ValidVersion(Written(a, b, c, pre, build))
  {
    var core := a + "." + b + "." + c;
    CoreLabels(a, b, c);
    CorePlain(a, b, c);
    if pre.Some? {
      DottedLabelsNoPlus(pre.value);
    }
    SplitJoins(core, '-', pre);
    SplitJoins(core + Suffix('-', pre), '+', build);
  }

  lemma CoreLabels(a: string, b: string, c: string)
    requires Numeric(a) && Numeric(b) && Numeric(c)
    ensures Labels(a + "." + b + "." + c) == [a, b, c]
  {
    assert a + "." + b + "." + c == a + "." + (b + "." + c);
    LabelsOfDotted(a, b + "." + c);
    LabelsOfDotted(b, c);
    LabelsOfPlain(c);
  }

  lemma CorePlain(a: string, b: string, c: string)
    requires Numeric(a) && Numeric(b) && Numeric(c)
    ensures '-' !in a + "." + b + "." + c && '+' !in a + "." + b + "." + c
  {
  }

  /** Every accepted version is a written form. */
  lemma ValidIsWritten(v: string) returns (a: string, b: string, c: string, pre: Option<string>, build: Option<string>)
    requires ValidVersion(v)
    ensures Parts(a, b, c, pre, build) && v == Written(a, b, c, pre, build)
  {
    var (head, build') := SplitOnce(v, '+');
    var (core, pre') := SplitOnce(head, '-');
    SplitRejoins(v, '+');
    SplitRejoins(head, '-');
    LabelsRejoin(core);
    var ls := Labels(core);
    a, b, c, pre, build := ls[0], ls[1], ls[2], pre', build';
    assert ls[0] in ls && ls[1] in ls && ls[2] in ls;
    assert ls[1..] == [b, c] && ls[1..][1..] == [c];
    assert Dotted(ls) == a + "." + Dotted([b, c]);
    assert Dotted([b, c]) == b + "." + Dotted([c]);
    ConcatAssoc(a + ".", b + ".", c);
    ConcatAssoc(a + ".", b, ".");
  }
}
