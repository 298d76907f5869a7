/** Strings in code-point order, the key order of the program's ordered maps. */
module Lexical {
  predicate StrLe(a: string, b: string) {
    a == "" || (b != "" && (a[0] < b[0] || (a[0] == b[0] && StrLe(a[1..], b[1..]))))
  }

  lemma {:induction false} StrLeTotal(a: string, b: string)
    ensures StrLe(a, b) || StrLe(b, a)
    decreases |a|
  {
    if a != "" && b != "" && a[0] == b[0] {
      StrLeTotal(a[1..], b[1..]);
    }
  }

  lemma {:induction false} StrLeTransitive(a: string, b: string, c: string)
    requires StrLe(a, b) && StrLe(b, c)
    ensures StrLe(a, c)
    decreases |a|
  {
    if a != "" && a[0] == b[0] && b[0] == c[0] {
      StrLeTransitive(a[1..], b[1..], c[1..]);
    }
  }

  lemma {:induction false} StrLeAntisymmetric(a: string, b: string)
    requires StrLe(a, b) && StrLe(b, a)
    ensures a == b
    decreases |a|
  {
    if a != "" {
      StrLeAntisymmetric(a[1..], b[1..]);
      assert a == [a[0]] + a[1..] && b == [b[0]] + b[1..];
    }
  }

  /** `n` comes first among `names`. */
  predicate Least(names: set<string>, n: string) {
    n in names && forall m :: m in names ==> StrLe(n, m)
  }

  lemma {:induction false} LeastExists(names: set<string>)
    requires names != {}
    ensures exists n :: Least(names, n)
  {
    var x :| x in names;
    StrLeTotal(x, x);
    if names == {x} {
      assert Least(names, x);
    } else {
      var rest := names - {x};
      LeastExists(rest);
      var n :| Least(rest, n);
      StrLeTotal(x, n);
      forall m | m in names && StrLe(x, n)
        ensures StrLe(x, m)
      {
        if m != x {
          StrLeTransitive(x, n, m);
        }
      }
      assert Least(names, if StrLe(x, n) then x else n);
    }
  }

  ghost function First(names: set<string>): (n: string)
    requires names != {}
    ensures Least(names, n)
  {
    LeastExists(names);
    var n :| Least(names, n);
    n
  }

  lemma LeastUnique(names: set<string>, a: string, b: string)
    requires Least(names, a) && Least(names, b)
    ensures a == b
  {
    StrLeAntisymmetric(a, b);
  }

  /** The order is lexicographic: a prefix comes first, and otherwise the first character that differs
      decides. */
  lemma {:induction false} StrLeLexicographic(p: string, x: char, y: char, s: string, t: string)
    requires x < y
    ensures StrLe(p, p + s)
    ensures StrLe(p + ([x] + s), p + ([y] + t)) && !StrLe(p + ([y] + t), p + ([x] + s))
    decreases |p|
  {
    if p != "" {
      var (a, b) := (p + ([x] + s), p + ([y] + t));
      assert a[1..] == p[1..] + ([x] + s) && b[1..] == p[1..] + ([y] + t) && (p + s)[1..] == p[1..] + s;
      StrLeLexicographic(p[1..], x, y, s, t);
    }
  }
}
