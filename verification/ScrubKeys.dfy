/** Blanking of API-key material in outgoing text: the `uxcp_` prefix followed by a run of exactly 64
    hexadecimal digits. */
module ScrubKeys {
  import opened Prelude

  const PREFIX: string := "uxcp_"
  const REDACTED: string := "[REDACTED]"
  const KEY_DIGITS: nat := 64

  predicate IsHex(c: char) {
    '0' <= c <= '9' || 'a' <= c <= 'f' || 'A' <= c <= 'F'
  }

  /** Length of the maximal run of hexadecimal digits that `s` starts with. */
  function HexRun(s: string): (n: nat)
    ensures n <= |s| && (n < |s| ==> !IsHex(s[n]))
    ensures forall i :: 0 <= i < n ==> IsHex(s[i])
  {
    if s == "" || !IsHex(s[0]) then 0 else 1 + HexRun(s[1..])
  }

  predicate StartsKey(s: string) {
    PREFIX <= s && HexRun(s[|PREFIX|..]) == KEY_DIGITS
  }

  // ----- Specification: replace every key where it starts -----

  /** Every key of `s` replaced, everything else kept in order. */
  function Scrubbed(s: string): string {
    if s == "" then ""
    else if StartsKey(s) then REDACTED + Scrubbed(s[|PREFIX| + KEY_DIGITS..])
    else [s[0]] + Scrubbed(s[1..])
  }

  /** No position of `s` starts a key. */
  ghost predicate Clean(s: string) {
    forall i :: 0 <= i < |s| ==> !StartsKey(s[i..])
  }

  // ----- The rewriting loop -----

  /** `find`: the first occurrence of the prefix, or the length when there is none. */
  method FindPrefix(s: string) returns (i: nat)
    ensures i <= |s| && (i < |s| ==> PREFIX <= s[i..])
    ensures forall j :: 0 <= j < i ==> !(PREFIX <= s[j..])
  {
    i := 0;
    while i < |s| && !(PREFIX <= s[i..])
      invariant i <= |s| && forall j :: 0 <= j < i ==> !(PREFIX <= s[j..])
    {
      i := i + 1;
    }
  }

  lemma {:induction false} PlainCopied(s: string, i: nat)
    requires i <= |s| && forall j :: 0 <= j < i ==> !StartsKey(s[j..])
    ensures Scrubbed(s) == s[..i] + Scrubbed(s[i..])
  {
    if i == 0 {
      assert s[0..] == s;
    } else {
      assert s[0..] == s;
      forall j | 0 <= j < i - 1
        ensures !StartsKey(s[1..][j..])
      {
        assert s[1..][j..] == s[j + 1..];
      }
      PlainCopied(s[1..], i - 1);
      assert s[1..][i - 1..] == s[i..];
      assert s[..i] == [s[0]] + s[1..][..i - 1];
    }
  }

  /** The prefix does not overlap itself. */
  lemma PrefixAlone(s: string, j: nat)
    requires PREFIX <= s && 0 < j < |PREFIX|
    ensures !(PREFIX <= s[j..])
  {
    assert s[j] == PREFIX[j];
    assert s[j..][0] == s[j];
  }

  /** `scrub_keys`. */
  method Scrub(s: string) returns (out: string)
    ensures out == Scrubbed(s)
  {
    out := "";
    var rest := s;
    var i: nat := FindPrefix(rest);
    while i < |rest|
      invariant i <= |rest| && (i < |rest| ==> PREFIX <= rest[i..])
      invariant forall j :: 0 <= j < i ==> !(PREFIX <= rest[j..])
      invariant out + Scrubbed(rest) == Scrubbed(s)
      decreases |rest|
    {
      PlainCopied(rest, i);
      ConcatAssoc(out, rest[..i], Scrubbed(rest[i..]));
      out := out + rest[..i];
      ghost var here := rest[i..];
      var tail := rest[i + |PREFIX|..];
      assert tail == here[|PREFIX|..];
      if HexRun(tail) == KEY_DIGITS {
        assert here[|PREFIX| + KEY_DIGITS..] == tail[KEY_DIGITS..];
        ConcatAssoc(out, REDACTED, Scrubbed(tail[KEY_DIGITS..]));
        out := out + REDACTED;
        rest := tail[KEY_DIGITS..];
      } else {
        PrefixCopied(here);
        ConcatAssoc(out, PREFIX, Scrubbed(tail));
        out := out + PREFIX;
        rest := tail;
      }
      i := FindPrefix(rest);
    }
    PlainCopied(rest, |rest|);
    out := out + rest;
  }

  lemma PrefixCopied(s: string)
    requires PREFIX <= s && !StartsKey(s)
    ensures Scrubbed(s) == PREFIX + Scrubbed(s[|PREFIX|..])
  {
    forall j | 0 <= j < |PREFIX|
      ensures !StartsKey(s[j..])
    {
      if j > 0 {
        PrefixAlone(s, j);
      } else {
        assert s[0..] == s;
      }
    }
    PlainCopied(s, |PREFIX|);
  }

  // ----- Nothing is left, and nothing more happens -----

  /** Scrubbing does not change how a text starts as a run of digits. */
  lemma {:induction false} HexRunKept(s: string)
    ensures HexRun(Scrubbed(s)) == HexRun(s)
  {
    if s != "" {
      if StartsKey(s) {
        assert s[0] == 'u' && Scrubbed(s)[0] == '[';
      } else {
        HexRunKept(s[1..]);
        assert Scrubbed(s)[1..] == Scrubbed(s[1..]);
      }
    }
  }

  /** A prefix in the output was a prefix of the input, copied character by character. */
  lemma PrefixKept(s: string, p: string)
    requires |p| <= |PREFIX| && p == PREFIX[|PREFIX| - |p|..] && p <= Scrubbed(s) && (p == PREFIX ==> !StartsKey(s))
    ensures p <= s && Scrubbed(s)[|p|..] == Scrubbed(s[|p|..])
    decreases |p|
  {
    if p != "" {
      assert Scrubbed(s)[0] == p[0];
      assert !StartsKey(s);
      assert s[0] == p[0] && Scrubbed(s)[1..] == Scrubbed(s[1..]);
      PrefixKept(s[1..], p[1..]);
      assert s[1..][|p| - 1..] == s[|p|..];
      assert Scrubbed(s)[1..][|p| - 1..] == Scrubbed(s)[|p|..];
      HeadTail(s);
      HeadTail(p);
    }
  }

  /** The output never starts a key anywhere. */
  lemma {:induction false} OutputClean(s: string)
    ensures Clean(Scrubbed(s))
  {
    if s != "" {
      var out := Scrubbed(s);
      var head := if StartsKey(s) then REDACTED else [s[0]];
      var rest := if StartsKey(s) then s[|PREFIX| + KEY_DIGITS..] else s[1..];
      assert out == head + Scrubbed(rest);
      OutputClean(rest);
      forall i | 0 <= i < |out|
        ensures !StartsKey(out[i..])
      {
        if i >= |head| {
          assert out[i..] == Scrubbed(rest)[i - |head|..];
        } else if StartsKey(s) {
          assert out[i] == REDACTED[i] != 'u';
        } else {
          assert out[0..] == out;
          if PREFIX <= out {
            PrefixKept(s, PREFIX);
            HexRunKept(s[|PREFIX|..]);
          }
        }
      }
    }
  }

  /** A clean text is left alone. */
  lemma {:induction false} CleanUnchanged(s: string)
    requires Clean(s)
    ensures Scrubbed(s) == s
  {
    if s != "" {
      assert s[0..] == s;
      forall j | 0 <= j < |s| - 1
        ensures !StartsKey(s[1..][j..])
      {
        assert s[1..][j..] == s[j + 1..];
      }
      CleanUnchanged(s[1..]);
    }
  }

  /** Scrubbing leaves no key behind, is idempotent, and changes exactly the texts that hold one. */
  lemma ScrubIdempotent(s: string)
    ensures Clean(Scrubbed(s)) && Scrubbed(Scrubbed(s)) == Scrubbed(s)
    ensures Scrubbed(s) == s <==> Clean(s)
  {
    OutputClean(s);
    CleanUnchanged(Scrubbed(s));
    if Clean(s) {
      CleanUnchanged(s);
    }
  }

  // ----- What is replaced, and by what -----

  lemma {:induction false} HexRunAfter(k: string, b: string)
    requires (forall i :: 0 <= i < |k| ==> IsHex(k[i])) && (b == "" || !IsHex(b[0]))
    ensures HexRun(k + b) == |k|
  {
    if k == "" {
      assert k + b == b;
    } else {
      assert (k + b)[1..] == k[1..] + b;
      HexRunAfter(k[1..], b);
    }
  }

  /** The digits are those of the table. */
  lemma HexChars(c: char)
    ensures IsHex(c) <==> c in "0123456789abcdefABCDEF"
  {
    var table := "0123456789abcdefABCDEF";
    assert '0' <= c <= '9' ==> table[c as int - '0' as int] == c;
    assert 'a' <= c <= 'f' ==> table[c as int - 'a' as int + 10] == c;
    assert 'A' <= c <= 'F' ==> table[c as int - 'A' as int + 16] == c;
  }

  /** The first key of a text is replaced, the text before it kept and the text after it scrubbed. */
  lemma FirstKeyReplaced(a: string, k: string, b: string)
    requires |k| == 64 && (forall i :: 0 <= i < |k| ==> IsHex(k[i])) && (b == "" || !IsHex(b[0]))
    requires forall j :: 0 <= j < |a| ==> !StartsKey((a + ("uxcp_" + (k + b)))[j..])
    ensures Scrubbed(a + ("uxcp_" + (k + b))) == a + ("[REDACTED]" + Scrubbed(b))
  {
    var key := PREFIX + (k + b);
    PlainCopied(a + key, |a|);
    ConcatParts(a, key);
    ConcatParts(PREFIX, k + b);
    HexRunAfter(k, b);
    assert StartsKey(key);
    ConcatParts(k, b);
    assert key[|PREFIX| + KEY_DIGITS..] == b;
  }

  /** Every text that is not clean splits at its first key in that way. */
  lemma FirstKey(s: string) returns (a: string, k: string, b: string)
    requires !Clean(s)
    ensures s == a + ("uxcp_" + (k + b))
    ensures |k| == 64 && (forall i :: 0 <= i < |k| ==> IsHex(k[i])) && (b == "" || !IsHex(b[0]))
    ensures forall j :: 0 <= j < |a| ==> !StartsKey(s[j..])
  {
    var n := 0;
    while !StartsKey(s[n..])
      invariant 0 <= n < |s| && forall j :: 0 <= j < n ==> !StartsKey(s[j..])
      decreases |s| - n
    {
      n := n + 1;
    }
    var here := s[n..];
    var run := here[|PREFIX|..];
    a, k, b := s[..n], run[..KEY_DIGITS], run[KEY_DIGITS..];
    SplitAt(s, n);
    SplitAt(run, KEY_DIGITS);
    assert here == PREFIX + run;
  }
}
