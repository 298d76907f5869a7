/** Decoding a `file://` URI to an absolute local path. Strings are their UTF-8 bytes. */
module FileUri {
  import opened Prelude
  import opened ByteText

  const PERCENT: byte := 37
  const SLASH: byte := 47

  datatype UriError = NotFile | RemoteAuthority | TruncatedEscape | BadEscape | NotUtf8

  // ----- Percent decoding -----

  /** The bytes of `s` with every `%XX` replaced, or the first fault. */
  function Unescape(s: Bytes): Result<Bytes, UriError> {
    if |s| == 0 then Ok([])
    else if s[0] != PERCENT then Cons(s[0], Unescape(s[1..]))
    else if |s| < 3 then Err(TruncatedEscape)
    else if !IsHex(s[1]) || !IsHex(s[2]) then Err(BadEscape)
    else Cons(HexDigit(s[1]) * 16 + HexDigit(s[2]), Unescape(s[3..]))
  }

  function Cons(b: byte, r: Result<Bytes, UriError>): Result<Bytes, UriError> {
    match r
    case Ok(bs) => Ok([b] + bs)
    case Err(e) => Err(e)
  }

  function Append(bs: Bytes, r: Result<Bytes, UriError>): Result<Bytes, UriError> {
    match r
    case Ok(more) => Ok(bs + more)
    case Err(e) => Err(e)
  }

  /** The decoded absolute path, checked to be UTF-8. */
  function PathOf(s: Bytes): Result<Bytes, UriError> {
    match Unescape(s)
    case Err(e) => Err(e)
    case Ok(bs) => if IsUtf8([SLASH] + bs) then Ok([SLASH] + bs) else Err(NotUtf8)
  }

  lemma {:induction false} PlainUnescapes(s: Bytes)
    requires PERCENT !in s
    ensures Unescape(s) == Ok(s)
  {
    if |s| > 0 {
      PlainUnescapes(s[1..]);
      assert s == [s[0]] + s[1..];
    }
  }

  lemma AppendCons(bs: Bytes, b: byte, r: Result<Bytes, UriError>)
    ensures Append(bs, Cons(b, r)) == Append(bs + [b], r)
  {
    if r.Ok? {
      assert bs + ([b] + r.value) == bs + [b] + r.value;
    }
  }

  /** One step of unescaping at position `i`. */
  lemma UnescapeAt(s: Bytes, i: nat)
    requires i < |s|
    ensures s[i] != PERCENT ==> Unescape(s[i..]) == Cons(s[i], Unescape(s[i + 1..]))
    ensures s[i] == PERCENT && i + 3 > |s| ==> Unescape(s[i..]) == Err(TruncatedEscape)
    ensures s[i] == PERCENT && i + 3 <= |s| && !(IsHex(s[i + 1]) && IsHex(s[i + 2])) ==>
              Unescape(s[i..]) == Err(BadEscape)
    ensures s[i] == PERCENT && i + 3 <= |s| && IsHex(s[i + 1]) && IsHex(s[i + 2]) ==>
              Unescape(s[i..]) == Cons(HexDigit(s[i + 1]) * 16 + HexDigit(s[i + 2]), Unescape(s[i + 3..]))
  {
    var rest := s[i..];
    assert rest[1..] == s[i + 1..];
    if i + 3 <= |s| {
      assert rest[3..] == s[i + 3..];
    }
  }

  /** `percent_decode`: text without escapes is returned at once; that shortcut agrees with the loop. */
  method PercentDecode(s: Bytes) returns (r: Result<Bytes, UriError>)
    requires IsUtf8(s)
    ensures r == PathOf(s)
  {
    if PERCENT !in s {
      PlainUnescapes(s);
      AsciiThenUtf8([SLASH], s);
      return Ok([SLASH] + s);
    }
    var out := [SLASH];
    var i := 0;
    assert s[0..] == s;
    while i < |s|
      invariant 0 <= i <= |s|
      invariant Append([SLASH], Unescape(s)) == Append(out, Unescape(s[i..]))
      decreases |s| - i
    {
      UnescapeAt(s, i);
      if s[i] == PERCENT {
        if i + 3 > |s| {
          return Err(TruncatedEscape);
        }
        if !IsHex(s[i + 1]) || !IsHex(s[i + 2]) {
          return Err(BadEscape);
        }
        var b: byte := HexDigit(s[i + 1]) * 16 + HexDigit(s[i + 2]);
        AppendCons(out, b, Unescape(s[i + 3..]));
        out := out + [b];
        i := i + 3;
      } else {
        AppendCons(out, s[i], Unescape(s[i + 1..]));
        out := out + [s[i]];
        i := i + 1;
      }
    }
    assert s[i..] == [] && out + [] == out;
    return if IsUtf8(out) then Ok(out) else Err(NotUtf8);
  }

  // ----- Round trip -----

  /** One byte as a URI may spell it: itself unless it is a percent sign, or two hex digits in either
      case. */
  datatype Unit = Raw(b: byte) | Hex(hi: byte, lo: byte)

  predicate ValidUnit(u: Unit) {
    match u
    case Raw(b) => b != PERCENT
    case Hex(hi, lo) => IsHex(hi) && IsHex(lo)
  }

  function ByteOf(u: Unit): byte
    requires ValidUnit(u)
  {
    match u
    case Raw(b) => b
    case Hex(hi, lo) => HexDigit(hi) * 16 + HexDigit(lo)
  }

  ghost predicate ValidUnits(us: seq<Unit>) {
    forall i :: 0 <= i < |us| ==> ValidUnit(us[i])
  }

  function Spell(us: seq<Unit>): Bytes {
    if |us| == 0 then []
    else (match us[0]
          case Raw(b) => [b]
          case Hex(hi, lo) => [PERCENT, hi, lo]) + Spell(us[1..])
  }

  ghost function Denoted(us: seq<Unit>): Bytes
    requires ValidUnits(us)
  {
    seq(|us|, i requires 0 <= i < |us| => ByteOf(us[i]))
  }

  /** Every spelling of a byte string decodes to it. */
  lemma {:induction false} SpelledDecodes(us: seq<Unit>)
    requires ValidUnits(us)
    ensures Unescape(Spell(us)) == Ok(Denoted(us))
  {
    if |us| > 0 {
      SpelledDecodes(us[1..]);
      var (s, rest) := (Spell(us), Spell(us[1..]));
      assert Denoted(us) == [ByteOf(us[0])] + Denoted(us[1..]);
      match us[0] {
        case Raw(b) => assert s[1..] == rest;
        case Hex(hi, lo) => assert s[3..] == rest;
      }
    }
  }

  /** Only spellings decode. */
  lemma {:induction false} DecodedIsSpelling(s: Bytes) returns (us: seq<Unit>)
    requires Unescape(s).Ok?
    ensures ValidUnits(us) && Spell(us) == s && Unescape(s) == Ok(Denoted(us))
  {
    us := [];
    if |s| == 0 {
      assert Denoted(us) == [];
    } else {
      var n := if s[0] == PERCENT then 3 else 1;
      var rest := DecodedIsSpelling(s[n..]);
      us := [if s[0] == PERCENT then Hex(s[1], s[2]) else Raw(s[0])] + rest;
      assert us[1..] == rest;
      assert s == s[..n] + s[n..];
      SpelledDecodes(us);
    }
  }

  // ----- The URI -----

  const FILE_SCHEME: Bytes := [102, 105, 108, 101, 58, 47, 47]
  const LOCALHOST: Bytes := [108, 111, 99, 97, 108, 104, 111, 115, 116]

  function LowerAscii(s: Bytes): Bytes {
    seq(|s|, i requires 0 <= i < |s| => if 65 <= s[i] <= 90 then s[i] + 32 else s[i])
  }

  /** Position of the first slash, or the length. */
  function FirstSlash(s: Bytes): (i: nat)
    ensures i <= |s| && (i < |s| ==> s[i] == SLASH) && forall j :: 0 <= j < i ==> s[j] != SLASH
  {
    if |s| == 0 || s[0] == SLASH then 0 else 1 + FirstSlash(s[1..])
  }

  /** `file_uri_to_path`: an empty or `localhost` authority before an absolute path. */
  function FileUriToPath(uri: Bytes): Result<Bytes, UriError> {
    if !(FILE_SCHEME <= uri) then Err(NotFile)
    else
      var rest := uri[|FILE_SCHEME|..];
      var i := FirstSlash(rest);
      if i == |rest| || (i > 0 && LowerAscii(rest[..i]) != LOCALHOST) then Err(RemoteAuthority)
      else PathOf(rest[i + 1..])
  }

  /** Any URI for a local path, with an empty authority or any casing of `localhost`, yields exactly the
      path it spells. */
  lemma LocalUriReadsBack(host: Bytes, us: seq<Unit>)
    requires host == [] || LowerAscii(host) == LOCALHOST
    requires ValidUnits(us) && IsUtf8([SLASH] + Denoted(us))
    ensures FileUriToPath(FILE_SCHEME + host + [SLASH] + Spell(us)) == Ok([SLASH] + Denoted(us))
  {
    var path := Spell(us);
    ConcatAssoc(FILE_SCHEME + host, [SLASH], path);
    ConcatAssoc(FILE_SCHEME, host, [SLASH] + path);
    SpelledDecodes(us);
    LocalUriPath(host, path);
  }

  lemma LocalUriPath(host: Bytes, path: Bytes)
    requires host == [] || LowerAscii(host) == LOCALHOST
    ensures FileUriToPath(FILE_SCHEME + (host + ([SLASH] + path))) == PathOf(path)
  {
    var rest := host + ([SLASH] + path);
    ConcatParts(FILE_SCHEME, rest);
    NoSlashInside(host);
    FirstSlashAfter(host, path);
    ConcatParts(host, [SLASH] + path);
    assert rest[|host| + 1..] == path;
  }

  lemma {:induction false} FirstSlashAfter(host: Bytes, path: Bytes)
    requires forall j :: 0 <= j < |host| ==> host[j] != SLASH
    ensures FirstSlash(host + ([SLASH] + path)) == |host|
  {
    if |host| > 0 {
      assert (host + ([SLASH] + path))[1..] == host[1..] + ([SLASH] + path);
      FirstSlashAfter(host[1..], path);
    }
  }

  /** A URI that yields a path has the `file` scheme, an authority that is empty or `localhost` in any
      casing, and a spelling of that path. */
  lemma OnlyLocalUris(uri: Bytes) returns (host: Bytes, us: seq<Unit>)
    requires FileUriToPath(uri).Ok?
    ensures uri == FILE_SCHEME + (host + ([SLASH] + Spell(us))) && (host == [] || LowerAscii(host) == LOCALHOST)
    ensures ValidUnits(us) && FileUriToPath(uri) == Ok([SLASH] + Denoted(us)) && IsUtf8([SLASH] + Denoted(us))
  {
    var rest := uri[|FILE_SCHEME|..];
    var i := FirstSlash(rest);
    host := rest[..i];
    us := DecodedIsSpelling(rest[i + 1..]);
    SplitAt(uri, |FILE_SCHEME|);
    SplitAt(rest, i);
    HeadTail(rest[i..]);
    assert rest[i..][1..] == rest[i + 1..];
  }

  /** `localhost` in some casing: nine characters, each the letter of its place in either case. */
  lemma LocalhostCasings(host: Bytes)
    ensures LowerAscii(host) == LOCALHOST <==>
            |host| == 9 && forall i :: 0 <= i < 9 ==> host[i] == LOCALHOST[i] || host[i] == LOCALHOST[i] - 32
  {
    if |host| == 9 {
      forall i | 0 <= i < 9
        ensures LowerAscii(host)[i] == LOCALHOST[i] <==> host[i] == LOCALHOST[i] || host[i] == LOCALHOST[i] - 32
      {
        assert 97 <= LOCALHOST[i] <= 122;
      }
      assert (forall i :: 0 <= i < 9 ==> LowerAscii(host)[i] == LOCALHOST[i]) ==> LowerAscii(host) == LOCALHOST;
    }
  }

  /** Which URIs are refused for what: another scheme, an authority that is not this host or no path at
      all, and otherwise the first fault of the path. */
  lemma RefusedUris(uri: Bytes)
    ensures FileUriToPath(uri) == Err(NotFile) <==> !(FILE_SCHEME <= uri)
    ensures FileUriToPath(uri) == Err(RemoteAuthority) <==>
            FILE_SCHEME <= uri && !HasLocalAuthority(uri[|FILE_SCHEME|..])
  {
    PathFaults(if FILE_SCHEME <= uri && FirstSlash(uri[|FILE_SCHEME|..]) < |uri[|FILE_SCHEME|..]|
               then uri[|FILE_SCHEME|..][FirstSlash(uri[|FILE_SCHEME|..]) + 1..] else []);
    if FILE_SCHEME <= uri {
      LocalAuthority(uri[|FILE_SCHEME|..]);
    }
  }

  /** The text is a path after an empty or `localhost` authority. */
  ghost predicate HasLocalAuthority(rest: Bytes) {
    exists n :: 0 <= n < |rest| && rest[n] == SLASH && LocalUpTo(rest, n)
  }

  ghost predicate LocalUpTo(rest: Bytes, n: nat) {
    n <= |rest| && (n == 0 || LowerAscii(rest[..n]) == LOCALHOST)
  }

  lemma LocalAuthority(rest: Bytes)
    ensures HasLocalAuthority(rest) <==> FirstSlash(rest) < |rest| && LocalUpTo(rest, FirstSlash(rest))
  {
    forall n: nat | n < |rest| && rest[n] == SLASH && LocalUpTo(rest, n)
      ensures n == FirstSlash(rest)
    {
      LocalEndsAtSlash(rest, n);
    }
  }

  lemma LocalEndsAtSlash(rest: Bytes, n: nat)
    requires n < |rest| && rest[n] == SLASH && LocalUpTo(rest, n)
    ensures FirstSlash(rest) == n
  {
    var host := rest[..n];
    NoSlashInside(host);
    forall j | 0 <= j < n
      ensures rest[j] != SLASH
    {
      assert host[j] == rest[j];
    }
  }

  lemma NoSlashInside(host: Bytes)
    requires host == [] || LowerAscii(host) == LOCALHOST
    ensures forall j :: 0 <= j < |host| ==> host[j] != SLASH
  {
    forall j | 0 <= j < |host|
      ensures host[j] != SLASH
    {
      assert LowerAscii(host)[j] == LOCALHOST[j];
    }
  }

  lemma {:induction false} PathFaults(s: Bytes)
    ensures Unescape(s).Err? ==> Unescape(s).error == TruncatedEscape || Unescape(s).error == BadEscape
  {
    if |s| > 0 {
      if s[0] != PERCENT {
        PathFaults(s[1..]);
      } else if |s| >= 3 {
        PathFaults(s[3..]);
      }
    }
  }
}
