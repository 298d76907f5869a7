/** Decoding of the HTTP/1.1 chunked transfer coding (RFC 9112 section 7.1) as the CDP client does it,
    on 64-bit targets. */
module ChunkedDecoding {
  import opened Prelude
  import opened ByteText

  const CR: byte := 13
  const LF: byte := 10
  const SEMICOLON: byte := 59
  const USIZE_MAX: nat := 0xFFFF_FFFF_FFFF_FFFF

  /** No slice is longer. */
  const ISIZE_MAX: nat := 0x7FFF_FFFF_FFFF_FFFF

  datatype ChunkError = BadHeader | NonUtf8Header | BadSize | Truncated

  /** `Panic` is the abort on an arithmetic overflow, or on a slice end past the buffer. */
  datatype Outcome = Decoded(body: Bytes) | Failed(e: ChunkError) | Panic

  // ----- Header lines -----

  predicate CrlfAt(b: Bytes, i: nat) {
    i + 1 < |b| && b[i] == CR && b[i + 1] == LF
  }

  /** Position of the first CRLF, or the length when there is none. */
  function LineEnd(b: Bytes): (i: nat)
    ensures i <= |b| && (i < |b| ==> CrlfAt(b, i))
    ensures forall j :: 0 <= j < i ==> !CrlfAt(b, j)
  {
    if |b| < 2 then |b|
    else if CrlfAt(b, 0) then 0
    else
      assert forall j :: 0 < j < |b| ==> (CrlfAt(b, j) <==> CrlfAt(b[1..], j - 1));
      1 + LineEnd(b[1..])
  }

  function BeforeSemicolon(b: Bytes): Bytes {
    if |b| == 0 || b[0] == SEMICOLON then [] else [b[0]] + BeforeSemicolon(b[1..])
  }

  /** The UTF-8 encodings of the characters with the Unicode White_Space property. */
  predicate IsSpace(c: Bytes) {
    match |c|
    case 1 => 9 <= c[0] <= 13 || c[0] == 32
    case 2 => c[0] == 0xC2 && (c[1] == 0x85 || c[1] == 0xA0)
    case 3 =>
      || (c[0] == 0xE1 && c[1] == 0x9A && c[2] == 0x80)
      || (c[0] == 0xE2 && c[1] == 0x80 && (0x80 <= c[2] <= 0x8A || c[2] == 0xA8 || c[2] == 0xA9 || c[2] == 0xAF))
      || (c[0] == 0xE2 && c[1] == 0x81 && c[2] == 0x9F)
      || (c[0] == 0xE3 && c[1] == 0x80 && c[2] == 0x80)
    case _ => false
  }

  function TrimStart(b: Bytes): (r: Bytes)
    ensures |r| <= |b|
  {
    if |b| >= 1 && IsSpace(b[..1]) then TrimStart(b[1..])
    else if |b| >= 2 && IsSpace(b[..2]) then TrimStart(b[2..])
    else if |b| >= 3 && IsSpace(b[..3]) then TrimStart(b[3..])
    else b
  }

  function TrimEnd(b: Bytes): (r: Bytes)
    ensures |r| <= |b|
  {
    if |b| >= 1 && IsSpace(b[|b| - 1..]) then TrimEnd(b[..|b| - 1])
    else if |b| >= 2 && IsSpace(b[|b| - 2..]) then TrimEnd(b[..|b| - 2])
    else if |b| >= 3 && IsSpace(b[|b| - 3..]) then TrimEnd(b[..|b| - 3])
    else b
  }

  function Trim(b: Bytes): Bytes {
    TrimEnd(TrimStart(b))
  }

  predicate AllHex(b: Bytes) {
    forall i :: 0 <= i < |b| ==> IsHex(b[i])
  }

  function HexValue(b: Bytes): nat
    requires AllHex(b)
  {
    if |b| == 0 then 0 else 16 * HexValue(b[..|b| - 1]) + HexDigit(b[|b| - 1])
  }

  /** `usize::from_str_radix(_, 16)`: an optional plus sign, at least one digit, no overflow. */
  function FromStrRadix16(b: Bytes): Option<nat> {
    var digits := if |b| > 1 && b[0] == 43 then b[1..] else b;
    if |digits| > 0 && AllHex(digits) && HexValue(digits) <= USIZE_MAX then Some(HexValue(digits)) else None
  }

  function SizeField(line: Bytes): Option<nat> {
    FromStrRadix16(Trim(BeforeSemicolon(line)))
  }

  // ----- Specification of the decoder -----

  function Prefix(head: Bytes, r: Outcome): Outcome {
    match r
    case Decoded(body) => Decoded(head + body)
    case _ => r
  }

  /** The size in the header line and what follows the line. */
  function Header(b: Bytes): (r: Result<(nat, Bytes), ChunkError>)
    ensures r.Ok? ==> r.value.0 <= USIZE_MAX && |r.value.1| < |b|
  {
    var e := LineEnd(b);
    if e == |b| then Err(BadHeader)
    else if !IsUtf8(b[..e]) then Err(NonUtf8Header)
    else
      match SizeField(b[..e])
      case None => Err(BadSize)
      case Some(size) => Ok((size, b[e + 2..]))
  }

  /** `size + 2` on the target's words: overflow aborts when it is checked (debug builds) and wraps
      around when it is not (release builds). */
  function End(size: nat, checked: bool): (r: Option<nat>)
    ensures size + 2 <= USIZE_MAX ==> r == Some(size + 2)
  {
    if checked && size + 2 > USIZE_MAX then None else Some((size + 2) % (USIZE_MAX + 1))
  }

  function Decode(b: Bytes, checked: bool): (r: Outcome)
    ensures r.Decoded? && |b| <= ISIZE_MAX ==> |r.body| <= |b|
    decreases |b|, 0
  {
    match Header(b)
    case Err(e) => Failed(e)
    case Ok((size, rest)) => DecodeData(rest, size, checked)
  }

  /** What follows a header of the given size: nothing more after zero, else the data, two bytes that
      are skipped unread, and the next chunk. */
  function DecodeData(rest: Bytes, size: nat, checked: bool): (r: Outcome)
    ensures r.Decoded? && |rest| <= ISIZE_MAX ==> |r.body| <= |rest|
    decreases |rest|, 1
  {
    if size == 0 then Decoded([])
    else
      var end := End(size, checked);
      if end.None? then Panic
      else if |rest| < end.value then Failed(Truncated)
      else if size > |rest| then Panic
      else Prefix(rest[..size], Decode(rest[end.value..], checked))
  }

  lemma EnoughData(rest: Bytes, size: nat, checked: bool)
    requires 0 < size && size + 2 <= USIZE_MAX && size + 2 <= |rest|
    ensures DecodeData(rest, size, checked) == Prefix(rest[..size], Decode(rest[size + 2..], checked))
  {
    assert End(size, checked) == Some(size + 2);
  }

  /** Whether the step for a non-zero size aborts: with checked arithmetic exactly when the sum
      overflows; without, exactly when moreover the wrapped sum is no more than what is there. */
  lemma AbortsIff(rest: Bytes, size: nat, checked: bool)
    requires 0 < size <= USIZE_MAX && |rest| < size + 2 && |rest| <= ISIZE_MAX
    ensures DecodeData(rest, size, checked) == if Aborts(rest, size, checked) then Panic else Failed(Truncated)
  {
  }

  predicate Aborts(rest: Bytes, size: nat, checked: bool) {
    size >= USIZE_MAX - 1 && (checked || !(size == USIZE_MAX && rest == []))
  }

  lemma PrefixPrefix(a: Bytes, c: Bytes, r: Outcome)
    ensures Prefix(a, Prefix(c, r)) == Prefix(a + c, r)
  {
    if r.Decoded? {
      assert a + (c + r.body) == a + c + r.body;
    }
  }

  lemma PrefixNil(r: Outcome)
    ensures Prefix([], r) == r
  {
    if r.Decoded? {
      assert [] + r.body == r.body;
    }
  }

  lemma PrefixDone(out: Bytes)
    ensures Prefix(out, Decoded([])) == Decoded(out)
  {
    assert out + [] == out;
  }

  /** The head of the loop body: one header line. */
  method TakeHeader(buf: Bytes) returns (r: Result<(nat, Bytes), ChunkError>)
    ensures r == Header(buf)
  {
    var e := LineEnd(buf);
    if e == |buf| {
      return Err(BadHeader);
    }
    if !IsUtf8(buf[..e]) {
      return Err(NonUtf8Header);
    }
    var size := SizeField(buf[..e]);
    if size.None? {
      return Err(BadSize);
    }
    return Ok((size.value, buf[e + 2..]));
  }

  /** `decode_chunked`. */
  method DecodeChunked(input: Bytes, checked: bool) returns (r: Outcome)
    ensures r == Decode(input, checked)
    ensures r.Decoded? && |input| <= ISIZE_MAX ==> |r.body| <= |input|
  {
    var buf := input;
    var out: Bytes := [];
    PrefixNil(Decode(input, checked));
    while true
      invariant Decode(input, checked) == Prefix(out, Decode(buf, checked))
      decreases |buf|
    {
      var header := TakeHeader(buf);
      if header.Err? {
        return Failed(header.error);
      }
      var (size, rest) := header.value;
      if size == 0 {
        PrefixDone(out);
        return Decoded(out);
      }
      var end := End(size, checked);
      if end.None? {
        return Panic;
      }
      if |rest| < end.value {
        return Failed(Truncated);
      }
      if size > |rest| {
        return Panic;
      }
      PrefixPrefix(out, rest[..size], Decode(rest[end.value..], checked));
      out := out + rest[..size];
      buf := rest[end.value..];
    }
  }

  // ----- Encoding -----

  /** One chunk as a sender may write it: size digits in either case, with any leading zeros; blanks;
      an extension; the data; and the two bytes after it (CRLF in the RFC, not looked at here). */
  datatype Chunk = Chunk(digits: Bytes, blanks: Bytes, ext: Bytes, data: Bytes, end: Bytes)

  /** Any extension without CRLF is allowed, text or not. */
  ghost predicate ValidHeader(digits: Bytes, blanks: Bytes, ext: Bytes) {
    && |digits| > 0 && AllHex(digits)
    && (forall i :: 0 <= i < |blanks| ==> blanks[i] == 32 || blanks[i] == 9)
    && (ext == [] || ext[0] == SEMICOLON) && LineEnd(ext) == |ext|
  }

  /** A non-empty chunk, no longer than memory. */
  ghost predicate ValidChunk(c: Chunk) {
    && ValidHeader(c.digits, c.blanks, c.ext)
    && HexValue(c.digits) == |c.data| && 0 < |c.data| <= USIZE_MAX - 2 && |c.end| == 2
  }

  /** Every extension is UTF-8. */
  ghost predicate TextOnly(chunks: seq<Chunk>) {
    forall i :: 0 <= i < |chunks| ==> IsUtf8(chunks[i].ext)
  }

  function Line(digits: Bytes, blanks: Bytes, ext: Bytes): Bytes {
    digits + blanks + ext + [CR, LF]
  }

  function Encode(chunks: seq<Chunk>): Bytes {
    if |chunks| == 0 then []
    else Line(chunks[0].digits, chunks[0].blanks, chunks[0].ext) + chunks[0].data + chunks[0].end + Encode(chunks[1..])
  }

  function Payload(chunks: seq<Chunk>): Bytes {
    if |chunks| == 0 then [] else chunks[0].data + Payload(chunks[1..])
  }

  // ----- Header lines read back -----

  predicate NoCr(b: Bytes) {
    forall i :: 0 <= i < |b| ==> b[i] != CR
  }

  lemma {:induction false} LineEndAfter(a: Bytes, ext: Bytes, tail: Bytes)
    requires NoCr(a) && LineEnd(ext) == |ext|
    ensures LineEnd(a + ext + [CR, LF] + tail) == |a| + |ext|
    decreases |a| + |ext|
  {
    var b := a + ext + [CR, LF] + tail;
    if |a| > 0 {
      assert b[1..] == a[1..] + ext + [CR, LF] + tail;
      LineEndAfter(a[1..], ext, tail);
    } else if |ext| > 0 {
      assert b[1..] == a + ext[1..] + [CR, LF] + tail;
      assert |ext| == 1 ==> b[1] == CR;
      assert |ext| > 1 ==> b[1] == ext[1];
      LineEndAfter(a, ext[1..], tail);
    }
  }

  lemma {:induction false} CutAtSemicolon(a: Bytes, ext: Bytes)
    requires (forall i :: 0 <= i < |a| ==> a[i] != SEMICOLON) && (ext == [] || ext[0] == SEMICOLON)
    ensures BeforeSemicolon(a + ext) == a
  {
    if |a| == 0 {
      assert a + ext == ext;
    } else {
      assert (a + ext)[1..] == a[1..] + ext;
      CutAtSemicolon(a[1..], ext);
    }
  }

  lemma TrimStartHex(b: Bytes)
    requires |b| > 0 && IsHex(b[0])
    ensures TrimStart(b) == b
  {
    assert forall k :: 0 < k <= |b| ==> b[..k][0] == b[0];
  }

  lemma HexEndsNoSpace(c: Bytes)
    requires |c| > 0 && IsHex(c[|c| - 1])
    ensures !IsSpace(c)
  {
  }

  lemma TrimEndHex(b: Bytes)
    requires |b| > 0 && IsHex(b[|b| - 1])
    ensures TrimEnd(b) == b
  {
    HexEndsNoSpace(b[|b| - 1..]);
    if |b| >= 2 { HexEndsNoSpace(b[|b| - 2..]); }
    if |b| >= 3 { HexEndsNoSpace(b[|b| - 3..]); }
  }

  lemma {:induction false} TrimBlanks(digits: Bytes, blanks: Bytes)
    requires |digits| > 0 && AllHex(digits)
    requires forall i :: 0 <= i < |blanks| ==> blanks[i] == 32 || blanks[i] == 9
    ensures TrimEnd(digits + blanks) == digits
    decreases |blanks|
  {
    var b := digits + blanks;
    if |blanks| == 0 {
      assert b == digits;
      TrimEndHex(digits);
    } else {
      assert b[..|b| - 1] == digits + blanks[..|blanks| - 1];
      assert b[|b| - 1..] == [blanks[|blanks| - 1]];
      TrimBlanks(digits, blanks[..|blanks| - 1]);
    }
  }

  /** The size field is read back whatever blanks and extension follow the digits. */
  lemma SizeReadsBack(digits: Bytes, blanks: Bytes, ext: Bytes)
    requires ValidHeader(digits, blanks, ext)
    ensures SizeField(digits + blanks + ext) == if HexValue(digits) <= USIZE_MAX then Some(HexValue(digits)) else None
  {
    var a := digits + blanks;
    assert forall i :: 0 <= i < |a| ==> IsHex(a[i]) || a[i] == 32 || a[i] == 9;
    CutAtSemicolon(a, ext);
    assert a[0] == digits[0];
    TrimStartHex(a);
    TrimBlanks(digits, blanks);
  }

  /** A header line is delimited and its size read back exactly when its extension is UTF-8 and the
      size is a word; a line that is not text is refused as such before its size is looked at. */
  lemma HeaderReadsBack(digits: Bytes, blanks: Bytes, ext: Bytes, tail: Bytes)
    requires ValidHeader(digits, blanks, ext)
    ensures Header(Line(digits, blanks, ext) + tail) ==
            if !IsUtf8(ext) then Err(NonUtf8Header)
            else if HexValue(digits) > USIZE_MAX then Err(BadSize)
            else Ok((HexValue(digits), tail))
  {
    var a := digits + blanks;
    var b := Line(digits, blanks, ext) + tail;
    ConcatParts(a + ext + [CR, LF], tail);
    ConcatAssoc(a + ext, [CR, LF], tail);
    ConcatParts(a + ext, [CR, LF] + tail);
    assert b[..|a| + |ext|] == a + ext && b[|a| + |ext| + 2..] == tail;
    SizeReadsBack(digits, blanks, ext);
    assert forall i :: 0 <= i < |a| ==> a[i] == (if i < |digits| then digits[i] else blanks[i - |digits|]);
    LineEndAfter(a, ext, tail);
    AsciiThenUtf8(a, ext);
  }

  // ----- Round trip -----

  lemma DecodeOne(c: Chunk, next: Bytes, checked: bool)
    requires ValidChunk(c)
    ensures Decode(Line(c.digits, c.blanks, c.ext) + (c.data + c.end + next), checked) ==
            if IsUtf8(c.ext) then Prefix(c.data, Decode(next, checked)) else Failed(NonUtf8Header)
  {
    HeaderReadsBack(c.digits, c.blanks, c.ext, c.data + c.end + next);
    DataReadsBack(c.data, c.end, next, checked);
  }

  lemma DataReadsBack(data: Bytes, end: Bytes, next: Bytes, checked: bool)
    requires 0 < |data| <= USIZE_MAX - 2 && |end| == 2
    ensures DecodeData(data + end + next, |data|, checked) == Prefix(data, Decode(next, checked))
  {
    var rest := data + end + next;
    ConcatParts(data + end, next);
    ConcatParts(data, end);
    assert rest[..|data|] == data && rest[|data| + 2..] == next;
    EnoughData(rest, |data|, checked);
  }

  lemma EncodeFirst(chunks: seq<Chunk>, last: Bytes)
    requires |chunks| > 0
    ensures var c := chunks[0];
            Encode(chunks) + last == Line(c.digits, c.blanks, c.ext) + (c.data + c.end + (Encode(chunks[1..]) + last))
  {
  }

  /** Well-formed chunks decode to their payload, whatever follows them, exactly when every extension
      is UTF-8; otherwise decoding fails on the first one that is not. */
  lemma {:induction false} DecodeAfterChunks(chunks: seq<Chunk>, rest: Bytes, checked: bool)
    requires forall i :: 0 <= i < |chunks| ==> ValidChunk(chunks[i])
    ensures Decode(Encode(chunks) + rest, checked) ==
            if TextOnly(chunks) then Prefix(Payload(chunks), Decode(rest, checked)) else Failed(NonUtf8Header)
    decreases |chunks|
  {
    if |chunks| == 0 {
      assert Encode(chunks) + rest == rest;
      PrefixNil(Decode(rest, checked));
    } else {
      DecodeAfterChunks(chunks[1..], rest, checked);
      DecodeOne(chunks[0], Encode(chunks[1..]) + rest, checked);
      EncodeFirst(chunks, rest);
      PrefixPrefix(chunks[0].data, Payload(chunks[1..]), Decode(rest, checked));
      TextOnlyCons(chunks);
    }
  }

  lemma TextOnlyCons(chunks: seq<Chunk>)
    requires |chunks| > 0
    ensures TextOnly(chunks) <==> IsUtf8(chunks[0].ext) && TextOnly(chunks[1..])
  {
    assert forall i :: 0 < i < |chunks| ==> chunks[i] == chunks[1..][i - 1];
  }

  /** Decoding undoes encoding exactly when every extension is UTF-8: then the payload comes back for
      any chunks, extensions, terminators, any spelling of the zero chunk, and any bytes after it, and
      otherwise the message is refused. */
  lemma DecodeEncode(chunks: seq<Chunk>, zeros: Bytes, blanks: Bytes, ext: Bytes, tail: Bytes, checked: bool)
    requires forall i :: 0 <= i < |chunks| ==> ValidChunk(chunks[i])
    requires ValidHeader(zeros, blanks, ext) && HexValue(zeros) == 0
    ensures var r := Decode(Encode(chunks) + (Line(zeros, blanks, ext) + tail), checked);
            && (r == Decoded(Payload(chunks)) <==> TextOnly(chunks) && IsUtf8(ext))
            && (r == Failed(NonUtf8Header) <==> !(TextOnly(chunks) && IsUtf8(ext)))
  {
    DecodeAfterChunks(chunks, Line(zeros, blanks, ext) + tail, checked);
    HeaderReadsBack(zeros, blanks, ext, tail);
    assert DecodeData(tail, 0, checked) == Decoded([]);
    PrefixDone(Payload(chunks));
  }

  /** The extension `;a="` 0xFF `"`: a quoted string holding one obs-text byte, which section 7.1.1 of
      RFC 9112 allows. */
  const OBS_TEXT_EXT: Bytes := [59, 97, 61, 34, 0xFF, 34]

  /** A legal message that the decoder refuses: one byte under that extension, then the zero chunk. */
  lemma ObsTextExtensionRefused(checked: bool)
    ensures var c := Chunk([49], [], OBS_TEXT_EXT, [120], [CR, LF]);
            ValidChunk(c) && Decode(Encode([c]) + (Line([48], [], []) + [CR, LF]), checked) == Failed(NonUtf8Header)
  {
    var c := Chunk([49], [], OBS_TEXT_EXT, [120], [CR, LF]);
    NoCrLineEnd(OBS_TEXT_EXT);
    assert HexValue([49]) == 1 by {
      assert [49][..0] == [];
    }
    assert HexValue([48]) == 0 by {
      assert [48][..0] == [];
    }
    var text: Bytes := [59, 97, 61, 34];
    assert OBS_TEXT_EXT == text + [0xFF, 34];
    AsciiThenUtf8(text, [0xFF, 34]);
    assert !TextOnly([c]) by {
      assert [c][0].ext == OBS_TEXT_EXT;
    }
    DecodeEncode([c], [48], [], [], [CR, LF], checked);
  }

  lemma {:induction false} NoCrLineEnd(b: Bytes)
    requires NoCr(b)
    ensures LineEnd(b) == |b|
  {
    if |b| > 0 {
      NoCrLineEnd(b[1..]);
    }
  }

  /** A chunk with less data than its size and line end need, after well-formed ones, is refused for
      the first extension that is not UTF-8, for a size that is no word, or as truncated, except that
      the decoder aborts on sizes within two of the word limit: always when overflow is checked, and
      without checks unless the size is the limit itself and nothing follows. */
  lemma ShortChunk(chunks: seq<Chunk>, digits: Bytes, blanks: Bytes, ext: Bytes, tail: Bytes, checked: bool)
    requires forall i :: 0 <= i < |chunks| ==> ValidChunk(chunks[i])
    requires ValidHeader(digits, blanks, ext) && 0 < HexValue(digits)
    requires |tail| < HexValue(digits) + 2 && |tail| <= ISIZE_MAX
    ensures Decode(Encode(chunks) + (Line(digits, blanks, ext) + tail), checked) ==
            if !(TextOnly(chunks) && IsUtf8(ext)) then Failed(NonUtf8Header)
            else if HexValue(digits) > USIZE_MAX then Failed(BadSize)
            else if Aborts(tail, HexValue(digits), checked) then Panic
            else Failed(Truncated)
  {
    DecodeAfterChunks(chunks, Line(digits, blanks, ext) + tail, checked);
    HeaderReadsBack(digits, blanks, ext, tail);
    if HexValue(digits) <= USIZE_MAX {
      AbortsIff(tail, HexValue(digits), checked);
    }
  }

  /** The two builds differ on nothing else: unchecked arithmetic answers as checked arithmetic does
      whenever that does not abort, and then it aborts or reports truncation. */
  lemma {:induction false} BuildsAgree(b: Bytes)
    requires |b| <= ISIZE_MAX
    ensures Decode(b, true) != Panic ==> Decode(b, false) == Decode(b, true)
    ensures Decode(b, true) == Panic ==> Decode(b, false) == Panic || Decode(b, false) == Failed(Truncated)
    decreases |b|
  {
    var h := Header(b);
    if h.Ok? {
      var (size, rest) := h.value;
      if 0 < size && |rest| >= size + 2 {
        BuildsAgree(rest[size + 2..]);
        EnoughData(rest, size, true);
        EnoughData(rest, size, false);
      } else if 0 < size {
        AbortsIff(rest, size, true);
        AbortsIff(rest, size, false);
      } else {
        assert DecodeData(rest, 0, true) == DecodeData(rest, 0, false);
      }
    }
  }

  // ----- Sizes as they are written -----

  /** `n` in base 16, most significant digit first, with the digits of `table`. */
  function ToHex(n: nat, table: Bytes): Bytes
    requires |table| == 16
  {
    (if n < 16 then [] else ToHex(n / 16, table)) + [table[n % 16]]
  }

  /** A size written in base 16 reads back, in either case. */
  lemma {:induction false} HexReadsBack(n: nat, table: Bytes)
    requires table == LOWER_HEX || table == UPPER_HEX
    ensures |ToHex(n, table)| > 0 && AllHex(ToHex(n, table)) && HexValue(ToHex(n, table)) == n
  {
    HexTables(0);
    var d := table[n % 16];
    assert IsHex(d) && HexDigit(d) == n % 16;
    var high := if n < 16 then [] else ToHex(n / 16, table);
    if n >= 16 {
      HexReadsBack(n / 16, table);
    }
    HexValueGrows(high, d);
  }

  lemma HexValueGrows(high: Bytes, d: byte)
    requires AllHex(high) && IsHex(d)
    ensures AllHex(high + [d]) && HexValue(high + [d]) == 16 * HexValue(high) + HexDigit(d)
  {
    var all := high + [d];
    assert all[..|all| - 1] == high && all[|all| - 1] == d;
  }

  /** The message RFC 9112 section 7.1 gives for `parts`: each under its length in hexadecimal, then a
      zero chunk and an empty trailer. */
  function Message(parts: seq<Bytes>, table: Bytes): Bytes
    requires |table| == 16
  {
    if |parts| == 0 then [48, CR, LF, CR, LF]
    else ToHex(|parts[0]|, table) + [CR, LF] + parts[0] + [CR, LF] + Message(parts[1..], table)
  }

  function Flatten(parts: seq<Bytes>): Bytes {
    if |parts| == 0 then [] else parts[0] + Flatten(parts[1..])
  }

  /** Decoding a message returns its parts, concatenated. */
  lemma {:induction false} MessageReadsBack(parts: seq<Bytes>, table: Bytes, checked: bool)
    requires table == LOWER_HEX || table == UPPER_HEX
    requires forall i :: 0 <= i < |parts| ==> 0 < |parts[i]| <= USIZE_MAX - 2
    ensures Decode(Message(parts, table), checked) == Decoded(Flatten(parts))
    decreases |parts|
  {
    if |parts| == 0 {
      ZeroChunkEnds(checked);
    } else {
      var (p, next) := (parts[0], Message(parts[1..], table));
      MessageReadsBack(parts[1..], table, checked);
      HexReadsBack(|p|, table);
      PartReadsBack(ToHex(|p|, table), p, next, checked);
    }
  }

  lemma PartReadsBack(digits: Bytes, p: Bytes, next: Bytes, checked: bool)
    requires |digits| > 0 && AllHex(digits) && HexValue(digits) == |p| && 0 < |p| <= USIZE_MAX - 2
    ensures Decode(digits + [CR, LF] + p + [CR, LF] + next, checked) == Prefix(p, Decode(next, checked))
  {
    DecodeOne(Chunk(digits, [], [], p, [CR, LF]), next, checked);
    MessageFirst(digits, p, next);
  }

  lemma MessageFirst(digits: Bytes, p: Bytes, next: Bytes)
    ensures digits + [CR, LF] + p + [CR, LF] + next == Line(digits, [], []) + (p + [CR, LF] + next)
  {
    assert digits + [] + [] == digits;
    ConcatAssoc(digits + [CR, LF], p, [CR, LF]);
    ConcatAssoc(digits + [CR, LF], p + [CR, LF], next);
  }

  lemma ZeroChunkEnds(checked: bool)
    ensures Decode([48, CR, LF, CR, LF], checked) == Decoded([])
  {
    assert [48][..0] == [];
    assert HexValue([48]) == 0;
    HeaderReadsBack([48], [], [], [CR, LF]);
    assert Line([48], [], []) + [CR, LF] == [48, CR, LF, CR, LF];
  }

  /** Without a line end there is no header. */
  lemma NoLineRefused(b: Bytes, checked: bool)
    requires NoCr(b)
    ensures Decode(b, checked) == Failed(BadHeader)
  {
    NoCrLineEnd(b);
  }

  /** A size may carry one plus sign. */
  lemma PlusSignAccepted(digits: Bytes)
    requires |digits| > 0 && AllHex(digits)
    ensures FromStrRadix16([43] + digits) == FromStrRadix16(digits)
    ensures FromStrRadix16(digits) == if HexValue(digits) <= USIZE_MAX then Some(HexValue(digits)) else None
  {
    ConcatParts([43], digits);
  }

  /** Any other text is no size. */
  lemma OtherTextIsNoSize(text: Bytes, i: nat)
    requires i < |text| && !IsHex(text[i]) && (text[i] == 43 ==> i > 0)
    ensures FromStrRadix16(text).None?
  {
    if |text| > 1 && text[0] == 43 {
      assert text[1..][i - 1] == text[i];
    }
  }

  // ----- White space around a size -----

  /** The blanks are the encodings of the characters with the White_Space property. */
  lemma SpaceScalars(c: Scalar)
    ensures IsSpace(EncodeScalar(c)) <==>
            || 0x09 <= c <= 0x0D || c == 0x20 || c == 0x85 || c == 0xA0 || c == 0x1680 || 0x2000 <= c <= 0x200A
            || c == 0x2028 || c == 0x2029 || c == 0x202F || c == 0x205F || c == 0x3000
  {
  }

  ghost predicate AreSpaces(spaces: seq<Bytes>) {
    forall s :: s in spaces ==> IsSpace(s)
  }

  lemma {:induction false} NoSemicolonInSpaces(spaces: seq<Bytes>)
    requires AreSpaces(spaces)
    ensures SEMICOLON !in Flatten(spaces)
  {
    if |spaces| > 0 {
      assert IsSpace(spaces[0]);
      NoSemicolonInSpaces(spaces[1..]);
    }
  }

  lemma {:induction false} LeadingSpacesTrimmed(spaces: seq<Bytes>, b: Bytes)
    requires AreSpaces(spaces)
    ensures TrimStart(Flatten(spaces) + b) == TrimStart(b)
    decreases |spaces|
  {
    if |spaces| == 0 {
      assert Flatten(spaces) + b == b;
    } else {
      var (s, rest) := (spaces[0], Flatten(spaces[1..]) + b);
      LeadingSpacesTrimmed(spaces[1..], b);
      ConcatAssoc(s, Flatten(spaces[1..]), b);
      SpaceTrimmed(s, rest);
    }
  }

  lemma SpaceTrimmed(s: Bytes, rest: Bytes)
    requires IsSpace(s)
    ensures TrimStart(s + rest) == TrimStart(rest)
  {
    ConcatParts(s, rest);
    var b := s + rest;
    assert b[..1] == s[..1] && (|s| >= 2 ==> b[..2] == s[..2]);
  }

  lemma {:induction false} TrailingSpacesTrimmed(b: Bytes, spaces: seq<Bytes>)
    requires AreSpaces(spaces)
    ensures TrimEnd(b + Flatten(spaces)) == TrimEnd(b)
    decreases |spaces|
  {
    if |spaces| == 0 {
      assert b + Flatten(spaces) == b;
    } else {
      var s := spaces[0];
      TrailingSpacesTrimmed(b + s, spaces[1..]);
      ConcatAssoc(b, s, Flatten(spaces[1..]));
      LastSpaceTrimmed(b, s);
    }
  }

  /** No blank ends in another one. */
  lemma SpacesDoNotNest(s: Bytes)
    requires IsSpace(s)
    ensures 1 <= |s| <= 3
    ensures |s| >= 2 ==> !IsSpace(s[|s| - 1..])
    ensures |s| == 3 ==> !IsSpace(s[1..])
  {
  }

  lemma LastSpaceTrimmed(b: Bytes, s: Bytes)
    requires IsSpace(s)
    ensures TrimEnd(b + s) == TrimEnd(b)
  {
    SpacesDoNotNest(s);
    var t := b + s;
    ConcatParts(b, s);
    assert t[..|t| - |s|] == b && t[|t| - |s|..] == s;
    if |s| >= 2 {
      assert t[|t| - 1..] == s[|s| - 1..];
    }
    if |s| == 3 {
      assert t[|t| - 2..] == s[1..];
    }
  }

  /** A size is read back from between any white space. */
  lemma SpacedSizeReadsBack(before: seq<Bytes>, digits: Bytes, after: seq<Bytes>)
    requires |digits| > 0 && AllHex(digits) && AreSpaces(before) && AreSpaces(after)
    ensures SizeField(Flatten(before) + digits + Flatten(after)) ==
            if HexValue(digits) <= USIZE_MAX then Some(HexValue(digits)) else None
  {
    var line := Flatten(before) + digits + Flatten(after);
    NoSemicolonInSpaces(before);
    NoSemicolonInSpaces(after);
    CutAtSemicolon(line, []);
    assert line + [] == line;
    SpacesTrimmed(before, digits, after);
    SizeOfDigits(digits);
  }

  lemma SpacesTrimmed(before: seq<Bytes>, digits: Bytes, after: seq<Bytes>)
    requires |digits| > 0 && AllHex(digits) && AreSpaces(before) && AreSpaces(after)
    ensures Trim(Flatten(before) + digits + Flatten(after)) == digits
  {
    ConcatAssoc(Flatten(before), digits, Flatten(after));
    LeadingSpacesTrimmed(before, digits + Flatten(after));
    assert (digits + Flatten(after))[0] == digits[0];
    TrimStartHex(digits + Flatten(after));
    TrailingSpacesTrimmed(digits, after);
    TrimEndHex(digits);
  }

  lemma SizeOfDigits(digits: Bytes)
    requires |digits| > 0 && AllHex(digits)
    ensures FromStrRadix16(digits) == if HexValue(digits) <= USIZE_MAX then Some(HexValue(digits)) else None
  {
    assert digits[0] != 43;
  }
}
