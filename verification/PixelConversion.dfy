/** Conversion of one strided 4-byte-per-pixel plane to tightly packed RGBA. */
module PixelConversion {
  import opened Prelude
  import opened ByteText

  datatype PixelLayout = Bgrx | Bgra | Rgbx | Rgba {
    predicate SwapRb() {
      Bgrx? || Bgra?
    }

    predicate HasAlpha() {
      Bgra? || Rgba?
    }
  }

  datatype FrameError = ZeroDimensions | NegativeStride | StrideTooSmall | PlaneTooSmall(need: nat)

  // ----- Meaning of the output -----

  /** Source byte of channel `c` (0 red, 1 green, 2 blue, 3 alpha) within a pixel. */
  function Channel(layout: PixelLayout, c: nat): nat {
    if layout.SwapRb() && c == 0 then 2 else if layout.SwapRb() && c == 2 then 0 else c
  }

  /** Byte `j` of the converted row whose source starts at `from`: channel `j % 4` of its pixel. */
  function RowByte(src: seq<byte>, from: nat, width: nat, layout: PixelLayout, j: nat): byte
    requires j < 4 * width && from + 4 * width <= |src|
  {
    var c := j % 4;
    if c == 3 && !layout.HasAlpha() then 0xFF else src[from + (j - c) + Channel(layout, c)]
  }

  ghost function RowOf(src: seq<byte>, from: nat, width: nat, layout: PixelLayout): seq<byte>
    requires from + 4 * width <= |src|
  {
    seq(4 * width, j requires 0 <= j < 4 * width => RowByte(src, from, width, layout, j))
  }

  function RowStride(width: nat, stride: int): int {
    if stride == 0 then width * 4 else stride
  }

  function Need(width: nat, height: nat, stride: nat): int {
    stride * (height - 1) + width * 4
  }

  /** The error the checks report, in their order. */
  function Rejection(len: nat, width: nat, height: nat, stride: int): Option<FrameError> {
    if width == 0 || height == 0 then Some(ZeroDimensions)
    else if stride < 0 then Some(NegativeStride)
    else if RowStride(width, stride) < width * 4 then Some(StrideTooSmall)
    else if len < Need(width, height, RowStride(width, stride)) then Some(PlaneTooSmall(Need(width, height, RowStride(width, stride))))
    else None
  }

  /** Row `y` of the output is the converted row `y` of the source. */
  ghost predicate RowDone(src: seq<byte>, out: seq<byte>, width: nat, stride: nat, layout: PixelLayout, y: nat) {
    && y * stride + 4 * width <= |src| && y * (4 * width) + 4 * width <= |out|
    && out[y * (4 * width)..y * (4 * width) + 4 * width] == RowOf(src, y * stride, width, layout)
  }

  ghost predicate RowsDone(src: seq<byte>, out: seq<byte>, width: nat, rows: nat, stride: nat, layout: PixelLayout) {
    forall y: nat :: y < rows ==> RowDone(src, out, width, stride, layout, y)
  }

  // ----- Index arithmetic -----

  lemma RowFits(y: nat, rows: nat, row: nat)
    requires y < rows
    ensures y * row + row <= rows * row
  {
    assert (y + 1) * row <= rows * row;
  }

  lemma SourceFits(y: nat, height: nat, stride: nat, row: nat, len: nat)
    requires y < height && len >= stride * (height - 1) + row
    ensures y * stride + row <= len
  {
    assert y * stride <= (height - 1) * stride;
  }

  // ----- The conversion -----

  /** The per-row body: `d` from `to` on receives the row of `src` at `from`. */
  method ConvertRow(src: seq<byte>, from: nat, d: array<byte>, to: nat, width: nat, layout: PixelLayout)
    requires from + 4 * width <= |src| && to + 4 * width <= d.Length
    modifies d
    ensures forall i :: 0 <= i < d.Length ==>
              d[i] == if to <= i < to + 4 * width then RowByte(src, from, width, layout, i - to) else old(d[i])
  {
    if layout.SwapRb() {
      for x := 0 to width
        invariant forall i :: 0 <= i < d.Length ==>
                    d[i] == if to <= i < to + 4 * x then RowByte(src, from, width, layout, i - to) else old(d[i])
      {
        var (s, t) := (from + 4 * x, to + 4 * x);
        d[t] := src[s + 2];
        d[t + 1] := src[s + 1];
        d[t + 2] := src[s];
        d[t + 3] := if layout.HasAlpha() then src[s + 3] else 0xFF;
      }
    } else {
      CopyRow(src, from, d, to, 4 * width);
      if !layout.HasAlpha() {
        for x := 0 to width
          invariant forall i :: 0 <= i < d.Length ==>
                      d[i] == if to <= i < to + 4 * x then RowByte(src, from, width, layout, i - to)
                              else if to <= i < to + 4 * width then src[from + (i - to)] else old(d[i])
        {
          d[to + 4 * x + 3] := 0xFF;
        }
      }
    }
  }

  /** `copy_from_slice`. */
  method CopyRow(src: seq<byte>, from: nat, d: array<byte>, to: nat, n: nat)
    requires from + n <= |src| && to + n <= d.Length
    modifies d
    ensures forall i :: 0 <= i < d.Length ==> d[i] == if to <= i < to + n then src[from + (i - to)] else old(d[i])
  {
    for k := 0 to n
      invariant forall i :: 0 <= i < d.Length ==> d[i] == if to <= i < to + k then src[from + (i - to)] else old(d[i])
    {
      d[to + k] := src[from + k];
    }
  }

  /** `convert_frame`: rejects exactly the malformed planes, and otherwise returns 4·w·h bytes holding
      every pixel's channels in RGBA order, padding opaque. No byte outside the plane is read. */
  method ConvertFrame(src: seq<byte>, width: nat, height: nat, stride: int, layout: PixelLayout)
    returns (r: Result<seq<byte>, FrameError>)
    ensures r.Err? <==> Rejection(|src|, width, height, stride).Some?
    ensures r.Err? ==> r.error == Rejection(|src|, width, height, stride).value
    ensures r.Ok? ==> Converted(src, width, height, stride, layout, r.value)
  {
    if width == 0 || height == 0 {
      return Err(ZeroDimensions);
    }
    var row := width * 4;
    if stride < 0 {
      return Err(NegativeStride);
    }
    var step: nat := if stride == 0 then row else stride;
    if step < row {
      return Err(StrideTooSmall);
    }
    var need := step * (height - 1) + row;
    if |src| < need {
      return Err(PlaneTooSmall(need));
    }
    var out := ConvertRows(src, width, height, step, layout);
    return Ok(out);
  }

  /** The row loop over a freshly zeroed buffer. */
  method ConvertRows(src: seq<byte>, width: nat, height: nat, step: nat, layout: PixelLayout) returns (out: seq<byte>)
    requires height > 0 && |src| >= Need(width, height, step)
    ensures |out| == height * (4 * width) && RowsDone(src, out, width, height, step, layout)
  {
    var buf := new byte[height * (4 * width)](_ => 0);
    for y := 0 to height
      invariant RowsDone(src, buf[..], width, y, step, layout)
    {
      RowFits(y, height, 4 * width);
      SourceFits(y, height, step, 4 * width, |src|);
      NextRow(src, buf, width, y, y * step, y * (4 * width), step, layout);
    }
    return buf[..];
  }

  /** One turn of the row loop, with the row's places in the plane and in the buffer. */
  method NextRow(src: seq<byte>, buf: array<byte>, width: nat, y: nat, from: nat, to: nat, step: nat, layout: PixelLayout)
    requires from == y * step && to == y * (4 * width) && from + 4 * width <= |src| && to + 4 * width <= buf.Length
    requires RowsDone(src, buf[..], width, y, step, layout)
    modifies buf
    ensures RowsDone(src, buf[..], width, y + 1, step, layout)
  {
    ghost var before := buf[..];
    ConvertRow(src, from, buf, to, width, layout);
    assert RowWritten(src, from, before, buf[..], to, width, layout);
    RowAdded(src, before, buf[..], width, y, step, layout);
  }

  /** `out` is `before` with the converted row written at `to`. */
  ghost predicate RowWritten(src: seq<byte>, from: nat, before: seq<byte>, out: seq<byte>, to: nat, width: nat, layout: PixelLayout) {
    && from + 4 * width <= |src| && |before| == |out|
    && forall i :: 0 <= i < |out| ==>
         out[i] == if to <= i < to + 4 * width then RowByte(src, from, width, layout, i - to) else before[i]
  }

  lemma RowAdded(src: seq<byte>, before: seq<byte>, out: seq<byte>, width: nat, y: nat, stride: nat, layout: PixelLayout)
    requires RowsDone(src, before, width, y, stride, layout)
    requires y * stride + 4 * width <= |src| && y * (4 * width) + 4 * width <= |out|
    requires RowWritten(src, y * stride, before, out, y * (4 * width), width, layout)
    ensures RowsDone(src, out, width, y + 1, stride, layout)
  {
    forall v: nat | v < y
      ensures RowDone(src, out, width, stride, layout, v)
    {
      RowFits(v, y, 4 * width);
      assert RowDone(src, before, width, stride, layout, v);
      var at := v * (4 * width);
      assert out[at..at + 4 * width] == before[at..at + 4 * width];
    }
    assert RowDone(src, out, width, stride, layout, y);
  }

  // ----- Consequences -----

  /** What a successful conversion returns. */
  ghost predicate Converted(src: seq<byte>, width: nat, height: nat, stride: int, layout: PixelLayout, out: seq<byte>) {
    && RowStride(width, stride) >= 0
    && |out| == height * (4 * width) && RowsDone(src, out, width, height, RowStride(width, stride), layout)
  }

  lemma RowGives(src: seq<byte>, out: seq<byte>, width: nat, stride: nat, layout: PixelLayout, y: nat, j: nat)
    requires RowDone(src, out, width, stride, layout, y) && j < 4 * width
    ensures out[y * (4 * width) + j] == RowByte(src, y * stride, width, layout, j)
  {
    var to := y * (4 * width);
    assert out[to..to + 4 * width][j] == RowOf(src, y * stride, width, layout)[j];
  }

  /** Channel `c` of pixel `(x, y)` sits at its packed place and comes from its permuted source byte;
      alpha is kept or forced opaque. */
  lemma PixelPlaced(src: seq<byte>, width: nat, height: nat, stride: int, layout: PixelLayout, out: seq<byte>, x: nat, y: nat, c: nat)
    requires Converted(src, width, height, stride, layout, out) && x < width && y < height && c < 4
    ensures var (at, from) := (y * (4 * width) + 4 * x + c, y * RowStride(width, stride) + 4 * x);
            && at < |out| && from + 4 <= |src|
            && out[at] == if c == 3 && !layout.HasAlpha() then 0xFF else src[from + Channel(layout, c)]
  {
    RowGives(src, out, width, RowStride(width, stride), layout, y, 4 * x + c);
    assert (4 * x + c) % 4 == c;
  }

  /** The four output bytes from `at` on are the pixel of `src` from `from` on, layout by layout. */
  ghost predicate PixelIs(src: seq<byte>, from: int, layout: PixelLayout, out: seq<byte>, at: nat)
    requires 0 <= from && from + 4 <= |src| && at + 4 <= |out|
  {
    match layout
    case Bgrx => out[at] == src[from + 2] && out[at + 1] == src[from + 1] && out[at + 2] == src[from] && out[at + 3] == 0xFF
    case Bgra => out[at] == src[from + 2] && out[at + 1] == src[from + 1] && out[at + 2] == src[from] && out[at + 3] == src[from + 3]
    case Rgbx => out[at] == src[from] && out[at + 1] == src[from + 1] && out[at + 2] == src[from + 2] && out[at + 3] == 0xFF
    case Rgba => out[at] == src[from] && out[at + 1] == src[from + 1] && out[at + 2] == src[from + 2] && out[at + 3] == src[from + 3]
  }

  /** Every pixel `(x, y)` of a converted plane comes out so. */
  lemma PixelBytes(src: seq<byte>, width: nat, height: nat, stride: int, layout: PixelLayout, out: seq<byte>, x: nat, y: nat)
    requires Converted(src, width, height, stride, layout, out) && x < width && y < height
    ensures var (at, from) := (y * (4 * width) + 4 * x, y * RowStride(width, stride) + 4 * x);
            at + 4 <= |out| && from + 4 <= |src| && PixelIs(src, from, layout, out, at)
    ensures RowStride(width, stride) == if stride == 0 then 4 * width else stride
  {
    PixelPlaced(src, width, height, stride, layout, out, x, y, 0);
    PixelPlaced(src, width, height, stride, layout, out, x, y, 1);
    PixelPlaced(src, width, height, stride, layout, out, x, y, 2);
    PixelPlaced(src, width, height, stride, layout, out, x, y, 3);
  }

  /** The error of a malformed plane is the first of four that applies. */
  lemma RejectionExact(len: nat, width: nat, height: nat, stride: int)
    ensures var r := Rejection(len, width, height, stride);
            && (r == Some(ZeroDimensions) <==> width == 0 || height == 0)
            && (r == Some(NegativeStride) <==> width > 0 && height > 0 && stride < 0)
            && (r == Some(StrideTooSmall) <==> width > 0 && height > 0 && 0 < stride < 4 * width)
            && (r.Some? && r.value.PlaneTooSmall? ==> r.value.need == RowEnd(height - 1, width, if stride == 0 then 4 * width else stride) > len)
  {
  }

  /** Every row of the plane lies within it. */
  ghost predicate RowsInside(len: nat, width: nat, height: nat, step: nat) {
    forall y: nat :: y < height ==> RowEnd(y, width, step) <= len
  }

  function RowEnd(y: nat, width: nat, step: nat): nat {
    y * step + 4 * width
  }

  /** A plane is converted exactly when it is not empty, its rows do not overlap, and none of them
      reaches outside it. */
  lemma AcceptedIff(len: nat, width: nat, height: nat, stride: int)
    ensures Rejection(len, width, height, stride).None? <==>
            && width > 0 && height > 0 && (stride == 0 || stride >= 4 * width)
            && RowsInside(len, width, height, if stride <= 0 then 4 * width else stride)
  {
    if width > 0 && height > 0 && (stride == 0 || stride >= 4 * width) {
      var step: nat := if stride == 0 then 4 * width else stride;
      assert Need(width, height, step) == RowEnd(height - 1, width, step);
      if Need(width, height, step) <= len {
        forall y: nat | y < height
          ensures RowEnd(y, width, step) <= len
        {
          SourceFits(y, height, step, 4 * width, len);
        }
      }
    }
  }

  /** Buffers that agree row by row are equal. */
  lemma {:induction false} RowsDetermine(a: seq<byte>, b: seq<byte>, row: nat, rows: nat)
    requires rows * row <= |a| && rows * row <= |b|
    requires forall y: nat :: y < rows ==> SameRow(a, b, row, y)
    ensures a[..rows * row] == b[..rows * row]
  {
    if rows > 0 {
      var at := (rows - 1) * row;
      assert rows * row == at + row;
      RowsDetermine(a, b, row, rows - 1);
      assert SameRow(a, b, row, rows - 1);
      assert a[..at + row] == a[..at] + a[at..at + row] && b[..at + row] == b[..at] + b[at..at + row];
    }
  }

  ghost predicate SameRow(a: seq<byte>, b: seq<byte>, row: nat, y: nat) {
    && y * row + row <= |a| && y * row + row <= |b|
    && a[y * row..y * row + row] == b[y * row..y * row + row]
  }

  /** The output depends on the pixels only: planes that agree on them convert alike whatever their
      strides and row padding. */
  lemma PaddingIgnored(a: seq<byte>, b: seq<byte>, s: int, t: int, width: nat, height: nat, layout: PixelLayout, out1: seq<byte>, out2: seq<byte>)
    requires Converted(a, width, height, s, layout, out1) && Converted(b, width, height, t, layout, out2)
    requires forall y: nat :: y < height ==> SamePixels(a, b, RowStride(width, s), RowStride(width, t), width, y)
    ensures out1 == out2
  {
    forall y: nat | y < height
      ensures SameRow(out1, out2, 4 * width, y)
    {
      assert RowDone(a, out1, width, RowStride(width, s), layout, y) && RowDone(b, out2, width, RowStride(width, t), layout, y);
      assert SamePixels(a, b, RowStride(width, s), RowStride(width, t), width, y);
      DoneAlike(a, b, RowStride(width, s), RowStride(width, t), width, layout, out1, out2, y);
    }
    RowsDetermine(out1, out2, 4 * width, height);
    assert out1[..|out1|] == out1 && out2[..|out2|] == out2;
  }

  lemma DoneAlike(a: seq<byte>, b: seq<byte>, s: nat, t: nat, width: nat, layout: PixelLayout, out1: seq<byte>, out2: seq<byte>, y: nat)
    requires RowDone(a, out1, width, s, layout, y) && RowDone(b, out2, width, t, layout, y)
    requires SamePixels(a, b, s, t, width, y)
    ensures SameRow(out1, out2, 4 * width, y)
  {
    RowsAlike(a, y * s, b, y * t, width, layout);
  }

  lemma RowsAlike(a: seq<byte>, from: nat, b: seq<byte>, to: nat, width: nat, layout: PixelLayout)
    requires from + 4 * width <= |a| && to + 4 * width <= |b|
    requires a[from..from + 4 * width] == b[to..to + 4 * width]
    ensures RowOf(a, from, width, layout) == RowOf(b, to, width, layout)
  {
    forall j: nat | j < 4 * width
      ensures RowByte(a, from, width, layout, j) == RowByte(b, to, width, layout, j)
    {
      var k := j - j % 4 + Channel(layout, j % 4);
      assert a[from..from + 4 * width][k] == b[to..to + 4 * width][k];
    }
  }

  /** The planes hold the same pixels in row `y`. */
  ghost predicate SamePixels(a: seq<byte>, b: seq<byte>, s: nat, t: nat, width: nat, y: nat) {
    && y * s + 4 * width <= |a| && y * t + 4 * width <= |b|
    && a[y * s..y * s + 4 * width] == b[y * t..y * t + 4 * width]
  }

  /** Converting a tightly packed BGRA plane twice gives it back. */
  lemma BgraInvolution(src: seq<byte>, width: nat, height: nat, once: seq<byte>, twice: seq<byte>)
    requires |src| == height * (4 * width)
    requires Converted(src, width, height, 0, Bgra, once) && Converted(once, width, height, 0, Bgra, twice)
    ensures twice == src
  {
    var row := 4 * width;
    forall y: nat | y < height
      ensures SameRow(twice, src, row, y)
    {
      var at := y * row;
      assert RowDone(src, once, width, row, Bgra, y) && RowDone(once, twice, width, row, Bgra, y);
      BgraRowTwice(src, at, once, width);
    }
    RowsDetermine(twice, src, row, height);
    assert twice[..|twice|] == twice && src[..|src|] == src;
  }

  lemma BgraRowTwice(src: seq<byte>, at: nat, once: seq<byte>, width: nat)
    requires at + 4 * width <= |src| && at + 4 * width <= |once|
    requires once[at..at + 4 * width] == RowOf(src, at, width, Bgra)
    ensures RowOf(once, at, width, Bgra) == src[at..at + 4 * width]
  {
    forall j: nat | j < 4 * width
      ensures RowByte(once, at, width, Bgra, j) == src[at + j]
    {
      var c := j % 4;
      var k := j - c + Channel(Bgra, c);
      assert k % 4 == Channel(Bgra, c) && k - k % 4 == j - c;
      assert once[at..at + 4 * width][k] == RowByte(src, at, width, Bgra, k);
    }
  }
}
