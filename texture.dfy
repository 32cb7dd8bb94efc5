/**
  Loading a PNG file into a GL texture, and the texture cache.

  libpng, the stdio file, GL and the cache's own storage are outside this
  model. What libpng reports about a file is a `PngFile` value: its header
  (dimensions, colour type after the palette/packing/16-bit transforms, and
  row size in bytes) and, when reading succeeds, its rows. What GL receives
  is recorded in the texture's `format` and `texels` fields.

  The texel buffer is a flat byte array of th rows of `tw * pb` bytes
  (pb = bytes per pixel). Byte b of pixel (r, c) is at `r * (tw * pb) + c * pb + b`.
 */
module Textures {
  import opened MachineInt

  type byte = x: int | 0 <= x < 256

  /** An image dimension as libpng reports it: the PNG format allows 1 to 2^31 - 1. */
  type Dim = x: int | 1 <= x <= 0x7FFF_FFFF witness 1

  datatype Option<T> = None | Some(value: T)

  // ---------------------------------------------------------------------
  // Power-of-two texture sizes

  predicate IsPow2(x: nat)
  {
    x == 1 || (x > 1 && x % 2 == 0 && IsPow2(x / 2))
  }

  /** The least power of two that is at least w (1 for w = 0). */
  function Pow2Ceil(w: nat): (p: nat)
    ensures IsPow2(p) && w <= p
    ensures p == 1 || p / 2 < w
  {
    if w <= 1 then 1 else 2 * Pow2Ceil((w + 1) / 2)
  }

  /** Of two different powers of two, the larger is at least twice the smaller. */
  lemma {:induction false} Pow2Gap(p: nat, q: nat)
    requires IsPow2(p) && IsPow2(q) && p < q
    ensures 2 * p <= q
  {
    if p > q / 2 {
      Pow2Gap(p / 2, q / 2);
    } else if p < q / 2 {
      Pow2Gap(p, q / 2);
    }
  }

  /** `Pow2Ceil(w)` is below every other power of two that is at least w. */
  lemma Pow2CeilIsLeast(w: nat)
    ensures forall p: nat :: IsPow2(p) && w <= p ==> Pow2Ceil(w) <= p
  {
    forall p: nat | IsPow2(p) && w <= p
      ensures Pow2Ceil(w) <= p
    {
      if p < Pow2Ceil(w) {
        Pow2Gap(p, Pow2Ceil(w));
      }
    }
  }

  /**
    `tw = 1; while (tw < w) tw *= 2;` in unsigned arithmetic. It stops for
    widths up to 2^31; a larger width would make `tw` wrap to 0 and the
    loop run forever.
   */
  method RoundUpToPowerOfTwo(w: u32) returns (tw: u32)
    requires w <= 0x8000_0000
    ensures tw == Pow2Ceil(w)
    ensures IsPow2(tw) && w <= tw
  {
    tw := 1;
    while tw < w
      invariant IsPow2(tw) && tw <= Pow2Ceil(w)
      decreases w - tw
    {
      Pow2Gap(tw, Pow2Ceil(w));
      assert 2 * tw < U32 && IsPow2(2 * tw);
      tw := Wrap(tw * 2);
    }
    Pow2CeilIsLeast(w);
  }

  /**
    The texture size: with padding, each dimension rounded up to the least
    power of two; without, the image's own size (non-power-of-two
    textures are then used even where GL lacks the extension).
   */
  function TextureDims(w: Dim, h: Dim, pad: bool): (d: (nat, nat))
    ensures !pad ==> d == (w, h)
    ensures pad ==> IsPow2(d.0) && w <= d.0 && IsPow2(d.1) && h <= d.1
    ensures pad ==> forall p: nat :: IsPow2(p) && w <= p ==> d.0 <= p
    ensures pad ==> forall p: nat :: IsPow2(p) && h <= p ==> d.1 <= p
    ensures w <= d.0 < U32 && h <= d.1 < U32
  {
    Pow2CeilIsLeast(w);
    Pow2CeilIsLeast(h);
    if pad then (Pow2Ceil(w), Pow2Ceil(h)) else (w, h)
  }

  // ---------------------------------------------------------------------
  // Pixel formats

  /** The colour type libpng reports once palette, packing and 16-bit transforms are set. */
  datatype ColorType = Gray | GrayAlpha | Palette | Rgb | RgbAlpha | UnknownColor

  /** The GL internal and data format (they are always equal here). */
  datatype GlFormat = Luminance | LuminanceAlpha | RgbFormat | RgbaFormat

  /** Bytes per pixel of each colour type after the transforms; 0 for a type the loader refuses. */
  function Channels(c: ColorType): nat
  {
    match c
    case Gray => 1
    case GrayAlpha => 2
    case Palette => 3
    case Rgb => 3
    case RgbAlpha => 4
    case UnknownColor => 0
  }

  /** Every colour type the loader knows has 1 to 4 bytes per pixel; only an unknown one has none. */
  lemma ChannelsRange(c: ColorType)
    ensures 0 < Channels(c) <= 4 <==> c != UnknownColor
    ensures Channels(c) == 0 <==> c == UnknownColor
  {
  }

  datatype FormatCheck = FormatOk(format: GlFormat, pixelbytes: u32) | FormatProblem

  /**
    The "make sure it's the format we think it is" step: each known colour
    type demands `rowbytes == w * channels` (the product in unsigned
    arithmetic); the bytes per pixel are then `rowbytes / w`.
   */
  function CheckFormat(c: ColorType, rowbytes: u32, w: Dim): (r: FormatCheck)
    ensures r.FormatOk? <==> Channels(c) > 0 && rowbytes == Wrap(w * Channels(c))
    ensures r.FormatOk? ==> r.pixelbytes * w <= rowbytes < (r.pixelbytes + 1) * w
    ensures r.FormatOk? && w * Channels(c) < U32 ==>
              r.pixelbytes == Channels(c) && r.pixelbytes * w == rowbytes
    ensures r.FormatOk? ==>
              r.format == match c
                          case Gray => Luminance
                          case GrayAlpha => LuminanceAlpha
                          case RgbAlpha => RgbaFormat
                          case _ => RgbFormat
  {
    PerPixelExact(Channels(c), w);
    match c
    case Gray => if rowbytes != Wrap(w * 1) then FormatProblem else FormatOk(Luminance, PerPixel(rowbytes, w))
    case GrayAlpha => if rowbytes != Wrap(w * 2) then FormatProblem else FormatOk(LuminanceAlpha, PerPixel(rowbytes, w))
    case Palette => if rowbytes != Wrap(w * 3) then FormatProblem else FormatOk(RgbFormat, PerPixel(rowbytes, w))
    case Rgb => if rowbytes != Wrap(w * 3) then FormatProblem else FormatOk(RgbFormat, PerPixel(rowbytes, w))
    case RgbAlpha => if rowbytes != Wrap(w * 4) then FormatProblem else FormatOk(RgbaFormat, PerPixel(rowbytes, w))
    case UnknownColor => FormatProblem
  }

  /** `rowbytes / w` as an unsigned int: the number of whole w-byte blocks in rowbytes. */
  function PerPixel(rowbytes: u32, w: Dim): (p: u32)
    ensures p * w <= rowbytes < (p + 1) * w
  {
    DivBounds(rowbytes, w);
    rowbytes / w
  }

  /** A row of w pixels of k bytes each, with no wrap-around, has k bytes per pixel. */
  lemma PerPixelExact(k: nat, w: Dim)
    ensures w * k < U32 ==> PerPixel(w * k, w) == k
  {
    if w * k < U32 {
      DivModOfMulAdd(k, 0, w);
      assert k * w + 0 == w * k;
    }
  }

  // ---------------------------------------------------------------------
  // Row pointers

  /** The buffer row that image row i is read into: row i when flipped, else counted from the bottom. */
  function RowOf(i: nat, th: nat, flip: bool): (r: nat)
    requires i < th
    ensures r < th
  {
    if flip then i else th - 1 - i
  }

  /**
    The row mapping is a bijection on [0, th): it is its own inverse, so
    every buffer row receives exactly one image row.
   */
  lemma RowOfBijective(th: nat, flip: bool)
    ensures forall i :: 0 <= i < th ==> RowOf(RowOf(i, th, flip), th, flip) == i
    ensures forall i, j :: 0 <= i < th && 0 <= j < th && RowOf(i, th, flip) == RowOf(j, th, flip) ==> i == j
  {
  }

  /**
    The two row-pointer loops: with `flip`, pointer r gets buffer row r;
    otherwise pointer th-1-r gets buffer row r. Offsets are in bytes.
   */
  method FillRowPointers(th: nat, stride: nat, flip: bool) returns (rowPointers: array<nat>)
    ensures fresh(rowPointers) && rowPointers.Length == th
    ensures forall i :: 0 <= i < th ==> rowPointers[i] == RowOf(i, th, flip) * stride
  {
    rowPointers := new nat[th];
    if flip {
      for r := 0 to th
        invariant forall i :: 0 <= i < r ==> rowPointers[i] == i * stride
      {
        rowPointers[r] := r * stride;
      }
    } else {
      for r := 0 to th
        invariant forall k :: 0 <= k < r ==> rowPointers[th - 1 - k] == k * stride
      {
        rowPointers[th - 1 - r] := r * stride;
      }
      forall i | 0 <= i < th
        ensures rowPointers[i] == RowOf(i, th, flip) * stride
      {
        var k := th - 1 - i;
        assert rowPointers[th - 1 - k] == k * stride;
      }
    }
  }

  // ---------------------------------------------------------------------
  // The buffer after each step, as functions of the buffer before it.
  // Rows are `stride` bytes long; `stride` is `tw * pb`.

  /**
    After libpng has read `rows`: byte j of buffer row R holds byte j of the
    image row read into R, where there is one; every other byte is as before.
   */
  ghost function AfterRead(buf: seq<byte>, rows: seq<seq<byte>>, th: nat, stride: nat, flip: bool): (res: seq<byte>)
    requires 0 < stride && |rows| <= th
    ensures |res| == |buf|
  {
    seq(|buf|, k requires 0 <= k < |buf| => ReadAt(buf, rows, th, stride, flip, k))
  }

  ghost function ReadAt(buf: seq<byte>, rows: seq<seq<byte>>, th: nat, stride: nat, flip: bool, k: nat): byte
    requires 0 < stride && |rows| <= th && k < |buf|
  {
    var row := Quot(k, stride);
    var j := Rem(k, stride);
    if row < th && RowOf(row, th, flip) < |rows| && j < |rows[RowOf(row, th, flip)]|
    then rows[RowOf(row, th, flip)][j]
    else buf[k]
  }

  /**
    The column padding, done for rows below `r` and for the columns of row
    `r` below `c`: every pixel right of column w-1 there is a copy of pixel
    w-1 of its row.
   */
  ghost function PadColumnsUpTo(buf: seq<byte>, w: nat, tw: nat, th: nat, pb: nat, stride: nat, r: nat, c: nat): (res: seq<byte>)
    requires 1 <= w <= tw && 0 < pb && stride == tw * pb && 0 < stride && |buf| == th * stride
    ensures |res| == |buf|
  {
    seq(|buf|, k requires 0 <= k < |buf| => PadColumnAt(buf, w, tw, th, pb, stride, r, c, k))
  }

  ghost function PadColumnAt(buf: seq<byte>, w: nat, tw: nat, th: nat, pb: nat, stride: nat, r: nat, c: nat, k: nat): byte
    requires 1 <= w <= tw && 0 < pb && stride == tw * pb && 0 < stride && |buf| == th * stride && k < |buf|
  {
    var row := Quot(k, stride);
    var x := Rem(k, stride);
    var col := Quot(x, pb);
    var b := Rem(x, pb);
    ColumnSourceInRange(w, tw, th, pb, stride, k);
    if w <= col && (row < r || (row == r && col < c))
    then buf[Offset(row, stride, w - 1, pb, b)]
    else buf[k]
  }

  /** Byte b of pixel w-1 in the row of byte k, the source of a column copy, lies in the buffer. */
  lemma ColumnSourceInRange(w: nat, tw: nat, th: nat, pb: nat, stride: nat, k: nat)
    requires 1 <= w <= tw && 0 < pb && stride == tw * pb && 0 < stride && k < th * stride
    ensures Rem(Rem(k, stride), pb) < pb
    ensures Offset(Quot(k, stride), stride, w - 1, pb, Rem(Rem(k, stride), pb)) < th * stride
  {
    var row := Quot(k, stride);
    var b := Rem(Rem(k, stride), pb);
    assert b < pb by { QuotRemSplit(Rem(k, stride), pb); }
    assert row < th by { QuotBelow(k, th, stride); }
    var j := Slot(w - 1, pb, b);
    assert j < stride by { BlockBound(w - 1, b, tw, pb); }
    assert Offset(row, stride, w - 1, pb, b) < th * stride by { BlockBound(row, j, th, stride); }
  }

  /** The row padding, done for rows h to `upTo` - 1: each is a copy of row h-1. */
  ghost function PadRowsUpTo(buf: seq<byte>, h: nat, upTo: nat, th: nat, stride: nat): (res: seq<byte>)
    requires 1 <= h <= th && 0 < stride && |buf| == th * stride
    ensures |res| == |buf|
  {
    seq(|buf|, k requires 0 <= k < |buf| => PadRowAt(buf, h, upTo, th, stride, k))
  }

  ghost function PadRowAt(buf: seq<byte>, h: nat, upTo: nat, th: nat, stride: nat, k: nat): byte
    requires 1 <= h <= th && 0 < stride && |buf| == th * stride && k < |buf|
  {
    var row := Quot(k, stride);
    QuotRemSplit(k, stride);
    BlockBound(h - 1, Rem(k, stride), th, stride);
    if h <= row < upTo
    then buf[(h - 1) * stride + Rem(k, stride)]
    else buf[k]
  }

  // ---------------------------------------------------------------------
  // The steps, in place

  /**
    `png_read_image`: libpng copies image row i to the address in row
    pointer i, one row at a time. This stands for libpng's own loop.
   */
  method ReadImage(data: array<byte>, rowPointers: array<nat>, rows: seq<seq<byte>>, rowbytes: nat,
                   th: nat, stride: nat, flip: bool)
    requires rowPointers.Length == th && |rows| <= th && rowbytes <= stride && 0 < stride
    requires data.Length == th * stride
    requires forall i :: 0 <= i < th ==> rowPointers[i] == RowOf(i, th, flip) * stride
    requires forall i :: 0 <= i < |rows| ==> |rows[i]| == rowbytes
    modifies data
    ensures data[..] == AfterRead(old(data[..]), rows, th, stride, flip)
  {
    ghost var orig := data[..];
    assert AfterRead(orig, rows[..0], th, stride, flip) == orig;
    for i := 0 to |rows|
      invariant data[..] == AfterRead(orig, rows[..i], th, stride, flip)
    {
      ReadRow(data, orig, rowPointers[i], rows, i, rowbytes, th, stride, flip);
    }
    assert rows[..|rows|] == rows;
  }

  /** libpng's copy of image row i into the buffer. */
  method ReadRow(data: array<byte>, ghost orig: seq<byte>, base: nat, rows: seq<seq<byte>>, i: nat, rowbytes: nat,
                 th: nat, stride: nat, flip: bool)
    requires i < |rows| <= th && rowbytes <= stride && 0 < stride
    requires data.Length == th * stride && |orig| == data.Length
    requires base == RowOf(i, th, flip) * stride
    requires forall n :: 0 <= n < |rows| ==> |rows[n]| == rowbytes
    requires data[..] == AfterRead(orig, rows[..i], th, stride, flip)
    modifies data
    ensures data[..] == AfterRead(orig, rows[..i + 1], th, stride, flip)
  {
    ghost var prev := data[..];
    BlockBound(RowOf(i, th, flip), stride - 1, th, stride);
    forall j | 0 <= j < rowbytes {
      data[base + j] := rows[i][j];
    }
    forall k | 0 <= k < data.Length
      ensures data[k] == ReadAt(orig, rows[..i + 1], th, stride, flip, k)
    {
      if base <= k < base + rowbytes {
        assert data[base + (k - base)] == rows[i][k - base];
        ReadInsideRow(orig, rows, i, th, stride, flip, k - base);
      } else {
        assert data[k] == prev[k];
        ReadOutsideRow(orig, rows, i, th, stride, flip, k);
      }
    }
    assert data[..] == AfterRead(orig, rows[..i + 1], th, stride, flip);
  }

  /** Once row i is read, byte j of its buffer row is byte j of the image row. */
  lemma ReadInsideRow(orig: seq<byte>, rows: seq<seq<byte>>, i: nat, th: nat, stride: nat, flip: bool, j: nat)
    requires i < |rows| <= th && 0 < stride && j < |rows[i]| <= stride
    requires |orig| == th * stride
    ensures RowOf(i, th, flip) * stride + j < |orig|
    ensures ReadAt(orig, rows[..i + 1], th, stride, flip, RowOf(i, th, flip) * stride + j) == rows[i][j]
  {
    BlockBound(RowOf(i, th, flip), j, th, stride);
    QuotRemOfMulAdd(RowOf(i, th, flip), j, stride);
  }

  /** Reading row i changes no byte outside its target. */
  lemma ReadOutsideRow(orig: seq<byte>, rows: seq<seq<byte>>, i: nat, th: nat, stride: nat, flip: bool, k: nat)
    requires i < |rows| <= th && 0 < stride && |rows[i]| <= stride
    requires |orig| == th * stride && k < |orig|
    requires !(RowOf(i, th, flip) * stride <= k < RowOf(i, th, flip) * stride + |rows[i]|)
    ensures ReadAt(orig, rows[..i + 1], th, stride, flip, k) == ReadAt(orig, rows[..i], th, stride, flip, k)
  {
    var row := Quot(k, stride);
    if row < th && RowOf(row, th, flip) == i {
      QuotRemSplit(k, stride);
    }
  }

  /**
    "Duplicate the last column across the texture": for each of the h image
    rows, pixel w-1 is copied, pixel by pixel, to columns w to tw-1.
   */
  method PadColumns(data: array<byte>, w: nat, h: nat, tw: nat, th: nat, pb: nat)
    requires 1 <= w <= tw && h <= th && 0 < pb && 0 < tw * pb && data.Length == th * (tw * pb)
    modifies data
    ensures data[..] == PadColumnsUpTo(old(data[..]), w, tw, th, pb, tw * pb, h, w)
  {
    ghost var orig := data[..];
    ghost var stride := tw * pb;
    assert PadColumnsUpTo(orig, w, tw, th, pb, stride, 0, w) == orig;
    var r := 0;
    while r < h
      invariant 0 <= r <= h
      invariant data[..] == PadColumnsUpTo(orig, w, tw, th, pb, stride, r, w)
    {
      var c := w;
      while c < tw
        invariant w <= c <= tw
        invariant data[..] == PadColumnsUpTo(orig, w, tw, th, pb, stride, r, c)
      {
        PadColumnStep(data, orig, w, tw, th, pb, stride, r, c);
        c := c + 1;
      }
      PadColumnsNextRow(orig, w, tw, th, pb, stride, r);
      r := r + 1;
    }
  }

  /** One `memcpy` of the column padding: pixel w-1 of row r copied to pixel c. */
  method PadColumnStep(data: array<byte>, ghost orig: seq<byte>, w: nat, tw: nat, th: nat, pb: nat, ghost stride: nat,
                       r: nat, c: nat)
    requires 1 <= w <= c < tw && r < th && 0 < pb && stride == tw * pb && 0 < stride
    requires data.Length == th * stride && |orig| == data.Length
    requires data[..] == PadColumnsUpTo(orig, w, tw, th, pb, stride, r, c)
    modifies data
    ensures data[..] == PadColumnsUpTo(orig, w, tw, th, pb, stride, r, c + 1)
  {
    ghost var prev := data[..];
    PixelOffset(r, c, tw, th, pb);
    PixelOffset(r, w - 1, tw, th, pb);
    var dst: nat := (r * tw + c) * pb;
    var src: nat := (r * tw + w - 1) * pb;
    forall b | 0 <= b < pb {
      data[dst + b] := data[src + b];
    }
    forall k | 0 <= k < data.Length
      ensures data[k] == PadColumnAt(orig, w, tw, th, pb, stride, r, c + 1, k)
    {
      if dst <= k < dst + pb {
        assert data[dst + (k - dst)] == prev[src + (k - dst)];
        PadColumnInside(orig, w, tw, th, pb, stride, r, c, k - dst);
      } else {
        assert data[k] == prev[k];
        PadColumnOutside(orig, w, tw, th, pb, stride, r, c, k);
      }
    }
    assert data[..] == PadColumnsUpTo(orig, w, tw, th, pb, stride, r, c + 1);
  }

  /** The source's pixel offset `(r * tw + c) * pb` is the start of pixel (r, c) of a th-row buffer. */
  lemma PixelOffset(r: nat, c: nat, tw: nat, th: nat, pb: nat)
    requires r < th && c < tw && 0 < pb
    ensures (r * tw + c) * pb == r * (tw * pb) + c * pb == Offset(r, tw * pb, c, pb, 0)
    ensures r * (tw * pb) + c * pb + pb <= th * (tw * pb)
  {
    BlockBound(c, pb - 1, tw, pb);
    BlockBound(r, c * pb + pb - 1, th, tw * pb);
  }

  /** Once pixel (r, c) is padded, its byte b is byte b of pixel (r, w-1), which no step changes. */
  lemma PadColumnInside(orig: seq<byte>, w: nat, tw: nat, th: nat, pb: nat, stride: nat, r: nat, c: nat, b: nat)
    requires 1 <= w <= c < tw && r < th && 0 < pb && stride == tw * pb && 0 < stride
    requires |orig| == th * stride && b < pb
    ensures r * stride + c * pb + b < |orig| && r * stride + (w - 1) * pb + b < |orig|
    ensures PadColumnAt(orig, w, tw, th, pb, stride, r, c + 1, r * stride + c * pb + b)
            == orig[r * stride + (w - 1) * pb + b]
    ensures PadColumnAt(orig, w, tw, th, pb, stride, r, c, r * stride + (w - 1) * pb + b)
            == orig[r * stride + (w - 1) * pb + b]
  {
    BlockBound(c, b, tw, pb);
    BlockBound(r, Slot(c, pb, b), th, stride);
    QuotRemOfMulAdd(r, Slot(c, pb, b), stride);
    QuotRemOfMulAdd(c, b, pb);
    BlockBound(w - 1, b, tw, pb);
    BlockBound(r, Slot(w - 1, pb, b), th, stride);
    QuotRemOfMulAdd(r, Slot(w - 1, pb, b), stride);
    QuotRemOfMulAdd(w - 1, b, pb);
  }

  /** Padding pixel (r, c) changes no byte outside it. */
  lemma PadColumnOutside(orig: seq<byte>, w: nat, tw: nat, th: nat, pb: nat, stride: nat, r: nat, c: nat, k: nat)
    requires 1 <= w <= c < tw && r < th && 0 < pb && stride == tw * pb && 0 < stride
    requires |orig| == th * stride && k < |orig|
    requires !(r * stride + c * pb <= k < r * stride + c * pb + pb)
    ensures PadColumnAt(orig, w, tw, th, pb, stride, r, c + 1, k) == PadColumnAt(orig, w, tw, th, pb, stride, r, c, k)
  {
    QuotRemSplit(k, stride);
    QuotRemSplit(Rem(k, stride), pb);
  }

  /** Finishing row r of the column padding is starting row r + 1. */
  lemma PadColumnsNextRow(orig: seq<byte>, w: nat, tw: nat, th: nat, pb: nat, stride: nat, r: nat)
    requires 1 <= w <= tw && 0 < pb && stride == tw * pb && 0 < stride && |orig| == th * stride
    ensures PadColumnsUpTo(orig, w, tw, th, pb, stride, r, tw) == PadColumnsUpTo(orig, w, tw, th, pb, stride, r + 1, w)
  {
    forall k | 0 <= k < |orig|
      ensures PadColumnAt(orig, w, tw, th, pb, stride, r, tw, k) == PadColumnAt(orig, w, tw, th, pb, stride, r + 1, w, k)
    {
      QuotRemSplit(k, stride);
      QuotBelow(Rem(k, stride), tw, pb);
    }
  }

  /** "Duplicate the last row down the texture": rows h to th-1 each receive a copy of row h-1. */
  method PadRows(data: array<byte>, h: nat, th: nat, stride: nat)
    requires 1 <= h <= th && 0 < stride && data.Length == th * stride
    modifies data
    ensures data[..] == PadRowsUpTo(old(data[..]), h, th, th, stride)
  {
    ghost var orig := data[..];
    assert PadRowsUpTo(orig, h, h, th, stride) == orig;
    for r := h to th
      invariant data[..] == PadRowsUpTo(orig, h, r, th, stride)
    {
      PadRowStep(data, orig, h, r, th, stride);
    }
  }

  /** One `memcpy` of the row padding: row h-1 copied to row r. */
  method PadRowStep(data: array<byte>, ghost orig: seq<byte>, h: nat, r: nat, th: nat, stride: nat)
    requires 1 <= h <= r < th && 0 < stride && data.Length == th * stride && |orig| == data.Length
    requires data[..] == PadRowsUpTo(orig, h, r, th, stride)
    modifies data
    ensures data[..] == PadRowsUpTo(orig, h, r + 1, th, stride)
  {
    ghost var prev := data[..];
    BlockBound(r, stride - 1, th, stride);
    BlockBound(h - 1, stride - 1, th, stride);
    forall j | 0 <= j < stride {
      data[r * stride + j] := data[(h - 1) * stride + j];
    }
    forall k | 0 <= k < data.Length
      ensures data[k] == PadRowAt(orig, h, r + 1, th, stride, k)
    {
      if r * stride <= k < r * stride + stride {
        assert data[r * stride + (k - r * stride)] == prev[(h - 1) * stride + (k - r * stride)];
        PadRowInside(orig, h, r, th, stride, k - r * stride);
      } else {
        assert data[k] == prev[k];
        PadRowOutside(orig, h, r, th, stride, k);
      }
    }
    assert data[..] == PadRowsUpTo(orig, h, r + 1, th, stride);
  }

  /** Once row r is padded, its byte j is byte j of row h-1, which no step changes. */
  lemma PadRowInside(orig: seq<byte>, h: nat, r: nat, th: nat, stride: nat, j: nat)
    requires 1 <= h <= r < th && 0 < stride && |orig| == th * stride && j < stride
    ensures r * stride + j < |orig| && (h - 1) * stride + j < |orig|
    ensures PadRowAt(orig, h, r + 1, th, stride, r * stride + j) == orig[(h - 1) * stride + j]
    ensures PadRowAt(orig, h, r, th, stride, (h - 1) * stride + j) == orig[(h - 1) * stride + j]
  {
    BlockBound(r, j, th, stride);
    BlockBound(h - 1, j, th, stride);
    QuotRemOfMulAdd(r, j, stride);
    QuotRemOfMulAdd(h - 1, j, stride);
  }

  /** Padding row r changes no byte outside it. */
  lemma PadRowOutside(orig: seq<byte>, h: nat, r: nat, th: nat, stride: nat, k: nat)
    requires 1 <= h <= r < th && 0 < stride && |orig| == th * stride && k < |orig|
    requires !(r * stride <= k < r * stride + stride)
    ensures PadRowAt(orig, h, r + 1, th, stride, k) == PadRowAt(orig, h, r, th, stride, k)
  {
    QuotRemSplit(k, stride);
  }
  // ---------------------------------------------------------------------
  // The three buffer functions read at pixel coordinates

  /** Byte j of buffer row R after the read: byte j of the image row read into R, if it has one. */
  lemma ReadAtPixel(buf: seq<byte>, rows: seq<seq<byte>>, th: nat, stride: nat, flip: bool, row: nat, j: nat)
    requires 0 < stride && |rows| <= th && |buf| == th * stride && row < th && j < stride
    ensures row * stride + j < |buf|
    ensures ReadAt(buf, rows, th, stride, flip, row * stride + j)
            == if RowOf(row, th, flip) < |rows| && j < |rows[RowOf(row, th, flip)]|
               then rows[RowOf(row, th, flip)][j] else buf[row * stride + j]
  {
    BlockBound(row, j, th, stride);
    QuotRemOfMulAdd(row, j, stride);
  }

  /** Byte b of pixel (R, C) after the column padding up to (r, c). */
  lemma PadColumnAtPixel(buf: seq<byte>, w: nat, tw: nat, th: nat, pb: nat, stride: nat, r: nat, c: nat,
                         row: nat, col: nat, b: nat)
    requires 1 <= w <= tw && 0 < pb && stride == tw * pb && 0 < stride && |buf| == th * stride
    requires row < th && col < tw && b < pb
    ensures row * stride + col * pb + b < |buf| && row * stride + (w - 1) * pb + b < |buf|
    ensures PadColumnAt(buf, w, tw, th, pb, stride, r, c, row * stride + col * pb + b)
            == if w <= col && (row < r || (row == r && col < c))
               then buf[row * stride + (w - 1) * pb + b] else buf[row * stride + col * pb + b]
  {
    var x := col * pb + b;
    BlockBound(col, b, tw, pb);
    BlockBound(row, x, th, stride);
    BlockBound(w - 1, b, tw, pb);
    BlockBound(row, Slot(w - 1, pb, b), th, stride);
    QuotRemOfMulAdd(row, x, stride);
    QuotRemOfMulAdd(col, b, pb);
    PadColumnAtSplit(buf, w, tw, th, pb, stride, r, c, row * stride + x, row, x, col, b);
  }

  /** `PadColumnAt` at a byte whose row, column and offset are known. */
  lemma PadColumnAtSplit(buf: seq<byte>, w: nat, tw: nat, th: nat, pb: nat, stride: nat, r: nat, c: nat,
                         k: nat, row: nat, x: nat, col: nat, b: nat)
    requires 1 <= w <= tw && 0 < pb && stride == tw * pb && 0 < stride && |buf| == th * stride && k < |buf|
    requires Quot(k, stride) == row && Rem(k, stride) == x && Quot(x, pb) == col && Rem(x, pb) == b
    requires row * stride + (w - 1) * pb + b < |buf|
    ensures PadColumnAt(buf, w, tw, th, pb, stride, r, c, k)
            == if w <= col && (row < r || (row == r && col < c))
               then buf[row * stride + (w - 1) * pb + b] else buf[k]
  {
  }

  /** Byte j of buffer row R after the row padding up to `upTo`. */
  lemma PadRowAtPixel(buf: seq<byte>, h: nat, upTo: nat, th: nat, stride: nat, row: nat, j: nat)
    requires 1 <= h <= th && 0 < stride && |buf| == th * stride && row < th && j < stride
    ensures row * stride + j < |buf| && (h - 1) * stride + j < |buf|
    ensures PadRowAt(buf, h, upTo, th, stride, row * stride + j)
            == if h <= row < upTo then buf[(h - 1) * stride + j] else buf[row * stride + j]
  {
    BlockBound(row, j, th, stride);
    BlockBound(h - 1, j, th, stride);
    QuotRemOfMulAdd(row, j, stride);
  }

  // ---------------------------------------------------------------------
  // What libpng reports, and what reload() makes of it

  datatype PngHeader = PngHeader(width: Dim, height: Dim, colorType: ColorType, rowbytes: u32)

  /**
    The outcome of opening and reading a file: it cannot be opened (or
    libpng's structures cannot be allocated); libpng fails on the header;
    or the header is read, and then the rows are read (`Some`) or libpng
    fails before the end (`None`).
   */
  datatype PngFile = Unopenable | Unreadable | Png(header: PngHeader, rows: Option<seq<seq<byte>>>)

  /** What `glTexImage2D` receives: format, texture size and the texel buffer. */
  datatype GlTexture = GlTexture(format: GlFormat, width: nat, height: nat, texels: seq<byte>)

  /** The file-name test `reload()` starts with. */
  predicate HasPngSuffix(name: string)
  {
    |name| >= 4 && name[|name| - 4..] == ".png"
  }

  /** A name passes the suffix test exactly when it is some stem followed by ".png". */
  lemma PngSuffixIsExtension(stem: string, name: string)
    ensures HasPngSuffix(stem + ".png")
    ensures HasPngSuffix(name) ==> name == name[..|name| - 4] + ".png"
  {
    assert (stem + ".png")[|stem|..] == ".png";
    if HasPngSuffix(name) {
      assert name == name[..|name| - 4] + name[|name| - 4..];
    }
  }

  /** The row and buffer sizes of the image fit in an unsigned int. */
  predicate Fits(hd: PngHeader, pad: bool)
  {
    var d := TextureDims(hd.width, hd.height, pad);
    hd.width * Channels(hd.colorType) < U32 && d.1 * d.0 * Channels(hd.colorType) < U32
  }

  /** libpng's rows: one per image row, each `rowbytes` long. */
  predicate WellFormedRows(hd: PngHeader, rows: seq<seq<byte>>)
  {
    |rows| == hd.height && forall i :: 0 <= i < |rows| ==> |rows[i]| == hd.rowbytes
  }

  /** The files this model accepts: libpng's own guarantees, and sizes without unsigned wrap-around. */
  predicate Acceptable(file: PngFile, pad: bool)
  {
    file.Png? ==> Fits(file.header, pad) && (file.rows.Some? ==> WellFormedRows(file.header, file.rows.value))
  }

  /** `reload()` gets as far as reading the header. */
  predicate ReachesHeader(name: string, file: PngFile)
  {
    HasPngSuffix(name) && file.Png?
  }

  /** `reload()` uploads a texture. */
  predicate Loads(name: string, file: PngFile)
  {
    ReachesHeader(name, file) && file.rows.Some?
    && CheckFormat(file.header.colorType, file.header.rowbytes, file.header.width).FormatOk?
  }

  /** The uninitialised `new uint8_t[n]`: its contents are whatever `garbage` says. */
  ghost function Allocation(n: nat, garbage: nat -> byte): (s: seq<byte>)
    ensures |s| == n
  {
    seq(n, i requires 0 <= i => garbage(i))
  }

  /** Image rows of w pixels of pb bytes each, one per image row. */
  predicate RowsOf(rows: seq<seq<byte>>, w: nat, h: nat, pb: nat)
  {
    |rows| == h && forall i :: 0 <= i < |rows| ==> |rows[i]| == w * pb
  }

  /**
    The buffer `reload()` uploads for a w x h image in a tw x th texture of
    pb-byte pixels: the rows read into a fresh buffer, then padded when
    `pad` is set.
   */
  ghost function Texels(rows: seq<seq<byte>>, w: nat, h: nat, tw: nat, th: nat, pb: nat, pad: bool, flip: bool,
                        garbage: nat -> byte): (t: seq<byte>)
    requires 1 <= w <= tw && 1 <= h <= th && 0 < pb && RowsOf(rows, w, h, pb)
    ensures |t| == th * (tw * pb)
  {
    MulMonotone(1, tw, pb);
    var read := AfterRead(Allocation(th * (tw * pb), garbage), rows, th, tw * pb, flip);
    if pad then PadRowsUpTo(PadColumnsUpTo(read, w, tw, th, pb, tw * pb, h, w), h, th, th, tw * pb)
    else read
  }

  /** The GL texture `reload()` creates. */
  ghost function Upload(hd: PngHeader, rows: seq<seq<byte>>, pad: bool, flip: bool, garbage: nat -> byte): GlTexture
    requires CheckFormat(hd.colorType, hd.rowbytes, hd.width).FormatOk? && Fits(hd, pad) && WellFormedRows(hd, rows)
  {
    var d := TextureDims(hd.width, hd.height, pad);
    var pb := Channels(hd.colorType);
    GlTexture(CheckFormat(hd.colorType, hd.rowbytes, hd.width).format, d.0, d.1,
              Texels(rows, hd.width, hd.height, d.0, d.1, pb, pad, flip, garbage))
  }

  /**
    With `flip`, the texture shows the image top row first: texel (r, c)
    is image pixel (r, c), and with padding the pixels right of and below
    the image repeat its last column and last row.
   */
  lemma FlippedTexels(rows: seq<seq<byte>>, w: nat, h: nat, tw: nat, th: nat, pb: nat, pad: bool, garbage: nat -> byte,
                      r: nat, c: nat, b: nat)
    requires 1 <= w <= tw && 1 <= h <= th && 0 < pb && RowsOf(rows, w, h, pb)
    requires pad || (tw == w && th == h)
    requires r < th && c < tw && b < pb
    ensures Offset(r, tw * pb, c, pb, b) < th * (tw * pb)
    ensures var r' := if r < h then r else h - 1;
            var c' := if c < w then c else w - 1;
            Slot(c', pb, b) < |rows[r']| &&
            Texels(rows, w, h, tw, th, pb, pad, true, garbage)[Offset(r, tw * pb, c, pb, b)] == rows[r'][Slot(c', pb, b)]
  {
    var stride := tw * pb;
    var r' := if r < h then r else h - 1;
    var c' := if c < w then c else w - 1;
    MulMonotone(1, tw, pb);
    BlockBound(c, b, tw, pb);
    BlockBound(r, Slot(c, pb, b), th, stride);
    var read := AfterRead(Allocation(th * stride, garbage), rows, th, stride, true);
    FlippedReadPixel(Allocation(th * stride, garbage), rows, w, h, tw, th, pb, stride, r', c', b);
    if pad {
      PaddedPixel(read, w, h, tw, th, pb, stride, r, c, b, r', c', Offset(r, stride, c, pb, b), Offset(r', stride, c', pb, b));
    }
  }

  /** After a flipped read, pixel (r, c) of an image row holds the image byte. */
  lemma FlippedReadPixel(alloc: seq<byte>, rows: seq<seq<byte>>, w: nat, h: nat, tw: nat, th: nat, pb: nat, stride: nat,
                         r: nat, c: nat, b: nat)
    requires 1 <= w <= tw && h <= th && 0 < pb && stride == tw * pb && RowsOf(rows, w, h, pb)
    requires |alloc| == th * stride && r < h && c < w && b < pb
    ensures Slot(c, pb, b) < |rows[r]| && Offset(r, stride, c, pb, b) < |alloc|
    ensures AfterRead(alloc, rows, th, stride, true)[Offset(r, stride, c, pb, b)] == rows[r][Slot(c, pb, b)]
  {
    BlockBound(c, b, w, pb);
    MulMonotone(w, tw, pb);
    ReadAtPixel(alloc, rows, th, stride, true, r, Slot(c, pb, b));
  }

  /**
    After both paddings of the first h rows and w columns, pixel (r, c) is
    pixel (r', c') of the buffer before them, with r and c clamped to the
    image.
   */
  lemma PaddedPixel(buf: seq<byte>, w: nat, h: nat, tw: nat, th: nat, pb: nat, stride: nat,
                     r: nat, c: nat, b: nat, r': nat, c': nat, k: nat, k': nat)
    requires 1 <= w <= tw && 1 <= h <= th && 0 < pb && stride == tw * pb && 0 < stride && |buf| == th * stride
    requires r < th && c < tw && b < pb
    requires r' == (if r < h then r else h - 1) && c' == (if c < w then c else w - 1)
    requires k == r * stride + c * pb + b && k' == r' * stride + c' * pb + b
    ensures k < |buf| && k' < |buf|
    ensures PadRowsUpTo(PadColumnsUpTo(buf, w, tw, th, pb, stride, h, w), h, th, th, stride)[k] == buf[k']
  {
    BlockBound(c, b, tw, pb);
    var mid := PadColumnsUpTo(buf, w, tw, th, pb, stride, h, w);
    PaddedColumnPixel(buf, w, h, tw, th, pb, stride, r', c, b);
    PaddedRow(mid, h, th, stride, r, r', Slot(c, pb, b));
  }

  /** After the row padding up to th, byte j of row r is byte j of row r clamped to h-1. */
  lemma PaddedRow(mid: seq<byte>, h: nat, th: nat, stride: nat, r: nat, r': nat, j: nat)
    requires 1 <= h <= th && 0 < stride && |mid| == th * stride && r < th && j < stride
    requires r' == if r < h then r else h - 1
    ensures r * stride + j < |mid| && r' * stride + j < |mid|
    ensures PadRowsUpTo(mid, h, th, th, stride)[r * stride + j] == mid[r' * stride + j]
  {
    BlockBound(r, j, th, stride);
    BlockBound(r', j, th, stride);
    PadRowAtPixel(mid, h, th, th, stride, r, j);
    assert PadRowsUpTo(mid, h, th, th, stride)[r * stride + j] == PadRowAt(mid, h, th, th, stride, r * stride + j);
  }

  /** After the column padding of the first h rows, pixel (row, c) of an image row is pixel (row, c) clamped to w-1. */
  lemma PaddedColumnPixel(buf: seq<byte>, w: nat, h: nat, tw: nat, th: nat, pb: nat, stride: nat, row: nat, c: nat, b: nat)
    requires 1 <= w <= tw && h <= th && 0 < pb && stride == tw * pb && 0 < stride && |buf| == th * stride
    requires row < h && c < tw && b < pb
    ensures row * stride + c * pb + b < |buf|
    ensures var c' := if c < w then c else w - 1;
            row * stride + c' * pb + b < |buf| &&
            PadColumnsUpTo(buf, w, tw, th, pb, stride, h, w)[row * stride + c * pb + b] == buf[row * stride + c' * pb + b]
  {
    var c' := if c < w then c else w - 1;
    BlockBound(c, b, tw, pb);
    BlockBound(c', b, tw, pb);
    BlockBound(row, Slot(c, pb, b), th, stride);
    BlockBound(row, Slot(c', pb, b), th, stride);
    PadColumnAtPixel(buf, w, tw, th, pb, stride, h, w, row, c, b);
    assert PadColumnsUpTo(buf, w, tw, th, pb, stride, h, w)[row * stride + c * pb + b]
           == PadColumnAt(buf, w, tw, th, pb, stride, h, w, row * stride + c * pb + b);
  }

  /** Without `flip` and without padding, the texture holds the image bottom row first, as GL expects. */
  lemma UnflippedTexels(rows: seq<seq<byte>>, w: nat, h: nat, pb: nat, garbage: nat -> byte, r: nat, c: nat, b: nat)
    requires 1 <= w && 1 <= h && 0 < pb && RowsOf(rows, w, h, pb)
    requires r < h && c < w && b < pb
    ensures Offset(r, w * pb, c, pb, b) < h * (w * pb)
    ensures Slot(c, pb, b) < |rows[h - 1 - r]| &&
            Texels(rows, w, h, w, h, pb, false, false, garbage)[Offset(r, w * pb, c, pb, b)] == rows[h - 1 - r][Slot(c, pb, b)]
  {
    MulMonotone(1, w, pb);
    BlockBound(c, b, w, pb);
    BlockBound(r, Slot(c, pb, b), h, w * pb);
    ReadAtPixel(Allocation(h * (w * pb), garbage), rows, h, w * pb, false, r, Slot(c, pb, b));
  }

  /**
    With padding but without `flip`, the image is read into the top rows
    th-h to th-1 of the buffer, while the padding treats rows 0 to h-1 as
    the image: for a one-pixel-wide image of three rows in a four-row
    texture, row 3 (image row 0) is overwritten by row 2 (image row 1),
    and row 0 keeps the allocation's contents. Image row 0 then appears
    nowhere in the texture.
   */
  lemma PaddedUnflippedLosesFirstRow()
    ensures Texels([[10], [20], [30]], 1, 3, 1, 4, 1, true, false, i => 0) == [0, 30, 20, 20]
  {
    var read := AfterRead(Allocation(4, i => 0), [[10], [20], [30]], 4, 1, false);
    ExampleRead();
    ExampleColumns(read);
    ExampleRows(read);
  }

  /** The three rows of the example land in buffer rows 3, 2 and 1; row 0 keeps the allocation's 0. */
  lemma ExampleRead()
    ensures AfterRead(Allocation(4, i => 0), [[10], [20], [30]], 4, 1, false) == [0, 30, 20, 10]
  {
    var rows: seq<seq<byte>> := [[10], [20], [30]];
    ReadAtPixel(Allocation(4, i => 0), rows, 4, 1, false, 0, 0);
    ReadAtPixel(Allocation(4, i => 0), rows, 4, 1, false, 1, 0);
    ReadAtPixel(Allocation(4, i => 0), rows, 4, 1, false, 2, 0);
    ReadAtPixel(Allocation(4, i => 0), rows, 4, 1, false, 3, 0);
  }

  /** A one-pixel-wide texture has no columns to pad. */
  lemma ExampleColumns(buf: seq<byte>)
    requires |buf| == 4
    ensures PadColumnsUpTo(buf, 1, 1, 4, 1, 1, 3, 1) == buf
  {
    var mid := PadColumnsUpTo(buf, 1, 1, 4, 1, 1, 3, 1);
    forall k | 0 <= k < 4
      ensures mid[k] == buf[k]
    {
      PadColumnAtPixel(buf, 1, 1, 4, 1, 1, 3, 1, k, 0, 0);
    }
  }

  /** Row 3 of the example becomes a copy of row 2. */
  lemma ExampleRows(buf: seq<byte>)
    requires buf == [0, 30, 20, 10]
    ensures PadRowsUpTo(buf, 3, 4, 4, 1) == [0, 30, 20, 20]
  {
    PadRowAtPixel(buf, 3, 4, 4, 1, 0, 0);
    PadRowAtPixel(buf, 3, 4, 4, 1, 1, 0);
    PadRowAtPixel(buf, 3, 4, 4, 1, 2, 0);
    PadRowAtPixel(buf, 3, 4, 4, 1, 3, 0);
  }

  /**
    The buffer part of `reload()`: allocate th * tw * pixelbytes bytes, lay
    out the row pointers, let libpng read the rows, and pad when asked
    (`h` and `w` are never 0 here, so the padding test is just `pad`).
   */
  method LoadBuffer(rows: seq<seq<byte>>, rowbytes: u32, pad: bool, flip: bool, garbage: nat -> byte,
                    w: u32, h: u32, tw: u32, th: u32, pixelbytes: u32) returns (data: array<byte>)
    requires 1 <= w <= tw && 1 <= h <= th && 0 < pixelbytes
    requires rowbytes == w * pixelbytes && RowsOf(rows, w, h, pixelbytes)
    ensures fresh(data) && data[..] == Texels(rows, w, h, tw, th, pixelbytes, pad, flip, garbage)
  {
    MulMonotone(1, tw, pixelbytes);
    MulMonotone(w, tw, pixelbytes);
    var stride := tw * pixelbytes;
    data := new byte[th * stride](i requires 0 <= i => garbage(i));
    assert data[..] == Allocation(th * stride, garbage);
    var rowPointers := FillRowPointers(th, stride, flip);
    ReadImage(data, rowPointers, rows, rowbytes, th, stride, flip);
    ghost var read := data[..];
    assert read == AfterRead(Allocation(th * stride, garbage), rows, th, stride, flip);
    if pad && h != 0 && w != 0 {
      PadColumns(data, w, h, tw, th, pixelbytes);
      PadRows(data, h, th, stride);
      assert data[..] == PadRowsUpTo(PadColumnsUpTo(read, w, tw, th, pixelbytes, stride, h, w), h, th, th, stride);
    }
  }

  /** The sizes `LoadBuffer` works with, for a header that passed the format check. */
  lemma LoadBufferSizes(hd: PngHeader, rows: seq<seq<byte>>, pad: bool, w: nat, h: nat, tw: nat, th: nat, pixelbytes: nat)
    requires Fits(hd, pad) && WellFormedRows(hd, rows)
    requires w == hd.width && h == hd.height && (tw, th) == TextureDims(hd.width, hd.height, pad)
    requires CheckFormat(hd.colorType, hd.rowbytes, hd.width).FormatOk?
    requires pixelbytes == CheckFormat(hd.colorType, hd.rowbytes, hd.width).pixelbytes
    ensures 1 <= w <= tw && 1 <= h <= th && 0 < pixelbytes == Channels(hd.colorType)
    ensures hd.rowbytes == w * pixelbytes && RowsOf(rows, w, h, pixelbytes)
  {
  }

  // ---------------------------------------------------------------------
  // The texture

  class CachedTexture {
    const filename: string
    const pad: bool
    const flip: bool
    /** The image size, as last read from a header. */
    var w: u32
    var h: u32
    /** The texture size. */
    var tw: u32
    var th: u32
    var loaded: bool
    /** The GL texture object; `None` while `obj` is 0. */
    var obj: Option<GlTexture>

    /** The constructor: everything zero, then `reload()`. */
    constructor (filename: string, pad: bool, flip: bool, file: PngFile, garbage: nat -> byte)
      requires Acceptable(file, pad)
      ensures this.filename == filename && this.pad == pad && this.flip == flip
      ensures !ReachesHeader(filename, file) ==> w == 0 && h == 0 && tw == 0 && th == 0
      ensures ReachesHeader(filename, file) ==>
                w == file.header.width && h == file.header.height &&
                (tw as nat, th as nat) == TextureDims(file.header.width, file.header.height, pad)
      ensures loaded == Loads(filename, file)
      ensures Loads(filename, file) ==> obj == Some(Upload(file.header, file.rows.value, pad, flip, garbage))
      ensures !Loads(filename, file) ==> obj == None
    {
      this.filename := filename;
      this.pad := pad;
      this.flip := flip;
      obj := None;
      w, h := 0, 0;
      tw, th := 0, 0;
      loaded := false;
      new;
      Reload(file, garbage);
    }

    /**
      `reload()`. Without the ".png" suffix, or when the file cannot be
      opened or its header read, nothing changes. Once the header is read
      the sizes are set, even if the format check or the read of the rows
      then fails; `loaded` becomes true only when a texture is uploaded, and
      is never reset.
     */
    method Reload(file: PngFile, garbage: nat -> byte)
      requires Acceptable(file, pad)
      modifies this
      ensures !ReachesHeader(filename, file) ==> w == old(w) && h == old(h) && tw == old(tw) && th == old(th)
      ensures ReachesHeader(filename, file) ==>
                w == file.header.width && h == file.header.height &&
                (tw as nat, th as nat) == TextureDims(file.header.width, file.header.height, pad)
      ensures loaded == (old(loaded) || Loads(filename, file))
      ensures Loads(filename, file) ==> obj == Some(Upload(file.header, file.rows.value, pad, flip, garbage))
      ensures !Loads(filename, file) ==> obj == old(obj)
    {
      if !(|filename| >= 4 && filename[|filename| - 4..] == ".png") {
        return;
      }
      if !file.Png? {
        return;
      }
      var header := file.header;
      w := header.width;
      h := header.height;
      tw := RoundUpToPowerOfTwo(w);
      th := RoundUpToPowerOfTwo(h);
      if !pad && (tw != w || th != h) {
        tw := w;
        th := h;
      }
      assert (tw as nat, th as nat) == TextureDims(header.width, header.height, pad);
      var check := CheckFormat(header.colorType, header.rowbytes, header.width);
      if check.FormatProblem? {
        return;
      }
      var pixelbytes := check.pixelbytes;
      if file.rows.None? {
        return;
      }
      LoadBufferSizes(header, file.rows.value, pad, w, h, tw, th, pixelbytes);
      var data := LoadBuffer(file.rows.value, header.rowbytes, pad, flip, garbage, w, h, tw, th, pixelbytes);
      obj := Some(GlTexture(check.format, tw, th, data[..]));
      loaded := true;
    }
  }

  // ---------------------------------------------------------------------
  // The cache

  /** An entry of the resource cache: a texture, or an item of another kind under the same key. */
  datatype CacheItem = TextureItem(texture: CachedTexture) | OtherItem

  /** `"texture:"`, then the pad and flip flags as '1' or '0', then the file name. */
  function CacheKey(pad: bool, flip: bool, filename: string): (key: string)
    ensures |key| == |filename| + 10 && key[..8] == "texture:" && key[10..] == filename
    ensures key[8] == (if pad then '1' else '0') && key[9] == (if flip then '1' else '0')
  {
    "texture:" + [if pad then '1' else '0'] + [if flip then '1' else '0'] + filename
  }

  /** Different (pad, flip, file name) triples never share a key. */
  lemma CacheKeyInjective(pad: bool, flip: bool, filename: string, pad': bool, flip': bool, filename': string)
    requires CacheKey(pad, flip, filename) == CacheKey(pad', flip', filename')
    ensures pad == pad' && flip == flip' && filename == filename'
  {
    var k := CacheKey(pad, flip, filename);
    assert k[8] == CacheKey(pad', flip', filename')[8];
    assert k[9] == CacheKey(pad', flip', filename')[9];
    assert k[10..] == CacheKey(pad', flip', filename')[10..];
  }

  class TextureCache {
    var items: map<string, CacheItem>

    /**
      `get_texture`: the cached texture under the key if there is one; else
      a new texture, cached and returned only if it loaded. An item of
      another kind under the key gives no texture.
     */
    method GetTexture(filename: string, pad: bool, flip: bool, file: PngFile, garbage: nat -> byte)
      returns (ret: Option<CachedTexture>)
      requires CacheKey(pad, flip, filename) !in items ==> Acceptable(file, pad)
      modifies this
      ensures var key := CacheKey(pad, flip, filename);
              key in old(items) ==>
                items == old(items) &&
                ret == (if old(items)[key].TextureItem? then Some(old(items)[key].texture) else None)
      ensures var key := CacheKey(pad, flip, filename);
              key !in old(items) && !Loads(filename, file) ==> ret == None && items == old(items)
      ensures var key := CacheKey(pad, flip, filename);
              key !in old(items) && Loads(filename, file) ==>
                ret.Some? && fresh(ret.value) && items == old(items)[key := TextureItem(ret.value)] &&
                ret.value.filename == filename && ret.value.pad == pad && ret.value.flip == flip &&
                ret.value.loaded && ret.value.obj == Some(Upload(file.header, file.rows.value, pad, flip, garbage))
    {
      var key := "texture:";
      key := key + [if pad then '1' else '0'];
      key := key + [if flip then '1' else '0'];
      key := key + filename;
      assert key == CacheKey(pad, flip, filename);
      ret := None;
      var item: CacheItem;
      if key !in items {
        var t := new CachedTexture(filename, pad, flip, file, garbage);
        if !t.loaded {
          return;
        }
        item := TextureItem(t);
        items := items[key := item];
      } else {
        item := items[key];
      }
      if !item.TextureItem? {
        return;
      }
      ret := Some(item.texture);
    }
  }
}
