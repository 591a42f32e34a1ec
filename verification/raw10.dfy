/**
  The RAW10 unpacker of `save_raw10_to_tiff` in src/SimpleCapture/main.cpp.

  RAW10 (the MIPI CSI-2 packed 10-bit format) stores every four pixels in five
  bytes: bytes 0..3 hold the high eight bits of pixels 0..3 and byte 4 holds
  their low two bits, pixel k in bits 2k and 2k+1. Each image row starts on a
  packed stride of ceil(10 * width / 8) bytes. A row whose width is not a
  multiple of four ends with a partial group, which the code copies into a
  zeroed five-byte scratch array before decoding it.

  Arithmetic: the bytes are C `uint8_t`, promoted to `int` before shifting, so
  `b << 2` is at most 1020 and `(b << 2) | low` with `low < 4` is `4 * b + low`.
  The results fit the `uint16_t` output without truncation. `x >> 2k & 3` on a
  byte is `(x / 4^k) % 4`.
 */
module Raw10 {
  import opened Unsigned

  /** `packed_stride = (width * 10 + 7) / 8`. */
  function Stride(width: nat): nat {
    (width * 10 + 7) / 8
  }

  /** `(x >> (2 * k)) & 0x3` for a byte `x`: its k-th two-bit field. */
  function LowBits(x: byte, k: nat): (f: nat)
    requires k < 4
    ensures f < 4
  {
    if k == 0 then x % 4
    else if k == 1 then (x / 4) % 4
    else if k == 2 then (x / 16) % 4
    else (x / 64) % 4
  }

  /** One decoded pixel: `(hi << 2) | ((low >> 2k) & 3)`. */
  function Sample(hi: byte, low: byte, k: nat): (v: u16)
    requires k < 4
    ensures v < 1024
    ensures v / 4 == hi && v % 4 == LowBits(low, k)
  {
    hi * 4 + LowBits(low, k)
  }

  /** The four pixels of a full five-byte group. */
  function UnpackGroup(g: seq<byte>): (v: seq<u16>)
    requires |g| == 5
    ensures |v| == 4
    ensures forall k :: 0 <= k < 4 ==> v[k] == Sample(g[k], g[4], k)
  {
    [Sample(g[0], g[4], 0), Sample(g[1], g[4], 1), Sample(g[2], g[4], 2), Sample(g[3], g[4], 3)]
  }

  /**
    How many bytes the remainder branch copies into the scratch array:
    `rem == 1 ? 2 : rem == 2 ? 3 : rem == 3 ? 4 : 5`.
   */
  function CopyCount(rem: nat): nat {
    if rem == 1 then 2 else if rem == 2 then 3 else if rem == 3 then 4 else 5
  }

  /** The zeroed five-byte array `b` with its first `n` entries copied from `src` at `offset`. */
  function Scratch(src: seq<byte>, offset: nat, n: nat): (b: seq<byte>)
    requires n <= 5 && offset + n <= |src|
    ensures |b| == 5
    ensures forall i :: 0 <= i < 5 ==> b[i] == if i < n then src[offset + i] else 0
  {
    seq(5, i requires 0 <= i < 5 => if i < n then src[offset + i] else 0)
  }

  /** Where the group loop stops: `col` after `for (; col + 3 < width; col += 4)`. */
  function GroupEnd(width: nat): nat {
    4 * (width / 4)
  }

  /**
    The stride splits into the full groups and the bytes the remainder branch
    copies, so every byte either part reads lies inside the row.
   */
  lemma StrideLayout(width: nat)
    ensures width % 4 == 0 ==> Stride(width) == 5 * (width / 4)
    ensures width % 4 != 0 ==> Stride(width) == 5 * (width / 4) + CopyCount(width % 4)
    ensures width - GroupEnd(width) == width % 4 < 4
  {
  }

  /** The pixel in column `c` of the row whose packed bytes are `src`. */
  function RowPixel(src: seq<byte>, width: nat, c: nat): (v: u16)
    requires |src| == Stride(width) && c < width
  {
    StrideLayout(width);
    var q := width / 4;
    if c < GroupEnd(width) then
      var g := 5 * (c / 4);
      Sample(src[g + c % 4], src[g + 4], c % 4)
    else
      var b := Scratch(src, 5 * q, CopyCount(width % 4));
      Sample(b[c - GroupEnd(width)], b[4], c - GroupEnd(width))
  }

  /** All pixels of one row. */
  function RowValues(src: seq<byte>, width: nat): (row: seq<u16>)
    requires |src| == Stride(width)
    ensures |row| == width
    ensures forall c :: 0 <= c < width ==> row[c] == RowPixel(src, width, c)
  {
    seq(width, c requires 0 <= c < width => RowPixel(src, width, c))
  }

  /** The packed bytes of row `r`: `data + r * packed_stride`, one stride long. */
  function PackedRow(data: seq<byte>, width: nat, r: nat): (src: seq<byte>)
    requires (r + 1) * Stride(width) <= |data|
    ensures |src| == Stride(width)
  {
    data[r * Stride(width) .. (r + 1) * Stride(width)]
  }

  lemma MulMonotone(a: nat, b: nat, k: nat)
    requires a <= b
    ensures a * k <= b * k
  {
  }

  /** The unpacked image: the first `height` rows, each decoded from its own packed row. */
  function Unpacked(data: seq<byte>, width: nat, height: nat): (out: seq<u16>)
    requires height * Stride(width) <= |data|
    ensures |out| == width * height
    decreases height
  {
    if height == 0 then []
    else
      MulMonotone(height - 1, height, Stride(width));
      Unpacked(data, width, height - 1) + RowValues(PackedRow(data, width, height - 1), width)
  }

  /**
    One row as the code decodes it: full groups of four pixels from five bytes,
    advancing five bytes per group, then the remainder through the scratch array.
   */
  method UnpackRow(src: seq<byte>, width: nat) returns (dst: seq<u16>)
    requires |src| == Stride(width)
    ensures dst == RowValues(src, width)
  {
    dst := UnpackGroups(src, width);
    if width % 4 > 0 {
      var tail := UnpackRemainder(src, width);
      dst := dst + tail;
    }
  }

  /** The group loop: `for (; col + 3 < width; col += 4)`, five bytes per group. */
  method UnpackGroups(src: seq<byte>, width: nat) returns (dst: seq<u16>)
    requires |src| == Stride(width)
    ensures |dst| == GroupEnd(width)
    ensures forall c :: 0 <= c < GroupEnd(width) ==> dst[c] == RowPixel(src, width, c)
  {
    dst := [];
    var col := 0;
    var offset := 0;
    while col + 3 < width
      invariant col % 4 == 0 && col <= GroupEnd(width)
      invariant offset == 5 * (col / 4)
      invariant |dst| == col
      invariant forall c :: 0 <= c < col ==> dst[c] == RowPixel(src, width, c)
    {
      GroupStep(src, width, col);
      var group := UnpackGroup(src[offset .. offset + 5]);
      dst := dst + group;
      offset := offset + 5;
      col := col + 4;
    }
  }

  /**
    The remainder branch: copy `CopyCount(rem)` bytes into a zeroed five-byte
    array `b`, then decode `rem` pixels from it.
   */
  method UnpackRemainder(src: seq<byte>, width: nat) returns (tail: seq<u16>)
    requires |src| == Stride(width) && width % 4 > 0
    ensures |tail| == width % 4
    ensures forall i :: 0 <= i < |tail| ==> tail[i] == RowPixel(src, width, GroupEnd(width) + i)
  {
    var rem := width % 4;
    var offset := 5 * (width / 4);
    RemainderStep(src, width, 0);
    var b: seq<byte> := [0, 0, 0, 0, 0];
    var i := 0;
    while i < CopyCount(rem)
      invariant i <= CopyCount(rem) <= 4
      invariant |b| == 5
      invariant forall j :: 0 <= j < 5 ==> b[j] == if j < i then src[offset + j] else 0
    {
      b := b[i := src[offset + i]];
      i := i + 1;
    }
    assert b == Scratch(src, offset, CopyCount(rem));
    tail := [];
    i := 0;
    while i < rem
      invariant i <= rem
      invariant |tail| == i
      invariant forall j :: 0 <= j < i ==> tail[j] == RowPixel(src, width, GroupEnd(width) + j)
    {
      RemainderStep(src, width, i);
      tail := tail + [Sample(b[i], b[4], i)];
      i := i + 1;
    }
  }

  /** The four pixels of the group starting at column `col` are the decoded five bytes at offset 5 * col / 4. */
  lemma GroupStep(src: seq<byte>, width: nat, col: nat)
    requires |src| == Stride(width) && col % 4 == 0 && col + 3 < width
    ensures 5 * (col / 4) + 5 <= |src|
    ensures forall c :: col <= c < col + 4 ==>
      RowPixel(src, width, c) == UnpackGroup(src[5 * (col / 4) .. 5 * (col / 4) + 5])[c - col]
  {
    StrideLayout(width);
    forall c | col <= c < col + 4
      ensures RowPixel(src, width, c) == UnpackGroup(src[5 * (col / 4) .. 5 * (col / 4) + 5])[c - col]
    {
      assert c / 4 == col / 4 && c % 4 == c - col;
    }
  }

  /** Remainder pixel i is decoded from the scratch array. */
  lemma RemainderStep(src: seq<byte>, width: nat, i: nat)
    requires |src| == Stride(width) && GroupEnd(width) + i < width
    ensures width % 4 != 0 && CopyCount(width % 4) <= 4
    ensures 5 * (width / 4) + CopyCount(width % 4) <= |src|
    ensures i < 4
    ensures RowPixel(src, width, GroupEnd(width) + i) ==
      var b := Scratch(src, 5 * (width / 4), CopyCount(width % 4)); Sample(b[i], b[4], i)
  {
    StrideLayout(width);
  }

  /** `save_raw10_to_tiff`'s unpacking: `height` rows of `width` pixels into one sample array. */
  method Unpack(data: seq<byte>, width: nat, height: nat) returns (out: seq<u16>)
    requires height * Stride(width) <= |data|
    ensures |out| == width * height
    ensures out == Unpacked(data, width, height)
  {
    out := [];
    var row := 0;
    while row < height
      invariant row <= height
      invariant out == Unpacked(data, width, row)
    {
      MulMonotone(row + 1, height, Stride(width));
      var dst := UnpackRow(PackedRow(data, width, row), width);
      out := out + dst;
      row := row + 1;
    }
  }

  // ---------------------------------------------------------------------------
  // Properties
  // ---------------------------------------------------------------------------

  /** The stride is the number of bytes 10 bits per pixel need, rounded up. */
  lemma StrideIsCeiling(width: nat)
    ensures Stride(width) * 8 >= width * 10
    ensures Stride(width) * 8 < width * 10 + 8
  {
  }

  /**
    Pixel (r, c) of the output is the pixel of column c decoded from packed row r
    alone: rows are laid out one after another and no row reads another's bytes.
   */
  lemma {:induction false} PixelOfRow(data: seq<byte>, width: nat, height: nat, r: nat, c: nat)
    requires height * Stride(width) <= |data|
    requires r < height && c < width
    ensures (r + 1) * Stride(width) <= |data|
    ensures r * width + c < |Unpacked(data, width, height)|
    ensures Unpacked(data, width, height)[r * width + c] == RowPixel(PackedRow(data, width, r), width, c)
    decreases height
  {
    MulMonotone(r + 1, height, Stride(width));
    MulMonotone(r + 1, height, width);
    MulMonotone(height - 1, height, Stride(width));
    var prev := Unpacked(data, width, height - 1);
    assert |prev| == (height - 1) * width;
    if r < height - 1 {
      MulMonotone(r + 1, height - 1, width);
      PixelOfRow(data, width, height - 1, r, c);
    } else {
      assert r * width == |prev|;
    }
  }

  /** Rows are independent: two packed images that agree on row r unpack to the same row r. */
  lemma RowDependsOnlyOnItsBytes(d1: seq<byte>, d2: seq<byte>, width: nat, height: nat, r: nat, c: nat)
    requires height * Stride(width) <= |d1| && height * Stride(width) <= |d2|
    requires r < height && c < width
    requires (r + 1) * Stride(width) <= |d1| && (r + 1) * Stride(width) <= |d2|
    requires PackedRow(d1, width, r) == PackedRow(d2, width, r)
    ensures r * width + c < width * height
    ensures Unpacked(d1, width, height)[r * width + c] == Unpacked(d2, width, height)[r * width + c]
  {
    PixelOfRow(d1, width, height, r, c);
    PixelOfRow(d2, width, height, r, c);
  }

  /** Every unpacked sample is a 10-bit value. */
  lemma SamplesAreTenBit(data: seq<byte>, width: nat, height: nat)
    requires height * Stride(width) <= |data|
    ensures forall j :: 0 <= j < |Unpacked(data, width, height)| ==> Unpacked(data, width, height)[j] < 1024
  {
  }

  /**
    A full group decodes pixel k of the group at byte offset g as
    `(byte[g + k] << 2) | ((byte[g + 4] >> 2k) & 3)`.
   */
  lemma FullGroupPixel(src: seq<byte>, width: nat, c: nat)
    requires |src| == Stride(width) && c < GroupEnd(width)
    ensures 5 * (c / 4) + 4 < |src|
    ensures RowPixel(src, width, c) == src[5 * (c / 4) + c % 4] * 4 + LowBits(src[5 * (c / 4) + 4], c % 4)
  {
    StrideLayout(width);
  }

  /**
    The remainder pixels: only rem + 1 bytes are copied, so the low-bits byte of
    the scratch array stays zero and each remainder pixel is its high byte
    shifted left by two, with both low bits clear.
   */
  lemma RemainderPixel(src: seq<byte>, width: nat, c: nat)
    requires |src| == Stride(width) && GroupEnd(width) <= c < width
    ensures CopyCount(width % 4) == width % 4 + 1
    ensures 5 * (width / 4) + (c - GroupEnd(width)) < |src|
    ensures RowPixel(src, width, c) == src[5 * (width / 4) + (c - GroupEnd(width))] as int * 4
    ensures RowPixel(src, width, c) % 4 == 0
  {
    StrideLayout(width);
  }

  /** The RAW10 layout of four 10-bit pixels: high bytes first, then the shared low-bits byte. */
  function PackGroup(v: seq<nat>): (g: seq<byte>)
    requires |v| == 4 && forall k :: 0 <= k < 4 ==> v[k] < 1024
    ensures |g| == 5
  {
    [v[0] / 4, v[1] / 4, v[2] / 4, v[3] / 4, v[0] % 4 + 4 * (v[1] % 4) + 16 * (v[2] % 4) + 64 * (v[3] % 4)]
  }

  /** Splitting off the lowest two-bit field of a base-4 number. */
  lemma SplitLowField(a: nat, rest: nat)
    requires a < 4
    ensures (a + 4 * rest) / 4 == rest && (a + 4 * rest) % 4 == a
  {
  }

  /** The two-bit fields of the low-bits byte of a packed group are the four pixels' low bits. */
  lemma LowBitsOfPackedByte(a: nat, b: nat, c: nat, d: nat)
    requires a < 4 && b < 4 && c < 4 && d < 4
    ensures a + 4 * b + 16 * c + 64 * d < 256
    ensures LowBits(a + 4 * b + 16 * c + 64 * d, 0) == a
    ensures LowBits(a + 4 * b + 16 * c + 64 * d, 1) == b
    ensures LowBits(a + 4 * b + 16 * c + 64 * d, 2) == c
    ensures LowBits(a + 4 * b + 16 * c + 64 * d, 3) == d
  {
    var x := a + 4 * b + 16 * c + 64 * d;
    SplitLowField(a, b + 4 * c + 16 * d);
    SplitLowField(b, c + 4 * d);
    SplitLowField(c, d);
    assert x / 16 == (x / 4) / 4;
    assert x / 64 == ((x / 4) / 4) / 4;
  }

  /** Unpacking a packed group returns the four original 10-bit pixels. */
  lemma UnpackPackGroup(v: seq<nat>)
    requires |v| == 4 && forall k :: 0 <= k < 4 ==> v[k] < 1024
    ensures UnpackGroup(PackGroup(v)) == v
  {
    var g := PackGroup(v);
    LowBitsOfPackedByte(v[0] % 4, v[1] % 4, v[2] % 4, v[3] % 4);
    var u := UnpackGroup(g);
    forall k | 0 <= k < 4
      ensures u[k] == v[k]
    {
      assert LowBits(g[4], k) == v[k] % 4;
    }
  }

  /** A byte is the sum of its four two-bit fields. */
  lemma ByteFromFields(x: byte)
    ensures x == LowBits(x, 0) + 4 * LowBits(x, 1) + 16 * LowBits(x, 2) + 64 * LowBits(x, 3)
  {
    var q1 := x / 4;
    var q2 := q1 / 4;
    assert x == x % 4 + 4 * q1;
    assert q1 == q1 % 4 + 4 * q2;
    assert q2 == q2 % 4 + 4 * (q2 / 4);
    assert q2 / 4 < 4;
    assert x / 16 == q2 && x / 64 == q2 / 4;
  }

  /** Packing an unpacked group gives back the five bytes: the decoder loses no bit. */
  lemma PackUnpackGroup(g: seq<byte>)
    requires |g| == 5
    ensures PackGroup(UnpackGroup(g)) == g
  {
    var u := UnpackGroup(g);
    var p := PackGroup(u);
    ByteFromFields(g[4]);
    forall k | 0 <= k < 4
      ensures p[k] == g[k] && u[k] % 4 == LowBits(g[4], k)
    {
      assert u[k] == Sample(g[k], g[4], k);
    }
    assert p[4] == g[4];
  }
}
