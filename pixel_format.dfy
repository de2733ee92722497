/** Lookup tables for the two packed 4:2:2 YUV pixel formats the capture
    pipeline produces ('2vuy' and 'YVYU'): bytes per pixel, the 64-bit
    pattern that paints four black pixels, and the OpenGL format and type
    used to upload such a buffer for display.

    Any other pixel format reaches an assertion failure in every lookup, so
    each lookup here requires a supported format. The byte order of the host
    is a parameter, both where the black pattern is put into big-endian
    order and where the OpenGL type is chosen. */
module PixelFormat {

  type Byte = x: int | 0 <= x < 256

  /** An unsigned 64-bit integer. */
  type UInt64 = x: int | 0 <= x < 0x1_0000_0000_0000_0000

  /** An OSType pixel-format code. `OtherFormat` stands for every code other
      than the two packed 4:2:2 formats. */
  datatype PixelFormat = TwoVuy | Yvyu422 | OtherFormat(code: int)

  predicate IsSupported(t: PixelFormat)
  {
    t.TwoVuy? || t.Yvyu422?
  }

  datatype Endianness = LittleEndian | BigEndian
  {
    function Flip(): Endianness
    {
      if this == LittleEndian then BigEndian else LittleEndian
    }
  }

  /** The OpenGL constants the lookups return. */
  datatype GLEnum = YCbCr422Apple | UnsignedShort88Apple | UnsignedShort88RevApple

  // ---------------------------------------------------------------------
  // Bytes of a 64-bit value in memory
  // ---------------------------------------------------------------------

  function Pow256(n: nat): (p: nat)
    ensures p > 0
  {
    if n == 0 then 1 else 256 * Pow256(n - 1)
  }

  /** The lowest `n` base-256 digits of `v`, least significant first. */
  function Digits(v: nat, n: nat): (bs: seq<Byte>)
    ensures |bs| == n
  {
    if n == 0 then [] else [v % 256] + Digits(v / 256, n - 1)
  }

  /** The number whose base-256 digits, least significant first, are `bs`. */
  function FromDigits(bs: seq<Byte>): (v: nat)
    ensures v < Pow256(|bs|)
  {
    if bs == [] then 0 else bs[0] + 256 * FromDigits(bs[1..])
  }

  lemma {:induction false} DigitsOfFromDigits(bs: seq<Byte>)
    ensures Digits(FromDigits(bs), |bs|) == bs
  {
    if bs != [] {
      var rest := FromDigits(bs[1..]);
      assert (bs[0] + 256 * rest) % 256 == bs[0];
      assert (bs[0] + 256 * rest) / 256 == rest;
      DigitsOfFromDigits(bs[1..]);
    }
  }

  function Reverse<T>(s: seq<T>): (r: seq<T>)
    ensures |r| == |s|
    ensures forall i :: 0 <= i < |s| ==> r[i] == s[|s| - 1 - i]
  {
    if s == [] then [] else Reverse(s[1..]) + [s[0]]
  }

  /** The bytes of `v` from the least significant on. */
  function LittleEndianBytes(v: UInt64): (bs: seq<Byte>)
    ensures |bs| == 8
  {
    Digits(v, 8)
  }

  /** The bytes of `v` from the most significant on. */
  function BigEndianBytes(v: UInt64): (bs: seq<Byte>)
    ensures |bs| == 8
  {
    Reverse(LittleEndianBytes(v))
  }

  /** The eight bytes, at increasing addresses, of a 64-bit integer stored
      on a host of the given byte order. */
  function MemoryBytes(v: UInt64, host: Endianness): (bs: seq<Byte>)
    ensures |bs| == 8
  {
    if host == LittleEndian then LittleEndianBytes(v) else BigEndianBytes(v)
  }

  /** CFSwapInt64HostToBig: the host integer whose bytes in memory are the
      big-endian bytes of `v`. On a big-endian host that is `v` itself. */
  function SwapInt64HostToBig(v: UInt64, host: Endianness): (w: UInt64)
    ensures MemoryBytes(w, host) == BigEndianBytes(v)
  {
    if host == BigEndian then v
    else
      var bs := BigEndianBytes(v);
      DigitsOfFromDigits(bs);
      FromDigits(bs)
  }

  // ---------------------------------------------------------------------
  // The lookups
  // ---------------------------------------------------------------------

  /** ECVPixelFormatBytesPerPixel: both formats pack two bytes per pixel. */
  function BytesPerPixel(t: PixelFormat): (n: nat)
    requires IsSupported(t)
    ensures n == 2
  {
    match t
    case TwoVuy => 2
    case Yvyu422 => 2
  }

  /** Four black pixels of each format, as bytes at increasing addresses:
      luma 0x10, chroma 0x80, in the order the format interleaves them. */
  function BlackPixels(t: PixelFormat): seq<Byte>
    requires IsSupported(t)
  {
    match t
    case TwoVuy => [0x80, 0x10, 0x80, 0x10, 0x80, 0x10, 0x80, 0x10]
    case Yvyu422 => [0x10, 0x80, 0x10, 0x80, 0x10, 0x80, 0x10, 0x80]
  }

  /** ECVPixelFormatBlackPattern: a 64-bit integer that, stored to memory on
      this host, writes four black pixels of format `t`. */
  function BlackPattern(t: PixelFormat, host: Endianness): (w: UInt64)
    requires IsSupported(t)
    ensures MemoryBytes(w, host) == BlackPixels(t)
  {
    match t
    case TwoVuy =>
      BigEndianBlack2vuy();
      SwapInt64HostToBig(Black2vuyWord, host)
    case Yvyu422 =>
      BigEndianBlackYvyu();
      SwapInt64HostToBig(BlackYvyuWord, host)
  }

  /** Reversing the two bytes of every pair of an alternating pattern. */
  lemma ReverseAlternating(x: Byte, y: Byte)
    ensures Reverse([x, y, x, y, x, y, x, y]) == [y, x, y, x, y, x, y, x]
  {
    var r := Reverse([x, y, x, y, x, y, x, y]);
    assert forall i :: 0 <= i < 8 ==> r[i] == [y, x, y, x, y, x, y, x][i];
  }

  /** The bytes of an alternating pattern, least significant first, are
      those of the number they spell. */
  lemma AlternatingBytes(v: UInt64, x: Byte, y: Byte)
    requires v == FromDigits([x, y, x, y, x, y, x, y])
    ensures BigEndianBytes(v) == [y, x, y, x, y, x, y, x]
  {
    DigitsOfFromDigits([x, y, x, y, x, y, x, y]);
    ReverseAlternating(x, y);
  }

  /** The constants `ECVPixelFormatBlackPattern` swaps, most significant byte first. */
  const Black2vuyWord: UInt64 := 0x8010801080108010
  const BlackYvyuWord: UInt64 := 0x1080108010801080

  lemma BigEndianBlack2vuy()
    ensures BigEndianBytes(Black2vuyWord) == BlackPixels(TwoVuy)
  {
    assert FromDigits([0x10, 0x80, 0x10, 0x80, 0x10, 0x80, 0x10, 0x80]) == 0x8010801080108010;
    AlternatingBytes(0x8010801080108010, 0x10, 0x80);
  }

  lemma BigEndianBlackYvyu()
    ensures BigEndianBytes(BlackYvyuWord) == BlackPixels(Yvyu422)
  {
    assert FromDigits([0x80, 0x10, 0x80, 0x10, 0x80, 0x10, 0x80, 0x10]) == 0x1080108010801080;
    AlternatingBytes(0x1080108010801080, 0x80, 0x10);
  }

  /** ECVPixelFormatToGLFormat: both formats upload as Apple's YCbCr 4:2:2. */
  function GLFormat(t: PixelFormat): (f: GLEnum)
    requires IsSupported(t)
    ensures f == YCbCr422Apple
  {
    match t
    case TwoVuy => YCbCr422Apple
    case Yvyu422 => YCbCr422Apple
  }

  /** ECVPixelFormatToGLType: which of the two 16-bit packings describes the
      format depends on the host's byte order. */
  function GLType(t: PixelFormat, host: Endianness): (ty: GLEnum)
    requires IsSupported(t)
    ensures ty == UnsignedShort88Apple || ty == UnsignedShort88RevApple
  {
    match (t, host)
    case (TwoVuy, LittleEndian) => UnsignedShort88Apple
    case (Yvyu422, LittleEndian) => UnsignedShort88RevApple
    case (TwoVuy, BigEndian) => UnsignedShort88RevApple
    case (Yvyu422, BigEndian) => UnsignedShort88Apple
  }

  // ---------------------------------------------------------------------
  // Relations between the two formats
  // ---------------------------------------------------------------------

  /** Swap the two bytes of every 16-bit pair. */
  function SwapBytePairs(bs: seq<Byte>): (r: seq<Byte>)
    requires |bs| % 2 == 0
    ensures |r| == |bs|
    ensures forall i :: 0 <= i < |bs| ==> r[i] == bs[if i % 2 == 0 then i + 1 else i - 1]
  {
    if bs == [] then [] else [bs[1], bs[0]] + SwapBytePairs(bs[2..])
  }

  /** The YVYU black pixels are the 2vuy black pixels with the two bytes
      of every 16-bit pair swapped. By `BlackPattern`'s contract these are
      the bytes either pattern writes to memory on any host. */
  lemma BlackPixelsArePairSwapped()
    ensures BlackPixels(Yvyu422) == SwapBytePairs(BlackPixels(TwoVuy))
  {
    var swapped := SwapBytePairs(BlackPixels(TwoVuy));
    assert forall i :: 0 <= i < 8 ==> swapped[i] == BlackPixels(Yvyu422)[i];
  }

  /** Each black pattern is exactly four pixels long and repeats with a
      period of one pixel. */
  lemma BlackPixelsAreFourPixels(t: PixelFormat)
    requires IsSupported(t)
    ensures var bs, n := BlackPixels(t), BytesPerPixel(t);
      |bs| == 4 * n && forall i :: 0 <= i < |bs| - n ==> bs[i] == bs[i + n]
  {
  }

  /** For a fixed byte order the two formats get different OpenGL types. */
  lemma GLTypesDiffer(host: Endianness)
    ensures GLType(TwoVuy, host) != GLType(Yvyu422, host)
  {
  }

  /** Flipping the host's byte order swaps the two formats' OpenGL types. */
  lemma GLTypeFlipsWithEndianness(t: PixelFormat, host: Endianness)
    requires IsSupported(t)
    ensures GLType(t, host.Flip()) == GLType(if t.TwoVuy? then Yvyu422 else TwoVuy, host)
  {
  }
}
