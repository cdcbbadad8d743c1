/** Line strides and buffer sizes of uncompressed images, in the 32-bit arithmetic of
  ax_buffer_tool.h. A format is the value of its AX_IMG_FORMAT_E constant. */
module ImageBuffer {

  type Format = nat

  /** n modulo 2^32. */
  function U32(n: nat): (r: nat)
    ensures n < 0x1_0000_0000 ==> r == n
  {
    if n < 0x1_0000_0000 then n else U32(n - 0x1_0000_0000)
  }

  lemma {:induction false} U32Is(n: nat)
    ensures U32(n) == n % 0x1_0000_0000
  {
    if n >= 0x1_0000_0000 {
      U32Is(n - 0x1_0000_0000);
    }
  }

  predicate IsRaw(f: Format) { 0x80 <= f <= 0x87 }

  predicate IsYuv(f: Format) {
    f <= 4 || 8 <= f <= 0x10 || 0x14 <= f <= 0x18 || f == 0x20 || f in {0x24, 0x25, 0x28, 0x2A, 0x2C, 0x2E, 0x2F}
    || f in {0x30, 0x32, 0x33, 0x34}
  }

  /** Bits per pixel, as the stride function has it. */
  function StrideBits(f: Format): nat {
    if f in {0x20, 0x24, 0x28, 0x32, 0x33, 0x85} then 10
    else if f == 0x86 then 12
    else if f == 0x87 then 14
    else if 0x81 <= f <= 0x84 || f in {0x25, 0x2A, 0x2C, 0x2E, 0x34, 0x30} then 16
    else 8
  }

  /** The formats whose pixels take more than one byte: packed and padded raw, then 10-bit
      formats packed into 10 and padded to 16 bits. */
  const DEEP: seq<(Format, nat)> :=
    [(0x81, 16), (0x82, 16), (0x83, 16), (0x84, 16), (0x85, 10), (0x86, 12), (0x87, 14),
     (0x20, 10), (0x24, 10), (0x28, 10), (0x32, 10), (0x33, 10),
     (0x25, 16), (0x2A, 16), (0x2C, 16), (0x2E, 16), (0x30, 16), (0x34, 16)]

  /** The depth of every format; the two size functions differ on one. */
  lemma Depths(f: Format)
    ensures forall k | 0 <= k < |DEEP| :: StrideBits(DEEP[k].0) == DEEP[k].1
    ensures (forall k | 0 <= k < |DEEP| :: DEEP[k].0 != f) ==> StrideBits(f) == 8
    ensures BufferBits(f) != StrideBits(f) <==> f == 0x33
  {
    if forall k | 0 <= k < |DEEP| :: DEEP[k].0 != f {
      assert DEEP[0].0 != f && DEEP[1].0 != f && DEEP[2].0 != f && DEEP[3].0 != f && DEEP[4].0 != f && DEEP[5].0 != f;
      assert DEEP[6].0 != f && DEEP[7].0 != f && DEEP[8].0 != f && DEEP[9].0 != f && DEEP[10].0 != f && DEEP[11].0 != f;
      assert DEEP[12].0 != f && DEEP[13].0 != f && DEEP[14].0 != f && DEEP[15].0 != f && DEEP[16].0 != f && DEEP[17].0 != f;
    }
  }

  /** Bits per pixel, as the buffer size function has it: it does not know the packed
      10-bit 4:2:2 format. */
  function BufferBits(f: Format): nat {
    if f == 0x33 then 8 else StrideBits(f)
  }

  /** Half lines of bytes that the buffer size function counts per line of the image. */
  function HalfLines(f: Format): nat {
    if IsRaw(f) || f == 0 || f == 0x20 then 2
    else if 8 <= f <= 0xF then 4
    else if 0x14 <= f <= 0x18 || f == 0x30 || f == 0x32 then 6
    else 3
  }

  /** Half lines that an image of the format has, by its chroma sampling. */
  function NeededHalfLines(f: Format): nat {
    if IsRaw(f) || f == 0 || f == 0x20 then 2
    else if 8 <= f <= 0x10 || f == 0x33 || f == 0x34 then 4
    else if 0x14 <= f <= 0x18 || f == 0x30 || f == 0x32 then 6
    else 3
  }

  /** The product k * a, see TimesIs. */
  function Times(k: nat, a: nat): nat {
    if k == 0 then 0 else Times(k - 1, a) + a
  }

  /** The width in units of 16 bytes, rounded up. */
  function Beats(lineBits: nat): nat {
    if U32(lineBits) % 128 != 0 then U32(lineBits) / 128 + 1 else U32(lineBits) / 128
  }

  /** n / a * a, see RoundDownIs. */
  function RoundDown(n: nat, a: nat): (r: nat)
    requires a > 0
    ensures r <= n < r + a
  {
    if n < a then 0 else a + RoundDown(n - a, a)
  }

  function RoundUp(n: nat, a: nat): nat
    requires a > 0
  {
    U32(RoundDown(U32(n + a - 1), a))
  }

  function Alignment(a: nat): (r: nat)
    ensures r > 0
  {
    if a == 0 then 128 else a
  }

  function StrideOf(lineBits: nat, align: nat): nat {
    RoundUp(U32(Beats(lineBits) * 16), Alignment(align))
  }

  /** AX_VIN_GetImgStrideByte */
  function GetImgStrideByte(pixels: nat, f: Format, align: nat): nat {
    StrideOf(Times(StrideBits(f), pixels), align)
  }

  function SizeOf(lines: nat, halfLines: nat): nat {
    if halfLines == 2 then lines
    else if halfLines == 4 then U32(lines * 2)
    else if halfLines == 6 then U32(lines * 3)
    else U32(lines * 3) / 2
  }

  function LinesTimes(beats: nat, height: nat, halfLines: nat): nat {
    SizeOf(U32(Times(beats * 16, height)), halfLines)
  }

  /** AX_VIN_GetImgBufferSize without compression. */
  function GetImgBufferSize(height: nat, pixels: nat, f: Format, align: nat): nat {
    LinesTimes(StrideOf(Times(BufferBits(f), pixels), align) / 16, height, HalfLines(f))
  }

  // --------------------------------------------------------------- the stride

  /** s is a multiple of the alignment and holds the line. */
  ghost predicate Holds(s: nat, lineBits: nat, a: nat) {
    Multiple(s, a) && lineBits <= 8 * s
  }

  /** No 32-bit operation on the way wraps. */
  predicate NoWrap(lineBits: nat, align: nat) {
    lineBits < 0x1_0000_0000 && Beats(lineBits) * 16 + Alignment(align) - 1 < 0x1_0000_0000
  }

  /** A multiple is given by its factor. */
  ghost predicate Multiple(m: nat, a: nat) {
    exists k: nat :: Times(k, a) == m
  }

  lemma {:induction false} TimesIs(k: nat, a: nat)
    ensures Times(k, a) == k * a
  {
    if k > 0 {
      TimesIs(k - 1, a);
      assert k * a == (k - 1) * a + a;
    }
  }

  lemma DivBounds(n: nat, a: nat)
    requires a > 0
    ensures n / a * a <= n < n / a * a + a && 0 <= n / a
  {
  }

  /** The division and multiplication of the macro, in one step. */
  lemma RoundDownIs(n: nat, a: nat)
    requires a > 0
    ensures RoundDown(n, a) == n / a * a
  {
    DivBounds(n, a);
    var q := n / a;
    var k := RoundDownMultiple(n, a);
    TimesIs(q, a);
    if Times(k, a) < Times(q, a) {
      TimesApart(k, q, a);
    } else if Times(q, a) < Times(k, a) {
      TimesApart(q, k, a);
    }
  }

  lemma {:induction false} RoundDownMultiple(n: nat, a: nat) returns (k: nat)
    requires a > 0
    ensures Times(k, a) == RoundDown(n, a)
    decreases n
  {
    if n < a {
      k := 0;
    } else {
      k := RoundDownMultiple(n - a, a);
      k := k + 1;
    }
  }

  lemma {:induction false} TimesApart(k: nat, q: nat, a: nat)
    requires Times(k, a) < Times(q, a)
    ensures Times(k, a) + a <= Times(q, a)
    decreases q
  {
    if k >= q {
      TimesMonotone(q, k, a);
      assert false;
    }
    TimesMonotone(k + 1, q, a);
  }

  lemma {:induction false} TimesMonotone(k: nat, q: nat, a: nat)
    requires k <= q
    ensures Times(k, a) <= Times(q, a)
    decreases q
  {
    if k < q {
      TimesMonotone(k, q - 1, a);
    }
  }

  lemma RoundUpIsLeast(n: nat, a: nat, m: nat)
    requires a > 0 && n + a - 1 < 0x1_0000_0000
    ensures Multiple(RoundUp(n, a), a) && n <= RoundUp(n, a) < n + a
    ensures n <= m && Multiple(m, a) ==> RoundUp(n, a) <= m
  {
    var q := RoundDownMultiple(n + a - 1, a);
    var r := RoundDown(n + a - 1, a);
    assert Times(q, a) == r;
    if n <= m && Multiple(m, a) && m < r {
      var k: nat :| Times(k, a) == m;
      TimesApart(k, q, a);
    }
  }

  /** The beats are the least number of 16-byte units that hold the line. */
  lemma BeatsHold(lineBits: nat)
    requires lineBits < 0x1_0000_0000
    ensures lineBits <= Beats(lineBits) * 128 < lineBits + 128
  {
  }

  lemma BeatsIn(lineBits: nat, s: nat)
    requires lineBits < 0x1_0000_0000 && lineBits <= 8 * s && s % 16 == 0
    ensures Beats(lineBits) * 16 <= s
  {
    BeatsHold(lineBits);
  }

  /** The alignments for which the two stages of rounding are one: the multiples of 16 (0
      means 128), and those that no 32-bit line is longer than. */
  predicate Exact(align: nat) {
    align % 16 == 0 || align >= 0x2000_0000
  }

  /** For them, rounding first to 16 bytes and then to the alignment gives the least aligned
      stride that holds the line. */
  lemma StrideIsLeast(lineBits: nat, align: nat, s: nat)
    requires NoWrap(lineBits, align) && Exact(align)
    ensures Holds(StrideOf(lineBits, align), lineBits, Alignment(align))
    ensures Holds(s, lineBits, Alignment(align)) ==> StrideOf(lineBits, align) <= s
  {
    BeatsHold(lineBits);
    RoundUpIsLeast(Beats(lineBits) * 16, Alignment(align), s);
    if Holds(s, lineBits, Alignment(align)) {
      if align % 16 == 0 {
        MultipleOfSixteen(s, Alignment(align));
        BeatsIn(lineBits, s);
      } else {
        LongerThanLines(lineBits, align, s);
      }
    }
  }

  lemma LongerThanLines(lineBits: nat, align: nat, s: nat)
    requires lineBits < 0x1_0000_0000 && align >= 0x2000_0000 && Holds(s, lineBits, align)
    ensures Beats(lineBits) * 16 <= s
  {
    BeatsHold(lineBits);
    var k: nat :| Times(k, align) == s;
    if k > 0 {
      TimesMonotone(1, k, align);
      assert Times(1, align) == align;
    }
  }

  lemma {:induction false} SixteenDivides(k: nat, a: nat)
    requires a % 16 == 0
    ensures Times(k, a) % 16 == 0
  {
    if k > 0 {
      SixteenDivides(k - 1, a);
    }
  }

  lemma MultipleOfSixteen(s: nat, a: nat)
    requires a % 16 == 0 && Multiple(s, a)
    ensures s % 16 == 0
  {
    var k: nat :| Times(k, a) == s;
    SixteenDivides(k, a);
  }

  /** For any other alignment it does not: a line of exactly that many bytes gets a longer
      stride than it needs. */
  lemma OtherAlignmentsWaste(align: nat)
    requires !Exact(align)
    ensures NoWrap(8 * align, align) && Holds(align, 8 * align, align)
    ensures StrideOf(8 * align, align) > align
  {
    BeatsWaste(align);
    RoundUpIsLeast(Beats(8 * align) * 16, align, 0);
    assert Times(0, align) == 0 && Times(1, align) == align;
  }

  lemma BeatsWaste(bytes: nat)
    requires bytes % 16 != 0 && 8 * bytes < 0x1_0000_0000
    ensures bytes < Beats(8 * bytes) * 16 < bytes + 16
  {
    BeatsHold(8 * bytes);
  }

  /** So the rounding is exact for every line, short of 32-bit overflow, if and only if the
      alignment is one of those. */
  lemma LeastStrideIff(align: nat)
    ensures (forall lineBits, s | NoWrap(lineBits, align) && Holds(s, lineBits, Alignment(align)) ::
               StrideOf(lineBits, align) <= s)
            <==> Exact(align)
  {
    if Exact(align) {
      forall lineBits, s | NoWrap(lineBits, align) && Holds(s, lineBits, Alignment(align))
        ensures StrideOf(lineBits, align) <= s
      {
        StrideIsLeast(lineBits, align, s);
      }
    } else {
      OtherAlignmentsWaste(align);
    }
  }

  // --------------------------------------------------------------- the buffer

  /** The lines fit 32 bits, with the factor the format multiplies them by. */
  predicate SizeFits(area: nat, f: Format) {
    (if HalfLines(f) == 2 then area else if HalfLines(f) == 4 then 2 * area else 3 * area) < 0x1_0000_0000
  }

  /** The bytes per line that the buffer size function counts: whole units of 16. */
  function WholeUnits(stride: nat): nat {
    stride / 16 * 16
  }

  /** What the buffer size function computes, without its detour through beats. */
  lemma BufferIsLines(height: nat, pixels: nat, f: Format, align: nat)
    requires SizeFits(Times(StrideOf(Times(BufferBits(f), pixels), align), height), f)
    ensures var s := StrideOf(Times(BufferBits(f), pixels), align);
      && Times(WholeUnits(s), height) <= Times(s, height)
      && GetImgBufferSize(height, pixels, f, align) == Times(WholeUnits(s), height) * HalfLines(f) / 2
  {
    var s := StrideOf(Times(BufferBits(f), pixels), align);
    TimesMonotone(WholeUnits(s), s, height);
    SizeIsHalves(Times(WholeUnits(s), height), f);
  }

  lemma SizeIsHalves(area: nat, f: Format)
    requires SizeFits(area, f)
    ensures SizeOf(U32(area), HalfLines(f)) == area * HalfLines(f) / 2
  {
  }

  lemma WholeUnitsLose(s: nat, height: nat)
    requires height > 0
    ensures Times(WholeUnits(s), height) == Times(s, height) <==> s % 16 == 0
  {
    if s % 16 != 0 {
      TimesMonotone(WholeUnits(s) + 1, s, height);
    }
  }

  /** For raw and luminance-only formats, and whatever the alignment, the buffer is exactly one
      stride per line if and only if the stride is a multiple of 16. */
  lemma RawBuffer(height: nat, pixels: nat, f: Format, align: nat)
    requires (IsRaw(f) || f == 0 || f == 0x20) && height > 0
    requires Times(GetImgStrideByte(pixels, f, align), height) < 0x1_0000_0000
    ensures GetImgBufferSize(height, pixels, f, align) == Times(GetImgStrideByte(pixels, f, align), height)
      <==> GetImgStrideByte(pixels, f, align) % 16 == 0
  {
    BufferIsLines(height, pixels, f, align);
    WholeUnitsLose(GetImgStrideByte(pixels, f, align), height);
  }

  /** It always is for the alignments that are multiples of 16. */
  lemma AlignedStrideIsWhole(lineBits: nat, align: nat)
    requires NoWrap(lineBits, align) && align % 16 == 0
    ensures StrideOf(lineBits, align) % 16 == 0
  {
    StrideIsLeast(lineBits, align, 0);
    MultipleOfSixteen(StrideOf(lineBits, align), Alignment(align));
  }

  /** 16 bytes aligned to 24. */
  lemma NarrowStride(lineBits: nat, align: nat)
    requires lineBits == 128 && align == 24
    ensures StrideOf(lineBits, align) == 24
  {
    assert Beats(lineBits) == 1;
    assert RoundDown(15, align) == 0;
    assert RoundDown(39, align) == 24;
  }

  /** One line of a raw format, by its stride. */
  lemma OneRawLine(pixels: nat, align: nat, s: nat)
    requires s == StrideOf(Times(8, pixels), align) < 0x1_0000_0000
    ensures GetImgStrideByte(pixels, 0x80, align) == s && GetImgBufferSize(1, pixels, 0x80, align) == WholeUnits(s)
  {
    OneLine(s);
    OneLine(WholeUnits(s));
    BufferIsLines(1, pixels, 0x80, align);
  }

  /** A line for which it is not: 16 pixels of 8 bits, aligned to 24 bytes. */
  lemma BufferBelowStride(pixels: nat, align: nat)
    requires pixels == 16 && align == 24
    ensures GetImgStrideByte(pixels, 0x80, align) == 24 && GetImgBufferSize(1, pixels, 0x80, align) == 16
  {
    TimesIs(8, pixels);
    NarrowStride(8 * pixels, align);
    OneRawLine(pixels, align, 24);
  }

  lemma {:induction false} OneLine(s: nat)
    ensures Times(s, 1) == s
  {
    TimesIs(s, 1);
  }

  lemma {:induction false} TimesPositive(k: nat, a: nat)
    requires k > 0 && a > 0
    ensures Times(k, a) > 0
  {
  }

  lemma BeatsGrow(low: nat, high: nat)
    requires low <= high < 0x1_0000_0000
    ensures Beats(low) <= Beats(high)
  {
    BeatsHold(low);
    BeatsHold(high);
  }

  lemma {:induction false} RoundDownGrows(low: nat, high: nat, a: nat)
    requires a > 0 && low <= high
    ensures RoundDown(low, a) <= RoundDown(high, a)
    decreases low
  {
    if low >= a {
      RoundDownGrows(low - a, high - a, a);
    }
  }

  lemma StrideGrows(low: nat, high: nat, align: nat)
    requires low <= high && NoWrap(high, align)
    ensures NoWrap(low, align) && StrideOf(low, align) <= StrideOf(high, align)
    ensures low > 0 ==> StrideOf(low, align) > 0
  {
    var a := Alignment(align);
    BeatsGrow(low, high);
    RoundDownGrows(Beats(low) * 16 + a - 1, Beats(high) * 16 + a - 1, a);
    BeatsHold(low);
    RoundUpIsLeast(Beats(low) * 16, a, 0);
    RoundUpIsLeast(Beats(high) * 16, a, 0);
  }

  /** The buffer is never larger than an image of the given stride, and just as large exactly for
      the formats the size function knows and the strides that are multiples of 16: it is too small for
      YUV422_INTERLEAVED_YVYU and for both 10-bit 4:2:2 semiplanar formats, and for any other
      stride, whatever the size of the image. */
  lemma BufferHoldsImageIff(height: nat, pixels: nat, f: Format, align: nat)
    requires (IsRaw(f) || IsYuv(f)) && height > 0 && pixels > 0
    requires NoWrap(Times(StrideBits(f), pixels), align)
    requires SizeFits(Times(GetImgStrideByte(pixels, f, align), height), f)
    ensures var size, image := GetImgBufferSize(height, pixels, f, align),
                               Times(GetImgStrideByte(pixels, f, align), height) * NeededHalfLines(f) / 2;
      && size <= image
      && (size == image <==> f !in {0x10, 0x33, 0x34} && GetImgStrideByte(pixels, f, align) % 16 == 0)
  {
    var low, high := Times(BufferBits(f), pixels), Times(StrideBits(f), pixels);
    TimesMonotone(BufferBits(f), StrideBits(f), pixels);
    TimesPositive(BufferBits(f), pixels);
    StrideGrows(low, high, align);
    var have, need := StrideOf(low, align), StrideOf(high, align);
    TimesMonotone(have, need, height);
    TimesPositive(need, height);
    BufferIsLines(height, pixels, f, align);
    WholeUnitsLose(need, height);
    HalvesCompare(Times(WholeUnits(have), height), Times(need, height), f);
  }

  lemma HalvesCompare(lines: nat, area: nat, f: Format)
    requires (IsRaw(f) || IsYuv(f)) && 0 < area && lines <= area
    ensures lines * HalfLines(f) / 2 <= area * NeededHalfLines(f) / 2
    ensures area * NeededHalfLines(f) / 2 <= lines * HalfLines(f) / 2
       <==> lines == area && f !in {0x10, 0x33, 0x34}
  {
  }

  // ------------------------------------------------- the operators themselves

  /** The stride, written with the operators of the source: every product and sum is taken
      modulo 2^32, and division truncates. */
  lemma StrideAsWritten(pixels: nat, f: Format, align: nat)
    ensures var bits := pixels * StrideBits(f) % 0x1_0000_0000;
      var beats := if bits % 128 != 0 then bits / 128 + 1 else bits / 128;
      var a := if align == 0 then 128 else align;
      var sum := (beats * 16 % 0x1_0000_0000 + a - 1) % 0x1_0000_0000;
      GetImgStrideByte(pixels, f, align) == sum / a * a % 0x1_0000_0000
  {
    TimesIs(StrideBits(f), pixels);
    U32Is(pixels * StrideBits(f));
    var beats := Beats(pixels * StrideBits(f));
    var a := Alignment(align);
    U32Is(beats * 16);
    U32Is(U32(beats * 16) + a - 1);
    RoundDownIs(U32(U32(beats * 16) + a - 1), a);
    U32Is(RoundDown(U32(U32(beats * 16) + a - 1), a));
  }
}
