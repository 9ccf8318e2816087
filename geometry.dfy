/*
 * The arithmetic around the framebuffer: the pixel formats and their
 * channel layout, ALIGN and the stride, the overscan margins, the display
 * split helpers and the colour expansion of gr_color.
 *
 * Screen sizes are the kernel's 32-bit unsigned fields; they are nats
 * below 2^32 here, and the one sum that can wrap, inside ALIGN, wraps
 * explicitly.
 */
module Geometry {
  import opened Bits

  const U32: nat := 0x1_0000_0000

  /** Displays wider than this are driven as two halves. */
  const MaxDisplayDim: nat := 2048

  // ---------------------------------------------------------------------
  // Pixel formats
  // ---------------------------------------------------------------------

  /** The pixel format chosen at build time: BGRA or RGBX when the board
      asks for it, RGB 565 otherwise. */
  datatype Format = Bgra8888 | Rgbx8888 | Rgb565

  function PixelSize(fmt: Format): (n: nat)
    ensures n == 2 || n == 4
  {
    if fmt == Rgb565 then 2 else 4
  }

  /** A colour channel: its lowest bit in the pixel and its width in bits. */
  datatype Bitfield = Bitfield(offset: nat, length: nat)

  datatype Channels = Channels(red: Bitfield, green: Bitfield, blue: Bitfield, transp: Bitfield)

  /** The channel layout get_framebuffer asks the driver for. The RGB 565
      order is defined exactly in the 565 build; the BGR 565 lines are
      compiled only into BGRA and RGBX builds, where the 565 branch is never
      taken. */
  function ChannelsOf(fmt: Format): Channels {
    match fmt
    case Bgra8888 => Channels(Bitfield(8, 8), Bitfield(16, 8), Bitfield(24, 8), Bitfield(0, 8))
    case Rgbx8888 => Channels(Bitfield(24, 8), Bitfield(16, 8), Bitfield(8, 8), Bitfield(0, 8))
    case Rgb565 => Channels(Bitfield(11, 5), Bitfield(5, 6), Bitfield(0, 5), Bitfield(0, 0))
  }

  predicate Within(b: Bitfield, bits: nat) { b.offset + b.length <= bits }

  predicate Apart(a: Bitfield, b: Bitfield) {
    a.length == 0 || b.length == 0 || a.offset + a.length <= b.offset || b.offset + b.length <= a.offset
  }

  /** In every format the channels lie inside the pixel, do not overlap and
      between them use every bit of it. */
  lemma ChannelsTile(fmt: Format)
    ensures var c := ChannelsOf(fmt); var bits := PixelSize(fmt) * 8;
      Within(c.red, bits) && Within(c.green, bits) && Within(c.blue, bits) && Within(c.transp, bits) &&
      Apart(c.red, c.green) && Apart(c.red, c.blue) && Apart(c.red, c.transp) &&
      Apart(c.green, c.blue) && Apart(c.green, c.transp) && Apart(c.blue, c.transp) &&
      c.red.length + c.green.length + c.blue.length + c.transp.length == bits
  {
  }

  // ---------------------------------------------------------------------
  // ALIGN and the stride
  // ---------------------------------------------------------------------

  /** ALIGN(x, 2^w) on a 32-bit unsigned x: x + 2^w - 1, wrapping at 2^32
      (the sum stays below 2^33, so one subtraction wraps it), with its low
      w bits cleared by the mask ~(2^w - 1). */
  function Align(x: nat, w: nat): (r: nat)
    requires x < U32 && w <= 31
    ensures r % Pow2(w) == 0 && r < U32
  {
    Pow2Mono(w, 32);
    Pow2Values();
    var sum := x + Pow2(w) - 1;
    var y := if sum < U32 then sum else sum - U32;
    TopMask(y, w);
    RoundDown(y, Pow2(w));
    And(y, U32 - Pow2(w))
  }

  /** Without wrap-around, ALIGN gives a multiple of 2^w that is not below
      x and less than 2^w above it. */
  lemma AlignMultiple(x: nat, w: nat)
    requires w <= 31 && x + Pow2(w) - 1 < U32
    ensures Align(x, w) % Pow2(w) == 0 && x <= Align(x, w) < x + Pow2(w)
  {
    AlignValue(x, w);
    RoundUp(x, Pow2(w));
  }

  /** ... and no multiple of 2^w that is not below x is below it: ALIGN
      gives the least such multiple. */
  lemma AlignLeast(x: nat, w: nat, m: nat)
    requires w <= 31 && x + Pow2(w) - 1 < U32
    requires m % Pow2(w) == 0 && x <= m
    ensures Align(x, w) <= m
  {
    AlignValue(x, w);
    RoundUpLeast(x, Pow2(w), m);
  }

  /** Rounding x + d - 1 down to a multiple of d gives a multiple of d in
      [x, x + d). */
  lemma RoundUp(x: nat, d: nat)
    requires d > 0
    ensures var r := (x + d - 1) - (x + d - 1) % d;
      r % d == 0 && x <= r < x + d
  {
    RoundDown(x + d - 1, d);
  }

  /** Rounding x + d - 1 down to a multiple of d stays at or below every
      multiple of d that is not below x. */
  lemma RoundUpLeast(x: nat, d: nat, m: nat)
    requires d > 0 && m % d == 0 && x <= m
    ensures (x + d - 1) - (x + d - 1) % d <= m
  {
    var a := x + d - 1;
    RoundDown(a, d);
    var r := a - a % d;
    if m < r {
      AlignGap(m, r, d);
    }
  }

  /** Without wrap-around, ALIGN clears the low bits of x + 2^w - 1. */
  lemma AlignValue(x: nat, w: nat)
    requires w <= 31 && x + Pow2(w) - 1 < U32
    ensures Align(x, w) == (x + Pow2(w) - 1) - (x + Pow2(w) - 1) % Pow2(w)
  {
    AlignNoWrap(x, w);
    TopMask(x + Pow2(w) - 1, w);
  }

  /** Without wrap-around, ALIGN masks x + 2^w - 1 itself. */
  lemma AlignNoWrap(x: nat, w: nat)
    requires w <= 31 && x + Pow2(w) - 1 < U32
    ensures Pow2(w) <= U32 && Align(x, w) == And(x + Pow2(w) - 1, U32 - Pow2(w))
  {
    Pow2Mono(w, 32);
    Pow2Values();
  }

  /** The 32-bit mask ~(2^w - 1) clears the w low bits. */
  lemma TopMask(a: nat, w: nat)
    requires w <= 31 && a < U32 && Pow2(w) <= U32
    ensures And(a, U32 - Pow2(w)) == a - a % Pow2(w)
  {
    Pow2Values();
    AndHigh(a, 32, w);
  }

  /** a less its remainder is the multiple of d just at or below a. */
  lemma RoundDown(a: nat, d: nat)
    requires d > 0
    ensures (a - a % d) % d == 0 && a - d < a - a % d <= a
  {
    DivModUnique(a - a % d, d, a / d, 0);
  }

  /** Two distinct multiples of d are at least d apart. */
  lemma AlignGap(m: nat, r: nat, d: nat)
    requires d > 0 && m % d == 0 && r % d == 0 && m < r
    ensures m + d <= r
  {
    var q, p := m / d, r / d;
    assert m == q * d && r == p * d;
    if p <= q {
      MulMono(p, q, d);
    }
    assert q < p;
    MulMono(q + 1, p, d);
  }

  /** Near the top of the 32-bit range the sum wraps and ALIGN gives 0. */
  lemma AlignWraps(x: nat)
    requires U32 - 31 <= x < U32
    ensures Align(x, 5) == 0
  {
    Pow2Values();
    assert Pow2(5) == 32;
    var a := x + 31;
    AndHigh(a - U32, 32, 5);
    DivModUnique(a - U32, 32, 0, a - U32);
  }

  /** The stride in pixels: the line length in bytes over the pixel size. */
  function Stride(lineLength: nat, fmt: Format): nat {
    lineLength / PixelSize(fmt)
  }

  /** The line length used with an overlay, ALIGN(xres, 32) pixels. */
  function OverlayLineLength(xres: nat, fmt: Format): nat
    requires xres < U32
  {
    Align(xres, 5) * PixelSize(fmt)
  }

  /** With an overlay the stride is the width rounded up to a multiple of 32
      pixels, and a line holds at least the visible width. */
  lemma OverlayStride(xres: nat, fmt: Format)
    requires xres + 31 < U32
    ensures var s := Stride(OverlayLineLength(xres, fmt), fmt);
      s % 32 == 0 && xres <= s < xres + 32
  {
    Pow2Values();
    assert Pow2(5) == 32;
    AlignMultiple(xres, 5);
    var r := Align(xres, 5);
    DivModUnique(r * PixelSize(fmt), PixelSize(fmt), r, 0);
  }

  // ---------------------------------------------------------------------
  // Overscan
  // ---------------------------------------------------------------------

  /** The overscan margin on one side: size times the percentage over 100. */
  function OverscanOffset(size: nat, percent: nat): nat {
    size * percent / 100
  }

  /** gr_fb_width and gr_fb_height: the size less a margin on each side. */
  function Usable(size: nat, percent: nat): int {
    size - 2 * OverscanOffset(size, percent)
  }

  /** Up to 50 percent, the usable size lies between 0 and the full size, is
      the full size without overscan, and shrinks as the percentage grows. */
  lemma UsableBounds(size: nat, p: nat, q: nat)
    requires p <= q <= 50
    ensures 0 <= Usable(size, q) <= Usable(size, p) <= size
    ensures Usable(size, 0) == size
  {
    MulMono(p, q, size);
    assert size * p <= size * q;
    DivMono(size * p, size * q, 100);
    MulMono(q, 50, size);
    DivMono(size * q, size * 50, 100);
    DivModUnique(size * 50, 100, size / 2, (size % 2) * 50);
  }

  lemma DivMono(a: nat, b: nat, d: nat)
    requires a <= b && d > 0
    ensures a / d <= b / d
  {
    if a / d > b / d {
      DivModUnique(a, d, a / d, a % d);
      DivModUnique(b, d, b / d, b % d);
      MulMono(b / d + 1, a / d, d);
    }
  }

  // ---------------------------------------------------------------------
  // Display split
  // ---------------------------------------------------------------------

  /** getLeftSplit: the split published by the driver, or half the width
      when none was published. */
  function LeftSplit(xres: nat, leftSplit: int): int {
    if leftSplit != 0 then leftSplit else xres / 2
  }

  /** isDisplaySplit: wider than the largest single display, or a right
      split published by the driver. */
  predicate IsDisplaySplit(xres: nat, rightSplit: int) {
    xres > MaxDisplayDim || rightSplit != 0
  }

  /** Without driver data the display splits evenly and only above 2048
      pixels: a 1440-wide panel is one display whose split would be at 720,
      a 2560-wide one is two halves of 1280. */
  lemma SplitDefaults(xres: nat)
    ensures LeftSplit(xres, 0) == xres / 2 && 2 * LeftSplit(xres, 0) <= xres
    ensures IsDisplaySplit(xres, 0) <==> xres > 2048
    ensures LeftSplit(1440, 0) == 720 && !IsDisplaySplit(1440, 0)
    ensures LeftSplit(2560, 0) == 1280 && IsDisplaySplit(2560, 0)
  {
  }

  /** A nonzero left split published by the driver is used as is, whatever
      the width. */
  lemma LeftSplitPublished(xres: nat, leftSplit: int)
    requires leftSplit != 0
    ensures LeftSplit(xres, leftSplit) == leftSplit
  {
  }

  /** A nonzero right split published by the driver makes any display
      split, whatever the width. */
  lemma RightSplitPublished(xres: nat, rightSplit: int)
    requires rightSplit != 0
    ensures IsDisplaySplit(xres, rightSplit)
  {
  }

  // ---------------------------------------------------------------------
  // gr_color
  // ---------------------------------------------------------------------

  /** One 8-bit channel as the rasterizer's 16.16 fixed-point value:
      ((c << 8) | c) + 1. */
  function Expand(c: byte): nat {
    Or(c * 256, c) + 1
  }

  /** gr_color(r, g, b, a): the four expanded channels in order. */
  function GrColor(r: byte, g: byte, b: byte, a: byte): seq<nat> {
    [Expand(r), Expand(g), Expand(b), Expand(a)]
  }

  /** The byte shifted up by 8 and its copy in the low byte do not overlap,
      so the or is a sum: the expansion is 257c + 1. */
  lemma ExpandLinear(c: byte)
    ensures Expand(c) == 257 * c + 1
  {
    Pow2Values();
    OrShifted(c, c, 8);
  }

  /** The expansion sends 0 to 1 and 255 to 0x10000, the fixed-point 1.0,
      and keeps the order of channel values. */
  lemma ExpandValue(c: byte, d: byte)
    ensures Expand(0) == 1 && Expand(255) == 0x1_0000
    ensures c < d ==> Expand(c) < Expand(d)
  {
    ExpandLinear(c);
    ExpandLinear(d);
    ExpandLinear(0);
    ExpandLinear(255);
  }

  /** gr_color loses nothing: two colours with the same expansion are the
      same colour, and every component is at most 1.0. */
  lemma GrColorFaithful(r: byte, g: byte, b: byte, a: byte, r': byte, g': byte, b': byte, a': byte)
    ensures GrColor(r, g, b, a) == GrColor(r', g', b', a') ==> r == r' && g == g' && b == b' && a == a'
    ensures forall k | 0 <= k < 4 :: 1 <= GrColor(r, g, b, a)[k] <= 0x1_0000
  {
    ExpandLinear(r);
    ExpandLinear(g);
    ExpandLinear(b);
    ExpandLinear(a);
    ExpandLinear(r');
    ExpandLinear(g');
    ExpandLinear(b');
    ExpandLinear(a');
    if GrColor(r, g, b, a) == GrColor(r', g', b', a') {
      assert GrColor(r, g, b, a)[0] == GrColor(r', g', b', a')[0];
      assert GrColor(r, g, b, a)[1] == GrColor(r', g', b', a')[1];
      assert GrColor(r, g, b, a)[2] == GrColor(r', g', b', a')[2];
      assert GrColor(r, g, b, a)[3] == GrColor(r', g', b', a')[3];
    }
  }
}
