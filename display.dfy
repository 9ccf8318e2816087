/** The frame publisher of the framebuffer back end: the double-buffering
    decision taken when the framebuffer is opened, the memory surface that
    all drawing goes to, the 180-degree turn applied for panels mounted
    upside down, the copy of the surface into the active buffer, and the
    screen-information update that makes the panel show that buffer. */
module Display {
  import opened Bits
  import opened Geometry

  /** NUM_BUFFERS: the framebuffer memory holds at most two frames. */
  const NumBuffers: nat := 2

  /** The fields of the variable screen information the back end reads and
      writes (the rest of the structure passes through to the driver),
      the colour channel layout among them. */
  datatype VarInfo = VarInfo(xres: nat, yres: nat, xresVirtual: nat, yresVirtual: nat,
                             yoffset: nat, bitsPerPixel: nat, channels: Channels)

  // ---------------------------------------------------------------------
  // The 180-degree turn of the memory surface
  // ---------------------------------------------------------------------

  /** Where the byte that ends up at index k comes from when the first n
      pixels of ps bytes are put in reverse order, each pixel keeping the
      order of its own bytes; bytes past the n pixels stay where they are. */
  function Mirror(k: nat, n: nat, ps: nat): (m: nat)
    requires ps > 0
    ensures k < n * ps ==> m < n * ps
    ensures n * ps <= k ==> m == k
  {
    if k < n * ps then
      PixelOf(k, n, ps);
      var q: nat := n - 1 - k / ps;
      q * ps + k % ps
    else k
  }

  /** A byte inside the first n pixels lies in pixel k / ps < n. */
  lemma PixelOf(k: nat, n: nat, ps: nat)
    requires ps > 0 && k < n * ps
    ensures k == k / ps * ps + k % ps && k / ps < n
    ensures 0 <= (n - 1 - k / ps) * ps && (n - 1 - k / ps) * ps + k % ps < n * ps
  {
    var p, j := k / ps, k % ps;
    if n <= p {
      MulMono(n, p, ps);
    }
    MulSub(n, p + 1, ps);
    MulMono(p + 1, n, ps);
  }

  /** Byte j of pixel p comes from byte j of pixel q = n - 1 - p. */
  lemma MirrorPixel(p: nat, j: nat, n: nat, ps: nat, q: nat)
    requires p < n && j < ps && q == n - 1 - p
    ensures p * ps + j < n * ps && Mirror(p * ps + j, n, ps) == q * ps + j
  {
    MulMono(p + 1, n, ps);
    DivModUnique(p * ps + j, ps, p, j);
  }

  /** Mirroring twice leads back to the same byte. */
  lemma MirrorTwice(k: nat, n: nat, ps: nat)
    requires ps > 0
    ensures Mirror(Mirror(k, n, ps), n, ps) == k
  {
    if k < n * ps {
      var p, j := k / ps, k % ps;
      PixelOf(k, n, ps);
      var q := n - 1 - p;
      MirrorPixel(p, j, n, ps, q);
      assert Mirror(k, n, ps) == q * ps + j;
      MirrorPixel(q, j, n, ps, p);
    }
  }

  /** a is a0 with its first n pixels of ps bytes in reverse order. */
  predicate Rotated(a0: seq<byte>, a: seq<byte>, n: nat, ps: nat)
    requires ps > 0
  {
    |a| == |a0| && n * ps <= |a0| &&
    forall k | 0 <= k < |a| :: a[k] == a0[Mirror(k, n, ps)]
  }

  /** Read pixel by pixel: byte j of pixel p (at byte offset at) of the
      turned surface is byte j of pixel n - 1 - p (at byte offset from) of
      the old one. */
  lemma RotatedPixel(a0: seq<byte>, a: seq<byte>, n: nat, ps: nat, p: nat, j: nat, at: nat, from: nat)
    requires ps > 0 && Rotated(a0, a, n, ps) && p < n && j < ps
    requires at == p * ps + j && from == (n - 1 - p) * ps + j
    ensures at < |a| && from < |a| && a[at] == a0[from]
  {
    MirrorPixel(p, j, n, ps, n - 1 - p);
    assert a[at] == a0[Mirror(at, n, ps)];
  }

  /** Turning the surface twice gives back the surface. */
  lemma RotateTwice(a0: seq<byte>, a1: seq<byte>, a2: seq<byte>, n: nat, ps: nat)
    requires ps > 0 && Rotated(a0, a1, n, ps) && Rotated(a1, a2, n, ps)
    ensures a2 == a0
  {
    forall k | 0 <= k < |a2|
      ensures a2[k] == a0[k]
    {
      MirrorTwice(k, n, ps);
    }
  }

  /** Where the byte now at k came from after a swap of the w first bytes
      at lo with the w first bytes at hi. */
  function Exchange(k: nat, lo: nat, hi: nat, w: nat): nat {
    if lo <= k < lo + w then k - lo + hi
    else if hi <= k < hi + w then k - hi + lo
    else k
  }

  /** The inner loop of the turn: exchanges pixel [lo, lo + ps) with pixel
      [hi, hi + ps) one byte at a time through a temporary. */
  method SwapPixels(a: array<byte>, lo: nat, hi: nat, ps: nat)
    requires lo + ps <= hi && hi + ps <= a.Length
    modifies a
    ensures forall k | 0 <= k < a.Length :: a[k] == old(a[Exchange(k, lo, hi, ps)])
  {
    ghost var a0 := a[..];
    var j := 0;
    while j < ps
      invariant 0 <= j <= ps
      invariant forall k | 0 <= k < a.Length :: a[k] == a0[Exchange(k, lo, hi, j)]
    {
      var tmp := a[lo + j];
      a[lo + j] := a[hi + j];
      a[hi + j] := tmp;
      j := j + 1;
    }
  }

  /** Where the byte now at k came from once the outer loop has exchanged
      the first i pixels with the last i pixels. */
  function Turned(k: nat, i: nat, n: nat, ps: nat): (m: nat)
    requires ps > 0
    ensures k < n * ps ==> m < n * ps
    ensures n * ps <= k ==> m == k
  {
    if k < n * ps && (k / ps < i || n - i <= k / ps) then Mirror(k, n, ps) else k
  }

  /** The byte offsets of pixel i and of pixel n - 1 - i, as the loop
      computes them. */
  lemma PixelOffsets(i: nat, n: nat, ps: nat)
    requires 2 * i + 2 <= n
    ensures i * ps + ps <= n * ps - (i + 1) * ps
    ensures n * ps - (i + 1) * ps == (n - 1 - i) * ps
    ensures (n - 1 - i) * ps + ps <= n * ps
  {
    MulSub(n, i + 1, ps);
    MulMono(i + 1, n - 1 - i, ps);
  }

  /** One more exchange of pixel i (at byte lo) with pixel n - 1 - i (at
      byte hi) extends the turned prefix and suffix by one pixel each. */
  lemma TurnStep(k: nat, i: nat, n: nat, ps: nat, lo: nat, hi: nat)
    requires ps > 0 && 2 * i + 2 <= n && lo == i * ps && hi == (n - 1 - i) * ps
    ensures Turned(Exchange(k, lo, hi, ps), i, n, ps) == Turned(k, i + 1, n, ps)
  {
    PixelOffsets(i, n, ps);
    if lo <= k < lo + ps {
      TurnFront(k - lo, i, n, ps, lo, hi);
    } else if hi <= k < hi + ps {
      TurnBack(k - hi, i, n, ps, lo, hi);
    } else {
      TurnElsewhere(k, i, n, ps, lo, hi);
    }
  }

  /** Byte j of pixel i moves to pixel n - 1 - i, which is not yet turned. */
  lemma TurnFront(j: nat, i: nat, n: nat, ps: nat, lo: nat, hi: nat)
    requires j < ps && 2 * i + 2 <= n && lo == i * ps && hi == (n - 1 - i) * ps
    ensures hi + j < n * ps
    ensures Turned(hi + j, i, n, ps) == hi + j
    ensures Turned(lo + j, i + 1, n, ps) == hi + j
  {
    MirrorPixel(i, j, n, ps, n - 1 - i);
    DivModUnique(hi + j, ps, n - 1 - i, j);
    DivModUnique(lo + j, ps, i, j);
  }

  /** Byte j of pixel n - 1 - i moves to pixel i, which is not yet turned. */
  lemma TurnBack(j: nat, i: nat, n: nat, ps: nat, lo: nat, hi: nat)
    requires j < ps && 2 * i + 2 <= n && lo == i * ps && hi == (n - 1 - i) * ps
    ensures lo + j < n * ps
    ensures Turned(lo + j, i, n, ps) == lo + j
    ensures Turned(hi + j, i + 1, n, ps) == lo + j
  {
    MirrorPixel(n - 1 - i, j, n, ps, i);
    DivModUnique(lo + j, ps, i, j);
    DivModUnique(hi + j, ps, n - 1 - i, j);
  }

  /** A byte outside both pixels is where it was, and whether it lies in the
      turned part does not change. */
  lemma TurnElsewhere(k: nat, i: nat, n: nat, ps: nat, lo: nat, hi: nat)
    requires ps > 0 && 2 * i + 2 <= n && lo == i * ps && hi == (n - 1 - i) * ps
    requires !(lo <= k < lo + ps) && !(hi <= k < hi + ps)
    ensures Turned(k, i, n, ps) == Turned(k, i + 1, n, ps)
  {
    if k < n * ps {
      PixelOf(k, n, ps);
      var p := k / ps;
      if p == i || p == n - 1 - i {
        assert false;
      }
    }
  }

  /** When the outer loop stops, at most the middle pixel is left, and it
      is its own mirror. */
  lemma TurnDone(k: nat, n: nat, ps: nat)
    requires ps > 0
    ensures Turned(k, n / 2, n, ps) == Mirror(k, n, ps)
  {
    if k < n * ps {
      PixelOf(k, n, ps);
    }
  }

  /** The loop invariant of the turn: a is a0 with its first and last i
      pixels exchanged, each kept in byte order. */
  predicate TurnedUpTo(a0: seq<byte>, a: seq<byte>, i: nat, n: nat, ps: nat)
    requires ps > 0
  {
    |a| == |a0| && n * ps <= |a0| &&
    forall k | 0 <= k < |a| :: a[k] == a0[Turned(k, i, n, ps)]
  }

  /** Before the loop nothing is turned. */
  lemma TurnNone(a0: seq<byte>, n: nat, ps: nat)
    requires ps > 0 && n * ps <= |a0|
    ensures TurnedUpTo(a0, a0, 0, n, ps)
  {
    forall k | 0 <= k < |a0|
      ensures Turned(k, 0, n, ps) == k
    {
      TurnedNothing(k, n, ps);
    }
  }

  /** With no pixel exchanged yet, every byte is where it was. */
  lemma TurnedNothing(k: nat, n: nat, ps: nat)
    requires ps > 0
    ensures Turned(k, 0, n, ps) == k
  {
    if k < n * ps {
      PixelOf(k, n, ps);
    }
  }

  /** After the exchange of pixel i with pixel n - 1 - i, the first and
      last i + 1 pixels are turned. */
  lemma TurnExtends(a0: seq<byte>, before: seq<byte>, after: seq<byte>, i: nat, n: nat, ps: nat,
                    lo: nat, hi: nat)
    requires ps > 0 && 2 * i + 2 <= n && lo == i * ps && hi == (n - 1 - i) * ps
    requires TurnedUpTo(a0, before, i, n, ps) && |after| == |before|
    requires forall k | 0 <= k < |after| :: after[k] == before[Exchange(k, lo, hi, ps)]
    ensures TurnedUpTo(a0, after, i + 1, n, ps)
  {
    forall k | 0 <= k < |after|
      ensures after[k] == a0[Turned(k, i + 1, n, ps)]
    {
      TurnStep(k, i, n, ps, lo, hi);
    }
  }

  /** Once the loop has turned the first and last n / 2 pixels, the whole
      of the first n pixels is turned. */
  lemma TurnFinished(a0: seq<byte>, a: seq<byte>, n: nat, ps: nat)
    requires ps > 0 && TurnedUpTo(a0, a, n / 2, n, ps)
    ensures Rotated(a0, a, n, ps)
  {
    forall k | 0 <= k < |a|
      ensures a[k] == a0[Mirror(k, n, ps)]
    {
      TurnDone(k, n, ps);
    }
  }

  /** One pass of the outer loop: pixel i trades places with pixel
      n - 1 - i. */
  method TurnPixel(a: array<byte>, i: nat, n: nat, ps: nat, ghost a0: seq<byte>)
    requires ps > 0 && 2 * i + 2 <= n && TurnedUpTo(a0, a[..], i, n, ps)
    modifies a
    ensures TurnedUpTo(a0, a[..], i + 1, n, ps)
  {
    PixelOffsets(i, n, ps);
    var lo, hi := i * ps, n * ps - (i + 1) * ps;
    ghost var before := a[..];
    SwapPixels(a, lo, hi, ps);
    TurnExtends(a0, before, a[..], i, n, ps, lo, hi);
  }

  /** The flipped-screen loop: pixel i of the first n pixels trades places
      with pixel n - 1 - i, for i below n / 2. */
  method Rotate180(a: array<byte>, n: nat, ps: nat)
    requires ps > 0 && n * ps <= a.Length
    modifies a
    ensures Rotated(old(a[..]), a[..], n, ps)
  {
    ghost var a0 := a[..];
    TurnNone(a0, n, ps);
    var i := 0;
    while i < n / 2
      invariant i <= n / 2 && TurnedUpTo(a0, a[..], i, n, ps)
    {
      TurnPixel(a, i, n, ps, a0);
      i := i + 1;
    }
    TurnFinished(a0, a[..], n, ps);
  }

  // ---------------------------------------------------------------------
  // The full-frame copy
  // ---------------------------------------------------------------------

  /** d is d0 with the bytes from start on replaced by src, and nothing else
      changed. */
  predicate Copied(d0: seq<byte>, d: seq<byte>, start: nat, src: seq<byte>) {
    |d| == |d0| && start + |src| <= |d| &&
    d[start..start + |src|] == src &&
    d[..start] == d0[..start] && d[start + |src|..] == d0[start + |src|..]
  }

  /** The memcpy of the memory surface into the buffer at start. */
  method CopyInto(dst: array<byte>, start: nat, src: array<byte>)
    requires dst != src && start + src.Length <= dst.Length
    modifies dst
    ensures Copied(old(dst[..]), dst[..], start, src[..])
  {
    forall k | 0 <= k < src.Length {
      dst[start + k] := src[k];
    }
  }

  // ---------------------------------------------------------------------
  // The active-buffer index
  // ---------------------------------------------------------------------

  /** (n + 1) & 1 turns 0 into 1 and 1 into 0, so two toggles restore the
      index. */
  lemma Toggle(n: nat)
    requires n <= 1
    ensures And(n + 1, 1) == 1 - n
    ensures And(And(n + 1, 1) + 1, 1) == n
  {
    AndLow(n + 1, 1);
    AndLow(2 - n, 1);
  }

  /** Pixels per line times lines, in bytes, never exceeds one frame. */
  lemma PixelsFit(lineLength: nat, height: nat, ps: nat)
    requires ps > 0
    ensures lineLength / ps * height * ps <= lineLength * height
  {
    var q := lineLength / ps;
    assert q * ps <= lineLength;
    MulMono(q * ps, lineLength, height);
    assert q * height * ps == q * ps * height;
  }

  /** The byte offset of row y times the line length is the start of buffer
      n when y is n frames' worth of rows. */
  lemma RowOffset(n: nat, yres: nat, lineLength: nat)
    ensures n * yres * lineLength == n * (lineLength * yres)
  {
  }

  // ---------------------------------------------------------------------
  // The framebuffer
  // ---------------------------------------------------------------------

  /** The framebuffer device as the back end holds it: the screen
      information, the mapped framebuffer memory, the memory surface, the
      index of the active buffer, and the choices fixed when it was
      opened. */
  class Framebuffer {
    /** PIXEL_FORMAT, chosen at build time. */
    const format: Format
    /** Whether the target composes through an overlay. */
    const hasOverlay: bool
    /** BOARD_HAS_FLIPPED_SCREEN. */
    const flipped: bool
    /** The bytes of one line (fi.line_length). */
    const lineLength: nat
    /** The size of the framebuffer memory (fi.smem_len). */
    const smemLen: nat
    const doubleBuffering: bool
    /** OVERSCAN_PERCENT and the margins derived from it. */
    const overscanPercent: nat
    const overscanX: nat
    const overscanY: nat
    /** The dimensions of buffer 0 (gr_framebuffer[0].width and .height). */
    const width: nat
    const height: nat
    /** The mapped framebuffer memory; buffer n starts at n frames. */
    const device: array<byte>
    /** The memory surface all drawing goes to. */
    const surface: array<byte>
    var vi: VarInfo
    var activeFb: nat

    /** The bytes of one frame: line_length * yres. */
    function Frame(): nat {
      lineLength * height
    }

    /** The bytes get_framebuffer clears: one frame, or both when double
        buffered. */
    function Cleared(): nat {
      if doubleBuffering then NumBuffers * Frame() else Frame()
    }

    /** The offset of buffer n in the framebuffer memory. */
    function BufferStart(n: nat): nat {
      n * Frame()
    }

    /** The pixels the flipped-screen loop turns: xres_virtual = line_length
        / PIXEL_SIZE pixels per line, times yres lines. */
    function TurnedPixels(): nat {
      lineLength / PixelSize(format) * height
    }

    /** The first row of buffer n in the virtual screen. */
    function FirstRow(n: nat): nat {
      n * height
    }

    /** The offset in the framebuffer memory the panel scans out from. */
    function Scanout(): nat
      reads this
    {
      vi.yoffset * lineLength
    }

    predicate Valid()
      reads this
    {
      vi.xres == width && vi.yres == height &&
      surface.Length == Frame() && device != surface &&
      (doubleBuffering <==> NumBuffers * Frame() <= smemLen) &&
      activeFb <= 1 && (!doubleBuffering ==> activeFb == 0) &&
      (!hasOverlay ==> device.Length == smemLen && Frame() <= smemLen) &&
      overscanX == OverscanOffset(width, overscanPercent) &&
      overscanY == OverscanOffset(height, overscanPercent)
    }

    /** Opening the framebuffer (get_framebuffer), allocating the memory
        surface (get_memory_surface) and choosing buffer 0 as the front
        buffer. info is the screen information the driver reports,
        reportedLineLength and smemLen its fixed information, mapped the
        content of the framebuffer memory when it is mapped, and
        malloced the content of the memory malloc returns for the
        surface. */
    constructor Init(format: Format, hasOverlay: bool, flipped: bool, overscanPercent: nat,
                     info: VarInfo, reportedLineLength: nat, smemLen: nat,
                     mapped: seq<byte>, malloced: seq<byte>)
      requires info.xres < U32
      requires !hasOverlay ==> reportedLineLength * info.yres <= smemLen && |mapped| == smemLen
      requires |malloced| ==
        (if hasOverlay then OverlayLineLength(info.xres, format) else reportedLineLength) * info.yres
      ensures Valid()
      ensures this.format == format && this.hasOverlay == hasOverlay && this.flipped == flipped
      ensures this.overscanPercent == overscanPercent && this.smemLen == smemLen
      ensures width == info.xres && height == info.yres
      ensures lineLength == if hasOverlay then OverlayLineLength(info.xres, format) else reportedLineLength
      ensures doubleBuffering <==> info.yres * lineLength * 2 <= smemLen
      ensures overscanX == info.xres * overscanPercent / 100
      ensures overscanY == info.yres * overscanPercent / 100
      ensures activeFb == 0
      ensures hasOverlay ==> vi == info
      ensures !hasOverlay && !doubleBuffering ==>
        vi == info.(bitsPerPixel := PixelSize(format) * 8, channels := ChannelsOf(format))
      ensures !hasOverlay && doubleBuffering ==>
        vi == info.(bitsPerPixel := PixelSize(format) * 8, channels := ChannelsOf(format),
                    yresVirtual := info.yres * NumBuffers, yoffset := 0)
      ensures fresh(device) && fresh(surface)
      ensures hasOverlay ==> device.Length == 0
      ensures !hasOverlay ==> forall k | 0 <= k < device.Length ::
        device[k] == if k < Cleared() then 0 else mapped[k]
      ensures surface[..] == malloced
    {
      this.format := format;
      this.hasOverlay := hasOverlay;
      this.flipped := flipped;
      this.smemLen := smemLen;
      this.overscanPercent := overscanPercent;
      var ll := if hasOverlay then OverlayLineLength(info.xres, format) else reportedLineLength;
      lineLength := ll;
      vi := if hasOverlay then info
            else info.(bitsPerPixel := PixelSize(format) * 8, channels := ChannelsOf(format));
      var cleared := if info.yres * ll * 2 <= smemLen then NumBuffers * (ll * info.yres) else ll * info.yres;
      device := new byte[if hasOverlay then 0 else smemLen](k => if k < cleared || k >= |mapped| then 0 else mapped[k]);
      overscanX := info.xres * overscanPercent / 100;
      overscanY := info.yres * overscanPercent / 100;
      width := info.xres;
      height := info.yres;
      doubleBuffering := info.yres * ll * 2 <= smemLen;
      surface := new byte[ll * info.yres](k => if 0 <= k < |malloced| then malloced[k] else 0);
      activeFb := 0;
      new;
      if !hasOverlay {
        SetActiveFramebuffer(0);
      }
    }

    /** set_active_framebuffer: a request for buffer n > 1, or any request
        without double buffering, is ignored; otherwise the virtual screen
        becomes two frames tall and the panel is pointed at buffer n. */
    method SetActiveFramebuffer(n: nat)
      requires Valid()
      modifies this
      ensures Valid() && activeFb == old(activeFb)
      ensures n > 1 || !doubleBuffering ==> vi == old(vi)
      ensures n <= 1 && doubleBuffering ==>
        vi == old(vi).(yresVirtual := height * NumBuffers, yoffset := FirstRow(n),
                       bitsPerPixel := PixelSize(format) * 8)
      ensures n <= 1 && doubleBuffering ==> Scanout() == BufferStart(n)
    {
      if n > 1 || !doubleBuffering {
        return;
      }
      vi := vi.(yresVirtual := vi.yres * NumBuffers, yoffset := n * vi.yres,
                bitsPerPixel := PixelSize(format) * 8);
      RowOffset(n, height, lineLength);
    }

    /** gr_flip without an overlay: toggle the active buffer when double
        buffered, turn the surface on flipped panels, copy it into the
        active buffer and point the panel at that buffer. With an overlay
        the frame is handed to the overlay, which is not modelled, and
        nothing here changes. */
    method Flip()
      requires Valid()
      modifies this, surface, device
      ensures Valid()
      ensures hasOverlay ==>
        vi == old(vi) && activeFb == old(activeFb) &&
        surface[..] == old(surface[..]) && device[..] == old(device[..])
      ensures !hasOverlay ==> activeFb == if doubleBuffering then 1 - old(activeFb) else old(activeFb)
      ensures !hasOverlay && flipped ==>
        Rotated(old(surface[..]), surface[..], TurnedPixels(), PixelSize(format))
      ensures !hasOverlay && !flipped ==> surface[..] == old(surface[..])
      ensures !hasOverlay ==> Copied(old(device[..]), device[..], BufferStart(activeFb), surface[..])
      ensures !hasOverlay ==>
        var turned := if flipped then old(vi).(xresVirtual := lineLength / PixelSize(format)) else old(vi);
        vi == if doubleBuffering
              then turned.(yresVirtual := height * NumBuffers, yoffset := FirstRow(activeFb),
                           bitsPerPixel := PixelSize(format) * 8)
              else turned
      ensures !hasOverlay && doubleBuffering ==> Scanout() == BufferStart(activeFb)
    {
      if hasOverlay {
        return;
      }
      ghost var d0 := device[..];
      if doubleBuffering {
        Toggle(activeFb);
        activeFb := And(activeFb + 1, 1);
      }
      if flipped {
        TurnSurface();
      }
      ghost var drawn := surface[..];
      assert device[..] == d0;
      var start := BufferStart(activeFb);
      CopyInto(device, start, surface);
      assert Copied(d0, device[..], start, drawn);
      SetActiveFramebuffer(activeFb);
      assert surface[..] == drawn;
    }

    /** The flipped-screen block of gr_flip: the virtual width becomes the
        stride and the memory surface is turned by 180 degrees. */
    method TurnSurface()
      requires Valid()
      modifies this, surface
      ensures Valid() && activeFb == old(activeFb)
      ensures vi == old(vi).(xresVirtual := lineLength / PixelSize(format))
      ensures Rotated(old(surface[..]), surface[..], TurnedPixels(), PixelSize(format))
    {
      var ps := PixelSize(format);
      vi := vi.(xresVirtual := lineLength / ps);
      PixelsFit(lineLength, height, ps);
      Rotate180(surface, vi.xresVirtual * vi.yres, ps);
    }

    /** gr_fb_width: the width left inside the overscan margins; with a
        margin of at most half the screen it lies between 0 and xres. */
    function FbWidth(): (w: int)
      requires Valid()
      reads this
      ensures w == Usable(vi.xres, overscanPercent)
      ensures overscanPercent <= 50 ==> 0 <= w <= vi.xres
    {
      if overscanPercent <= 50 then
        UsableBounds(width, 0, overscanPercent);
        width - 2 * overscanX
      else
        width - 2 * overscanX
    }

    /** gr_fb_height: the height left inside the overscan margins. */
    function FbHeight(): (h: int)
      requires Valid()
      reads this
      ensures h == Usable(vi.yres, overscanPercent)
      ensures overscanPercent <= 50 ==> 0 <= h <= vi.yres
    {
      if overscanPercent <= 50 then
        UsableBounds(height, 0, overscanPercent);
        height - 2 * overscanY
      else
        height - 2 * overscanY
    }
  }
}
