/**
 * The recovery font: its construction from the compiled-in run-length data
 * (gr_init_font), the lookup of the glyph for a character (getCharID) and
 * the width of the first character of a string (gr_measure).
 *
 * The compiled-in font is a FontSource: 95 glyphs of ewidth x eheight
 * pixels for printable ASCII followed by glyphs of cwidth x cheight pixels,
 * a code point per glyph (unicodemap) and a stream of run bytes, each
 * holding a pixel value in bit 7 and a run length in bits 0..6, ended by a
 * zero byte. Decoding the runs fills the glyph bitmaps one after the other.
 */
module Font {
  import opened Bits
  import opened Utf8

  /** The font compiled into the program (the `font` structure of the font header). */
  datatype FontSource = FontSource(
    count: nat, ewidth: nat, eheight: nat, cwidth: nat, cheight: nat,
    rundata: seq<byte>, unicodemap: seq<nat>)

  /** Number of glyphs drawn in the ASCII size. */
  const AsciiGlyphs: nat := 95

  /** The two glyph areas are not empty, the ASCII glyphs are all there,
      every glyph has a code point, and the run stream is ended by a zero
      byte. */
  predicate WellFormed(f: FontSource) {
    f.ewidth * f.eheight >= 1 && f.cwidth * f.cheight >= 1 &&
    f.count >= AsciiGlyphs && |f.unicodemap| >= f.count && 0 in f.rundata
  }

  function ASize(f: FontSource): nat { f.ewidth * f.eheight }

  function CSize(f: FontSource): nat { f.cwidth * f.cheight }

  /** Bytes of the bitmap of glyph g. */
  function GlyphSize(f: FontSource, g: nat): nat {
    if g < AsciiGlyphs then ASize(f) else CSize(f)
  }

  /** Total bytes of all glyph bitmaps. */
  function Capacity(f: FontSource): nat
    requires f.count >= AsciiGlyphs
  {
    AsciiGlyphs * ASize(f) + (f.count - AsciiGlyphs) * CSize(f)
  }

  /** Position in the decoded stream of byte p of glyph g. */
  function Pos(f: FontSource, g: nat, p: nat): nat {
    if g < AsciiGlyphs then g * ASize(f) + p
    else AsciiGlyphs * ASize(f) + (g - AsciiGlyphs) * CSize(f) + p
  }

  /** The glyph and the byte in it that stream position d is written to. */
  function Locate(f: FontSource, d: nat): (r: (nat, nat))
    requires WellFormed(f)
    ensures r.1 < GlyphSize(f, r.0)
    ensures r.0 < AsciiGlyphs <==> d < AsciiGlyphs * ASize(f)
  {
    if d < AsciiGlyphs * ASize(f) then
      DivBelow(d, ASize(f), AsciiGlyphs);
      (d / ASize(f), d % ASize(f))
    else ((d - AsciiGlyphs * ASize(f)) / CSize(f) + AsciiGlyphs,
          (d - AsciiGlyphs * ASize(f)) % CSize(f))
  }

  // ---------------------------------------------------------------------
  // The run stream
  // ---------------------------------------------------------------------

  /** Index of the zero byte that ends the run stream. */
  function EndOfRuns(rs: seq<byte>): (z: nat)
    requires 0 in rs
    ensures z < |rs| && rs[z] == 0 && forall i | 0 <= i < z :: rs[i] != 0
  {
    if rs[0] == 0 then 0 else 1 + EndOfRuns(rs[1..])
  }

  /** The pixels of one run byte: bit 7 gives 0xFF or 0, bits 0..6 the count. */
  function Run(b: byte): (r: seq<byte>)
    ensures |r| == b % 128
    ensures forall i | 0 <= i < |r| :: r[i] == (if b >= 128 then 0xFF else 0)
  {
    seq(b % 128, _ => if b >= 128 then 0xFF else 0)
  }

  /** The pixels of a sequence of run bytes, one run after the other. */
  function Expand(rs: seq<byte>): seq<byte> {
    if rs == [] then [] else Expand(rs[..|rs| - 1]) + Run(rs[|rs| - 1])
  }

  /** The whole decoded stream of a font. */
  function Pixels(f: FontSource): seq<byte>
    requires 0 in f.rundata
  {
    Expand(f.rundata[..EndOfRuns(f.rundata)])
  }

  /** The value byte p of glyph g holds once the runs are decoded: its place
      in the stream, or 0 past the last run. */
  function Cell(f: FontSource, g: nat, p: nat): byte
    requires 0 in f.rundata
  {
    var d := Pos(f, g, p);
    if d < |Pixels(f)| then Pixels(f)[d] else 0
  }

  /** Every decoded pixel is fully on or fully off. */
  lemma {:induction false} ExpandOnOff(rs: seq<byte>)
    ensures forall i | 0 <= i < |Expand(rs)| :: Expand(rs)[i] in {0, 0xFF}
    decreases |rs|
  {
    if rs != [] {
      ExpandOnOff(rs[..|rs| - 1]);
    }
  }

  /** The stream is as long as the run lengths add up to. */
  lemma {:induction false} ExpandLength(rs: seq<byte>, i: nat)
    requires i < |rs|
    ensures |Expand(rs[..i + 1])| == |Expand(rs[..i])| + rs[i] % 128
  {
    assert rs[..i + 1][..i] == rs[..i];
  }

  /** Every byte of every glyph is 0x00 or 0xFF once the runs are decoded. */
  lemma CellOnOff(f: FontSource, g: nat, p: nat)
    requires 0 in f.rundata
    ensures Cell(f, g, p) == 0 || Cell(f, g, p) == 0xFF
  {
    ExpandOnOff(f.rundata[..EndOfRuns(f.rundata)]);
  }

  // ---------------------------------------------------------------------
  // Index arithmetic: Locate and Pos are inverse
  // ---------------------------------------------------------------------

  /** Every stream position below the capacity lands inside some glyph, and
      that glyph byte has this position. */
  lemma LocatePos(f: FontSource, d: nat)
    requires WellFormed(f) && d < Capacity(f)
    ensures var (g, p) := Locate(f, d);
      g < f.count && p < GlyphSize(f, g) && Pos(f, g, p) == d
  {
    var a, c := ASize(f), CSize(f);
    if d < AsciiGlyphs * a {
      DivBelow(d, a, AsciiGlyphs);
    } else {
      DivBelow(d - AsciiGlyphs * a, c, f.count - AsciiGlyphs);
    }
  }

  /** A position below k blocks of size s lies in one of those k blocks. */
  lemma DivBelow(d: nat, s: nat, k: nat)
    requires s >= 1 && d < k * s
    ensures d / s < k && d % s < s && d / s * s + d % s == d
  {
    if d / s >= k {
      MulMono(k, d / s, s);
    }
  }

  /** Locating the position of a glyph byte gives back that byte. */
  lemma PosLocate(f: FontSource, g: nat, p: nat)
    requires WellFormed(f) && p < GlyphSize(f, g)
    ensures Locate(f, Pos(f, g, p)) == (g, p)
  {
    var a, c := ASize(f), CSize(f);
    if g < AsciiGlyphs {
      MulMono(g + 1, AsciiGlyphs, a);
      DivModUnique(g * a + p, a, g, p);
    } else {
      DivModUnique((g - AsciiGlyphs) * c + p, c, g - AsciiGlyphs, p);
    }
  }

  /** Distinct glyph bytes have distinct positions. */
  lemma PosInjective(f: FontSource, g: nat, p: nat, g': nat, p': nat)
    requires WellFormed(f) && p < GlyphSize(f, g) && p' < GlyphSize(f, g')
    requires Pos(f, g, p) == Pos(f, g', p')
    ensures g == g' && p == p'
  {
    PosLocate(f, g, p);
    PosLocate(f, g', p');
  }

  /** Run byte b as the loop reads it: `b & 0x7f` is the count and `b & 0x80`
      selects 0xFF. */
  lemma RunByte(b: byte)
    ensures And(b, 0x7F) == b % 128
    ensures And(b, 0x80) != 0 <==> b >= 128
  {
    Pow2Values();
    AndLow(b, 7);
    AndHigh(b, 8, 7);
    if b < 128 {
      DivModUnique(b, 128, 0, b);
    } else {
      DivModUnique(b, 128, 1, b - 128);
    }
  }

  // ---------------------------------------------------------------------
  // gr_init_font
  // ---------------------------------------------------------------------

  /** The glyph arrays are pairwise distinct. */
  ghost predicate Distinct(data: seq<array<byte>>) {
    forall i, j | 0 <= i < j < |data| :: data[i] != data[j]
  }

  /** The width (or height) recorded for glyph g: the ASCII or the other
      size, truncated to unsigned char. */
  function SizeOf(g: nat, ascii: nat, other: nat): byte {
    (if g < AsciiGlyphs then ascii else other) % 256
  }

  /** A zeroed glyph bitmap (malloc followed by memset). */
  method NewGlyph(size: nat) returns (a: array<byte>)
    ensures fresh(a) && a.Length == size
    ensures forall p | 0 <= p < size :: a[p] == 0
  {
    a := new byte[size](_ => 0);
  }

  /** The first loop of gr_init_font: a zeroed bitmap and the (unsigned char)
      width and height of every glyph. */
  method AllocGlyphs(f: FontSource) returns (data: seq<array<byte>>, width: array<byte>, height: array<byte>)
    ensures |data| == f.count && width.Length == f.count && height.Length == f.count
    ensures fresh(width) && fresh(height) && width != height
    ensures forall g | 0 <= g < |data| :: fresh(data[g]) && data[g] != width && data[g] != height
    ensures Distinct(data)
    ensures forall g | 0 <= g < |data| :: data[g].Length == GlyphSize(f, g)
    ensures forall g, p | 0 <= g < |data| && 0 <= p < data[g].Length :: data[g][p] == 0
    ensures forall g | 0 <= g < f.count ::
      width[g] == SizeOf(g, f.ewidth, f.cwidth) && height[g] == SizeOf(g, f.eheight, f.cheight)
  {
    width := new byte[f.count];
    height := new byte[f.count];
    data := [];
    var n := 0;
    while n < f.count
      invariant 0 <= n <= f.count && |data| == n
      invariant forall g | 0 <= g < n :: fresh(data[g]) && data[g] != width && data[g] != height
      invariant Distinct(data)
      invariant forall g | 0 <= g < n :: data[g].Length == GlyphSize(f, g)
      invariant forall g, p | 0 <= g < n && 0 <= p < data[g].Length :: data[g][p] == 0
      invariant forall g | 0 <= g < n ::
        width[g] == SizeOf(g, f.ewidth, f.cwidth) && height[g] == SizeOf(g, f.eheight, f.cheight)
    {
      var glyph := NewGlyph(GlyphSize(f, n));
      if n < AsciiGlyphs {
        width[n] := f.ewidth % 256;
        height[n] := f.eheight % 256;
      } else {
        width[n] := f.cwidth % 256;
        height[n] := f.cheight % 256;
      }
      data := data + [glyph];
      n := n + 1;
    }
  }

  /** The glyph bytes at stream positions below d hold the pixels of X
      there, all others are still 0. */
  ghost predicate Filled(f: FontSource, data: seq<array<byte>>, X: seq<byte>, d: nat)
    reads set g | 0 <= g < |data| :: data[g]
  {
    forall g, p | 0 <= g < |data| && 0 <= p < data[g].Length ::
      data[g][p] == (if Pos(f, g, p) < d && Pos(f, g, p) < |X| then X[Pos(f, g, p)] else 0)
  }

  /** The second loop of gr_init_font: run byte after run byte, each pixel of
      the run is written to the glyph byte its stream position locates. */
  method DecodeRuns(f: FontSource, data: seq<array<byte>>)
    requires WellFormed(f) && |Pixels(f)| <= Capacity(f)
    requires |data| == f.count && Distinct(data)
    requires forall g | 0 <= g < |data| :: data[g].Length == GlyphSize(f, g)
    requires forall g, p | 0 <= g < |data| && 0 <= p < data[g].Length :: data[g][p] == 0
    modifies set g | 0 <= g < |data| :: data[g]
    ensures forall g, p | 0 <= g < |data| && 0 <= p < data[g].Length :: data[g][p] == Cell(f, g, p)
  {
    var rs := f.rundata;
    ghost var z := EndOfRuns(rs);
    var d := 0;
    var r := 0;
    var data0 := rs[r];
    r := r + 1;
    while data0 != 0
      invariant 1 <= r <= z + 1 && data0 == rs[r - 1]
      invariant d == |Expand(rs[..r - 1])| <= |Pixels(f)|
      invariant Pixels(f)[..d] == Expand(rs[..r - 1])
      invariant Filled(f, data, Pixels(f), d)
      decreases z + 1 - r
    {
      ExpandStep(rs, r - 1);
      ExpandPrefix(rs, r, z);
      d := WriteRun(f, data, d, data0, Expand(rs[..r]));
      data0 := rs[r];
      r := r + 1;
    }
    assert r - 1 == z;
  }

  /** The inner loop of the decoder: the b & 0x7f pixels of one run byte are
      written at stream positions d, d + 1, ... */
  method WriteRun(f: FontSource, data: seq<array<byte>>, d: nat, b: byte, ghost cur: seq<byte>)
    returns (d': nat)
    requires WellFormed(f) && |Pixels(f)| <= Capacity(f)
    requires |data| == f.count && Distinct(data)
    requires forall g | 0 <= g < |data| :: data[g].Length == GlyphSize(f, g)
    requires d + b % 128 == |cur| <= |Pixels(f)| && Pixels(f)[..|cur|] == cur && cur[d..] == Run(b)
    requires Filled(f, data, Pixels(f), d)
    modifies set g | 0 <= g < |data| :: data[g]
    ensures d' == |cur| && Filled(f, data, Pixels(f), d')
  {
    RunByte(b);
    var n := And(b, 0x7F);
    var i := 0;
    d' := d;
    while i < n
      invariant 0 <= i <= n && d' == d + i <= |cur|
      invariant Filled(f, data, Pixels(f), d')
    {
      var v: byte := if And(b, 0x80) != 0 then 0xFF else 0;
      assert Pixels(f)[d'] == cur[d'] == Run(b)[i] == v;
      WriteNext(f, data, d', v);
      i := i + 1;
      d' := d' + 1;
    }
  }

  /** One pixel of a run: stream position d is located and written. */
  method WriteNext(f: FontSource, data: seq<array<byte>>, d: nat, v: byte)
    requires WellFormed(f) && d < |Pixels(f)| <= Capacity(f) && v == Pixels(f)[d]
    requires |data| == f.count && Distinct(data)
    requires forall g | 0 <= g < |data| :: data[g].Length == GlyphSize(f, g)
    requires Filled(f, data, Pixels(f), d)
    modifies set g | 0 <= g < |data| :: data[g]
    ensures Filled(f, data, Pixels(f), d + 1)
  {
    LocatePos(f, d);
    var (bmp, pos) := Locate(f, d);
    forall g, p | 0 <= g < |data| && 0 <= p < data[g].Length && Pos(f, g, p) == d
      ensures g == bmp && p == pos
    {
      PosInjective(f, g, p, bmp, pos);
    }
    data[bmp][pos] := v;
  }

  /** Expanding one more run byte appends its run. */
  lemma ExpandStep(rs: seq<byte>, i: nat)
    requires i < |rs|
    ensures Expand(rs[..i + 1]) == Expand(rs[..i]) + Run(rs[i])
  {
    assert rs[..i + 1][..i] == rs[..i];
  }

  /** The stream decoded so far is a prefix of the whole stream. */
  lemma ExpandPrefix(rs: seq<byte>, r: nat, z: nat)
    requires 1 <= r <= z <= |rs|
    ensures |Expand(rs[..r])| <= |Expand(rs[..z])|
    ensures Expand(rs[..z])[..|Expand(rs[..r])|] == Expand(rs[..r])
  {
    ExpandMonotone(rs[..z], r);
    assert rs[..z][..r] == rs[..r];
  }

  /** Expanding a prefix of the runs gives a prefix of the pixels. */
  lemma {:induction false} ExpandMonotone(rs: seq<byte>, r: nat)
    requires r <= |rs|
    ensures |Expand(rs[..r])| <= |Expand(rs)|
    ensures Expand(rs)[..|Expand(rs[..r])|] == Expand(rs[..r])
    decreases |rs| - r
  {
    if r < |rs| {
      ExpandMonotone(rs, r + 1);
      ExpandLength(rs, r);
      assert rs[..r + 1][..r] == rs[..r];
    } else {
      assert rs[..r] == rs;
    }
  }

  /** The font as built by gr_init_font. */
  class GrFont {
    var count: nat
    var unicodemap: seq<nat>
    var cwidth: array<byte>
    var cheight: array<byte>
    var fontdata: seq<array<byte>>
    var ascent: nat

    /** gr_init_font: every glyph bitmap holds the decoded runs at its
        positions and 0 past the last run, and the widths and heights are
        those of its size class truncated to unsigned char. */
    constructor Init(f: FontSource)
      requires WellFormed(f) && |Pixels(f)| <= Capacity(f)
      ensures count == f.count && unicodemap == f.unicodemap && ascent == f.cheight
      ensures |fontdata| == count && cwidth.Length == count && cheight.Length == count
      ensures ValidView(View())
      ensures fresh(cwidth) && fresh(cheight) && cwidth != cheight
      ensures forall g | 0 <= g < count :: fresh(fontdata[g])
      ensures Distinct(fontdata)
      ensures forall g | 0 <= g < count ::
        cwidth[g] == SizeOf(g, f.ewidth, f.cwidth) && cheight[g] == SizeOf(g, f.eheight, f.cheight)
      ensures forall g | 0 <= g < count :: fontdata[g].Length == GlyphSize(f, g)
      ensures forall g, p | 0 <= g < count && 0 <= p < fontdata[g].Length ::
        fontdata[g][p] == Cell(f, g, p)
    {
      var data, width, height := AllocGlyphs(f);
      DecodeRuns(f, data);
      count := f.count;
      unicodemap := f.unicodemap;
      cwidth := width;
      cheight := height;
      fontdata := data;
      ascent := f.cheight;
    }

    /** What text drawing reads of the font. */
    function View(): FontView
      reads this, cwidth, cheight
    {
      FontView(count, unicodemap, cwidth[..], cheight[..], ascent)
    }
  }

  // ---------------------------------------------------------------------
  // getCharID and gr_measure
  // ---------------------------------------------------------------------

  /** The parts of the font that text drawing reads. */
  datatype FontView = FontView(count: nat, unicodemap: seq<nat>, cwidth: seq<byte>, cheight: seq<byte>, ascent: nat)

  predicate ValidView(f: FontView) {
    1 <= f.count <= |f.unicodemap| && |f.cwidth| == f.count && |f.cheight| == f.count
  }

  /** A C string: its bytes up to, not including, the terminating NUL. */
  predicate CString(s: seq<byte>) {
    forall i | 0 <= i < |s| :: s[i] != 0
  }

  /** The first index at or after i below count whose code point is cp, or count. */
  function FirstMatch(umap: seq<nat>, count: nat, cp: int, i: nat): (r: nat)
    requires count <= |umap| && i <= count
    ensures i <= r <= count
    ensures r < count ==> umap[r] == cp
    ensures forall j | i <= j < r :: umap[j] != cp
    decreases count - i
  {
    if i == count then count
    else if umap[i] == cp then i
    else FirstMatch(umap, count, cp, i + 1)
  }

  /** The glyph of code point cp: the first glyph mapped to it, or glyph 0. */
  function CharId(umap: seq<nat>, count: nat, cp: int): (r: nat)
    requires count <= |umap|
    ensures count >= 1 ==> r < count
    ensures (exists i | 0 <= i < count :: umap[i] == cp) ==>
      r < count && umap[r] == cp && forall j | 0 <= j < r :: umap[j] != cp
    ensures (forall i | 0 <= i < count :: umap[i] != cp) ==> r == 0
  {
    var m := FirstMatch(umap, count, cp, 0);
    if m < count then m else 0
  }

  /** getCharID(s): the code point decoded from the front of the C string s
      into `unicode`, whose previous content `stale` stays when decoding
      fails, then a scan of the glyph map. */
  method GetCharId(f: FontView, s: seq<byte>, stale: int) returns (id: nat)
    requires ValidView(f) && CString(s)
    ensures id == CharId(f.unicodemap, f.count, Decode(stale, s + [0], |s|).wc)
  {
    var ret, unicode := Utf8MbToWc(stale, s + [0], |s|);
    var i := 0;
    while i < f.count
      invariant 0 <= i <= f.count
      invariant forall j | 0 <= j < i :: f.unicodemap[j] != unicode
    {
      if unicode == f.unicodemap[i] {
        return i;
      }
      i := i + 1;
    }
    return 0;
  }

  /** gr_measure(s): the width of the glyph of the first character of s, or
      0 when that character does not decode. */
  function GrMeasure(f: FontView, s: seq<byte>): (w: nat)
    requires ValidView(f) && CString(s)
    ensures w != 0 ==> Decode(0, s + [0], |s|).ret > 0
    ensures w == 0 || exists g | 0 <= g < f.count :: w == f.cwidth[g]
  {
    var r := Decode(0, s + [0], |s|);
    if r.ret <= 0 then 0 else f.cwidth[CharId(f.unicodemap, f.count, r.wc)]
  }

  /** gr_measure measures the first character only: whatever follows the
      shortest encoding of v, the result is the width of v's glyph. */
  lemma MeasureFirstOnly(f: FontView, v: nat, k: nat, rest: seq<byte>)
    requires ValidView(f) && 1 <= k <= 6 && MinValue(k) <= v <= MaxValue(k)
    requires CString(Encode(v, k) + rest)
    ensures GrMeasure(f, Encode(v, k) + rest) == f.cwidth[CharId(f.unicodemap, f.count, v)]
  {
    var s := Encode(v, k) + rest;
    assert s + [0] == Encode(v, k) + (rest + [0]);
    DecodeEncode(0, v, k, rest + [0], |s|);
  }

  /** The empty string is measured as the NUL character: the decoder takes
      the terminator as a one-byte character of value 0. */
  lemma MeasureEmpty(f: FontView)
    requires ValidView(f)
    ensures GrMeasure(f, []) == f.cwidth[CharId(f.unicodemap, f.count, 0)]
  {
    DecodeAscii(0, [0], 0);
  }

  /** A string that starts with a continuation byte measures 0. */
  lemma MeasureStray(f: FontView, rest: seq<byte>)
    requires ValidView(f) && CString([0x80] + rest)
    ensures GrMeasure(f, [0x80] + rest) == 0
  {
  }
}
