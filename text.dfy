/*
 * gr_text: the cursor loop that walks a C string, skips control bytes,
 * decodes one UTF-8 character at a time, looks its glyph up and draws the
 * glyph bitmap as a textured rectangle, advancing the pen by the glyph's
 * width.
 *
 * The rendering calls into the pixel pipeline are kept as a trace: one
 * Rect per drawn glyph, carrying the glyph index whose bitmap is bound as
 * the texture and the rectangle handed to the rectangle fill.
 */
module Text {
  import opened Bits
  import opened Utf8
  import opened Font

  /** A textured rectangle: glyph `glyph` drawn over [x1, x2) x [y1, y2). */
  datatype Rect = Rect(glyph: nat, x1: int, y1: int, x2: int, y2: int)

  /** What drawing a string leaves: the rectangles in drawing order and the
      pen position that gr_text returns. */
  datatype Drawn = Drawn(rects: seq<Rect>, x: int)

  /** The byte at the cursor is a control byte that the loop steps over. */
  predicate Control(b: byte) { b < 0x20 }

  /** The decoder's verdict on the character at the cursor i of s: the
      decoder is handed the rest of the string, terminator included, and its
      strlen. */
  function DecodeAt(s: seq<byte>, i: nat): MbResult
    requires i < |s|
  {
    Decode(0, s[i..] + [0], |s[i..]|)
  }

  /** The decoder's verdicts at the cursors i, i + 1, ... of s. */
  function Verdicts(s: seq<byte>, i: nat): (v: seq<MbResult>)
    requires i <= |s|
    ensures |v| == |s| - i
    decreases |s| - i
  {
    if i == |s| then [] else [DecodeAt(s, i)] + Verdicts(s, i + 1)
  }

  lemma {:induction false} VerdictAt(s: seq<byte>, i: nat, k: nat)
    requires i <= k < |s|
    ensures Verdicts(s, i)[k - i] == DecodeAt(s, k)
    decreases k - i
  {
    if i < k {
      VerdictAt(s, i + 1, k);
    }
  }

  /** A table of verdicts, one per byte of s, none of which claims a
      character reaching past the end of s. */
  predicate Fits(s: seq<byte>, v: seq<MbResult>) {
    |v| == |s| && forall k | 0 <= k < |s| :: v[k].ret > 0 ==> k + v[k].ret <= |s|
  }

  /** The decoder never claims bytes past the terminator. */
  lemma VerdictsFit(s: seq<byte>)
    ensures Fits(s, Verdicts(s, 0))
  {
    forall k | 0 <= k < |s|
      ensures Verdicts(s, 0)[k].ret > 0 ==> k + Verdicts(s, 0)[k].ret <= |s|
    {
      VerdictAt(s, 0, k);
      DecodeBounds(0, s[k..] + [0], |s[k..]|);
    }
  }

  /** At a byte below 0x80 the verdict is a one-byte character of that value. */
  lemma VerdictAscii(s: seq<byte>, k: nat)
    requires k < |s| && s[k] < 0x80
    ensures Verdicts(s, 0)[k] == MbResult(1, s[k])
  {
    VerdictAt(s, 0, k);
    DecodeAscii(0, s[k..] + [0], |s[k..]|);
  }

  /** The drawing of s from cursor i with the pen at (x, y), y being the top
      of the glyph cells, given the decoder's verdict at each cursor: a
      control byte is stepped over, a character that decodes is drawn with
      the glyph of its code point and stepped over whole, and a character
      that does not decode ends the text. */
  function Layout(f: FontView, s: seq<byte>, v: seq<MbResult>, i: nat, x: int, y: int): Drawn
    requires ValidView(f) && Fits(s, v) && i <= |s|
    decreases |s| - i
  {
    if i == |s| then Drawn([], x)
    else if Control(s[i]) then Layout(f, s, v, i + 1, x, y)
    else if v[i].ret <= 0 then Drawn([], x)
    else
      var g := CharId(f.unicodemap, f.count, v[i].wc);
      var rest := Layout(f, s, v, i + v[i].ret, x + f.cwidth[g], y);
      Drawn([Rect(g, x, y, x + f.cwidth[g], y + f.cheight[g])] + rest.rects, rest.x)
  }

  /** The drawing at a character that decodes: its glyph's cell at the pen,
      then the rest of the string with the pen advanced by the glyph width. */
  lemma LayoutDraws(f: FontView, s: seq<byte>, v: seq<MbResult>, i: nat, x: int, y: int)
    requires ValidView(f) && Fits(s, v) && i < |s| && !Control(s[i]) && v[i].ret > 0
    ensures var g := CharId(f.unicodemap, f.count, v[i].wc);
      var rest := Layout(f, s, v, i + v[i].ret, x + f.cwidth[g], y);
      Layout(f, s, v, i, x, y) == Drawn([Rect(g, x, y, x + f.cwidth[g], y + f.cheight[g])] + rest.rects, rest.x)
  {
  }

  /** What gr_text draws for the C string s with the pen at (x, y). */
  function Drawing(f: FontView, s: seq<byte>, x: int, y: int): Drawn
    requires ValidView(f) && CString(s)
  {
    VerdictsFit(s);
    Layout(f, s, Verdicts(s, 0), 0, x, y)
  }

  /** What the loop learns at a printable byte: the decoder, run with
      whatever `unicode` and `ch` held before, gives the verdict of the
      table, and getCharID the glyph of the verdict's code point. */
  lemma CursorVerdict(f: FontView, s: seq<byte>, i: nat, stale: int, n: int, ch: int, off: nat)
    requires ValidView(f) && i < |s|
    requires MbResult(n, ch) == Decode(stale, s[i..] + [0], |s[i..]|)
    requires off == CharId(f.unicodemap, f.count, Decode(stale, s[i..] + [0], |s[i..]|).wc)
    ensures Verdicts(s, 0)[i].ret == n
    ensures n > 0 ==> off == CharId(f.unicodemap, f.count, Verdicts(s, 0)[i].wc)
  {
    VerdictAt(s, 0, i);
    DecodeOldValue(stale, 0, s[i..] + [0], |s[i..]|);
  }

  /** The two calls gr_text makes at a printable byte: getCharID(s) for the
      glyph, then utf8_mbtowc(&ch, s, strlen(s)) for the length. Both see
      whatever their uninitialised outputs held, `stale`; the results are the
      verdict of the table at i and, when it is a success, the glyph of its
      code point. */
  method ReadChar(f: FontView, s: seq<byte>, i: nat, stale: int) returns (n: int, off: nat)
    requires ValidView(f) && CString(s) && i < |s|
    ensures off < f.count
    ensures n == Verdicts(s, 0)[i].ret
    ensures n > 0 ==> off == CharId(f.unicodemap, f.count, Verdicts(s, 0)[i].wc)
  {
    off := GetCharId(f, s[i..], stale);
    var ch;
    n, ch := Utf8MbToWc(stale, s[i..] + [0], |s[i..]|);
    CursorVerdict(f, s, i, stale, n, ch, off);
  }

  /** gr_text(x, y, s): the pen starts at x shifted by the horizontal
      overscan offset, and the glyph tops at y shifted by the vertical
      overscan offset and raised by the font's ascent. `stale` is what the
      uninitialised locals of getCharID and gr_text hold before the decoder
      writes them; the result does not depend on it. */
  method GrText(f: FontView, x: int, y: int, s: seq<byte>, overscanX: int, overscanY: int, stale: int)
    returns (xEnd: int, rects: seq<Rect>)
    requires ValidView(f) && CString(s)
    ensures Drawn(rects, xEnd) == Drawing(f, s, x + overscanX, y + overscanY - f.ascent)
  {
    var px := x + overscanX;
    var py := y + overscanY - f.ascent;
    ghost var v := Verdicts(s, 0);
    VerdictsFit(s);
    ghost var whole := Layout(f, s, v, 0, px, py);
    var i := 0;
    rects := [];
    while i < |s|
      invariant 0 <= i <= |s|
      invariant whole.rects == rects + Layout(f, s, v, i, px, py).rects
      invariant whole.x == Layout(f, s, v, i, px, py).x
      decreases |s| - i
    {
      if s[i] < 0x20 {
        i := i + 1;
        continue;
      }
      var n, off := ReadChar(f, s, i, stale);
      if n <= 0 {
        break;
      }
      var width := f.cwidth[off];
      var height := f.cheight[off];
      ghost var rest := Layout(f, s, v, i + n, px + width, py);
      var here := Rect(off, px, py, px + width, py + height);
      LayoutDraws(f, s, v, i, px, py);
      assert rects + ([here] + rest.rects) == (rects + [here]) + rest.rects;
      rects := rects + [here];
      i := i + n;
      px := px + width;
    }
    xEnd := px;
  }

  // ---------------------------------------------------------------------
  // What a drawing looks like
  // ---------------------------------------------------------------------

  /** The sum of the rectangles' widths. */
  function Advance(rs: seq<Rect>): int {
    if rs == [] then 0 else (rs[0].x2 - rs[0].x1) + Advance(rs[1..])
  }

  /** Every rectangle is its glyph's cell on the pen's line: its glyph is a
      glyph of the font, its top is y, and its width and height are the
      glyph's. */
  lemma {:induction false} LayoutCells(f: FontView, s: seq<byte>, v: seq<MbResult>, i: nat, x: int, y: int)
    requires ValidView(f) && Fits(s, v) && i <= |s|
    ensures var d := Layout(f, s, v, i, x, y);
      forall k | 0 <= k < |d.rects| ::
        d.rects[k].glyph < f.count &&
        d.rects[k].y1 == y && d.rects[k].y2 == y + f.cheight[d.rects[k].glyph] &&
        d.rects[k].x2 == d.rects[k].x1 + f.cwidth[d.rects[k].glyph]
    decreases |s| - i
  {
    if i < |s| {
      if Control(s[i]) {
        LayoutCells(f, s, v, i + 1, x, y);
        assert Layout(f, s, v, i, x, y) == Layout(f, s, v, i + 1, x, y);
      } else if v[i].ret > 0 {
        var g := CharId(f.unicodemap, f.count, v[i].wc);
        LayoutCells(f, s, v, i + v[i].ret, x + f.cwidth[g], y);
        LayoutDraws(f, s, v, i, x, y);
        var rest := Layout(f, s, v, i + v[i].ret, x + f.cwidth[g], y);
        var d := Layout(f, s, v, i, x, y);
        assert forall k | 1 <= k < |d.rects| :: d.rects[k] == rest.rects[k - 1];
      }
    }
  }

  /** The rectangles follow one another left to right without gap or
      overlap: the first starts at the pen, each starts where the previous
      one ends, and the returned pen is where the last one ends (where it
      started when nothing is drawn). */
  lemma {:induction false} LayoutAbuts(f: FontView, s: seq<byte>, v: seq<MbResult>, i: nat, x: int, y: int)
    requires ValidView(f) && Fits(s, v) && i <= |s|
    ensures var d := Layout(f, s, v, i, x, y);
      (forall k | 0 <= k < |d.rects| - 1 :: d.rects[k].x2 == d.rects[k + 1].x1) &&
      (d.rects == [] ==> d.x == x) &&
      (d.rects != [] ==> d.rects[0].x1 == x && d.x == d.rects[|d.rects| - 1].x2)
    decreases |s| - i
  {
    if i < |s| {
      if Control(s[i]) {
        LayoutAbuts(f, s, v, i + 1, x, y);
      } else if v[i].ret > 0 {
        var g := CharId(f.unicodemap, f.count, v[i].wc);
        LayoutAbuts(f, s, v, i + v[i].ret, x + f.cwidth[g], y);
        LayoutDraws(f, s, v, i, x, y);
        var rest := Layout(f, s, v, i + v[i].ret, x + f.cwidth[g], y);
        var d := Layout(f, s, v, i, x, y);
        assert forall k | 1 <= k < |d.rects| :: d.rects[k] == rest.rects[k - 1];
      }
    }
  }

  /** The returned pen is the start plus the sum of the drawn widths. */
  lemma {:induction false} LayoutAdvance(f: FontView, s: seq<byte>, v: seq<MbResult>, i: nat, x: int, y: int)
    requires ValidView(f) && Fits(s, v) && i <= |s|
    ensures Layout(f, s, v, i, x, y).x == x + Advance(Layout(f, s, v, i, x, y).rects)
    decreases |s| - i
  {
    if i < |s| {
      if Control(s[i]) {
        LayoutAdvance(f, s, v, i + 1, x, y);
      } else if v[i].ret > 0 {
        var g := CharId(f.unicodemap, f.count, v[i].wc);
        LayoutAdvance(f, s, v, i + v[i].ret, x + f.cwidth[g], y);
        LayoutDraws(f, s, v, i, x, y);
        var rest := Layout(f, s, v, i + v[i].ret, x + f.cwidth[g], y);
        assert Layout(f, s, v, i, x, y).rects[1..] == rest.rects;
      }
    }
  }

  /** A string of control bytes draws nothing and leaves the pen where it was. */
  lemma {:induction false} LayoutControls(f: FontView, s: seq<byte>, v: seq<MbResult>, i: nat, x: int, y: int)
    requires ValidView(f) && Fits(s, v) && i <= |s|
    requires forall k | i <= k < |s| :: s[k] < 0x20
    ensures Layout(f, s, v, i, x, y) == Drawn([], x)
    decreases |s| - i
  {
    if i < |s| {
      LayoutControls(f, s, v, i + 1, x, y);
    }
  }

  /** Printable ASCII is drawn byte by byte: one rectangle per byte, holding
      the glyph mapped to that byte's value. */
  lemma {:induction false} LayoutAscii(f: FontView, s: seq<byte>, i: nat, x: int, y: int)
    requires ValidView(f) && i <= |s|
    requires forall k | i <= k < |s| :: 0x20 <= s[k] < 0x80
    ensures Fits(s, Verdicts(s, 0))
    ensures var d := Layout(f, s, Verdicts(s, 0), i, x, y);
      |d.rects| == |s| - i &&
      forall k | 0 <= k < |d.rects| :: d.rects[k].glyph == CharId(f.unicodemap, f.count, s[i + k])
    decreases |s| - i
  {
    VerdictsFit(s);
    var v := Verdicts(s, 0);
    if i < |s| {
      VerdictAscii(s, i);
      var g := CharId(f.unicodemap, f.count, s[i]);
      LayoutAscii(f, s, i + 1, x + f.cwidth[g], y);
      var rest := Layout(f, s, v, i + 1, x + f.cwidth[g], y);
      var d := Layout(f, s, v, i, x, y);
      assert d.rects == [Rect(g, x, y, x + f.cwidth[g], y + f.cheight[g])] + rest.rects;
      forall k | 0 <= k < |d.rects|
        ensures d.rects[k].glyph == CharId(f.unicodemap, f.count, s[i + k])
      {
        if k > 0 {
          assert d.rects[k] == rest.rects[k - 1];
        }
      }
    }
  }

  /** gr_measure gives the width of the first glyph gr_text draws for a
      string that starts with a printable byte, and 0 exactly when gr_text
      draws nothing for it. */
  lemma DrawingMeasure(f: FontView, s: seq<byte>, x: int, y: int)
    requires ValidView(f) && CString(s) && |s| > 0 && s[0] >= 0x20
    ensures var d := Drawing(f, s, x, y);
      (d.rects != [] ==> d.rects[0].x2 - d.rects[0].x1 == GrMeasure(f, s)) &&
      (d.rects == [] ==> GrMeasure(f, s) == 0)
  {
    VerdictAt(s, 0, 0);
    assert s[0..] == s;
  }

  /** Drawing a concatenation: when the first part holds only printable
      ASCII and control bytes, the second part is drawn after it with the
      pen where the first part left it. */
  lemma {:induction false} LayoutAppend(f: FontView, a: seq<byte>, b: seq<byte>, i: nat, x: int, y: int)
    requires ValidView(f) && i <= |a|
    requires forall k | i <= k < |a| :: 0x20 <= a[k] < 0x80 || a[k] < 0x20
    ensures Fits(a, Verdicts(a, 0)) && Fits(a + b, Verdicts(a + b, 0))
    ensures var d1 := Layout(f, a, Verdicts(a, 0), i, x, y);
      var d2 := Layout(f, a + b, Verdicts(a + b, 0), |a|, d1.x, y);
      Layout(f, a + b, Verdicts(a + b, 0), i, x, y) == Drawn(d1.rects + d2.rects, d2.x)
    decreases |a| - i
  {
    var s := a + b;
    VerdictsFit(a);
    VerdictsFit(s);
    if i < |a| {
      assert s[i] == a[i];
      if a[i] < 0x20 {
        LayoutAppend(f, a, b, i + 1, x, y);
      } else {
        VerdictAscii(s, i);
        VerdictAscii(a, i);
        var g := CharId(f.unicodemap, f.count, a[i]);
        LayoutAppend(f, a, b, i + 1, x + f.cwidth[g], y);
      }
    }
  }

  // ---------------------------------------------------------------------
  // The loop as written
  // ---------------------------------------------------------------------

  /** One pass of gr_text's loop as intended: the cursor after the byte or
      character at i, or None where the loop leaves. The cursor only moves
      forward and never past the end of the string, so the loop ends. */
  function Step(s: seq<byte>, i: nat): (r: Option<nat>)
    requires i < |s|
    ensures r.Some? ==> i < r.value <= |s|
    ensures r.None? <==> !Control(s[i]) && DecodeAt(s, i).ret <= 0
  {
    if Control(s[i]) then Some(i + 1)
    else
      var ret := DecodeAt(s, i).ret;
      DecodeBounds(0, s[i..] + [0], |s[i..]|);
      if ret <= 0 then None else Some(i + ret)
  }

  /** Layout walks the string by Step: where Step leaves, nothing more is
      drawn, and otherwise the rest of the drawing starts at Step's cursor. */
  lemma LayoutSteps(f: FontView, s: seq<byte>, i: nat, x: int, y: int)
    requires ValidView(f) && i < |s|
    ensures Fits(s, Verdicts(s, 0))
    ensures Step(s, i).None? ==> Layout(f, s, Verdicts(s, 0), i, x, y) == Drawn([], x)
    ensures Step(s, i).Some? && Control(s[i]) ==>
      Layout(f, s, Verdicts(s, 0), i, x, y) == Layout(f, s, Verdicts(s, 0), Step(s, i).value, x, y)
    ensures Step(s, i).Some? && !Control(s[i]) ==>
      var d := Layout(f, s, Verdicts(s, 0), i, x, y);
      d.rects != [] &&
      var rest := Layout(f, s, Verdicts(s, 0), Step(s, i).value, d.rects[0].x2, y);
      d.rects[1..] == rest.rects && d.x == rest.x
  {
    VerdictsFit(s);
    VerdictAt(s, 0, i);
    LayoutStep(f, s, Verdicts(s, 0), i, x, y);
  }

  /** One step of Layout over any table of verdicts: a control byte is passed
      over, a failing verdict ends the drawing, and a character that decodes
      puts its rectangle first and the drawing after it next. */
  lemma LayoutStep(f: FontView, s: seq<byte>, v: seq<MbResult>, i: nat, x: int, y: int)
    requires ValidView(f) && Fits(s, v) && i < |s|
    ensures !Control(s[i]) && v[i].ret <= 0 ==> Layout(f, s, v, i, x, y) == Drawn([], x)
    ensures Control(s[i]) ==> Layout(f, s, v, i, x, y) == Layout(f, s, v, i + 1, x, y)
    ensures !Control(s[i]) && v[i].ret > 0 ==>
      var d := Layout(f, s, v, i, x, y);
      d.rects != [] &&
      var rest := Layout(f, s, v, i + v[i].ret, d.rects[0].x2, y);
      d.rects[1..] == rest.rects && d.x == rest.x
  {
    if !Control(s[i]) && v[i].ret > 0 {
      var g := CharId(f.unicodemap, f.count, v[i].wc);
      var rest := Layout(f, s, v, i + v[i].ret, x + f.cwidth[g], y);
      assert Layout(f, s, v, i, x, y).rects[1..] == rest.rects;
    }
  }

  /** One pass of gr_text's loop as written, on a 32-bit target: the
      decoder's result is stored in an unsigned variable, so the `n <= 0`
      test only catches 0, and a negative result, read as 2^32 + ret, is
      added to the string pointer, whose sum wraps around at 2^32. The result is the
      new cursor as an offset from the start of s, or None when the loop
      leaves. A step that lands d bytes before the start of s is the wrapped
      pointer, the offset 2^32 - d, which lies past the end of s. */
  function StepAsWritten(s: seq<byte>, i: nat): (r: Option<nat>)
    requires i < |s| < 0x1_0000_0000
    ensures r.None? <==> !Control(s[i]) && DecodeAt(s, i).ret == 0
  {
    if Control(s[i]) then Some(i + 1)
    else
      var ret := DecodeAt(s, i).ret;
      var n := if ret < 0 then ret + 0x1_0000_0000 else ret;
      if n <= 0 then None
      else if i + n < 0x1_0000_0000 then Some(i + n)
      else Some(i + n - 0x1_0000_0000)
  }

  /** Where the character decodes, or is a control byte, the loop as
      written steps exactly as the corrected one does. */
  lemma StepAsWrittenAgrees(s: seq<byte>, i: nat)
    requires i < |s| < 0x1_0000_0000
    requires Control(s[i]) || DecodeAt(s, i).ret > 0
    ensures StepAsWritten(s, i) == Step(s, i)
  {
    DecodeBounds(0, s[i..] + [0], |s[i..]|);
  }

  /** "A", then a lead byte 0xC3 followed by '(' instead of a continuation
      byte: as written, the cursor goes 0 -> 1 -> 0 and the loop never ends,
      drawing "A" over and over; the corrected loop draws "A" once and stops. */
  lemma StepAsWrittenCycles(f: FontView, x: int, y: int)
    requires ValidView(f)
    ensures StepAsWritten([0x41, 0xC3, 0x28], 0) == Some(1)
    ensures StepAsWritten([0x41, 0xC3, 0x28], 1) == Some(0)
    ensures Step([0x41, 0xC3, 0x28], 1) == None
    ensures |Drawing(f, [0x41, 0xC3, 0x28], x, y).rects| == 1
  {
    var s: seq<byte> := [0x41, 0xC3, 0x28];
    DecodeAscii(0, s[0..] + [0], |s[0..]|);
    var t := s[1..] + [0];
    assert t == [0xC3, 0x28, 0];
    assert SeqLen(0xC3) == 2 && Reads(0xC3) == 1 && !IsCont(0x28);
    assert Fault(t, 2, 1, 1) == Some(-1);
    assert DecodeAt(s, 1).ret == -1;
    VerdictsFit(s);
    VerdictAt(s, 0, 0);
    VerdictAt(s, 0, 1);
  }
}
