/**
 * The UTF-8 decoder of the minimal UI toolkit (utf8_mbtowc): one code point
 * is decoded from the front of a byte sequence with the classic table of
 * 1- to 6-byte forms (the original UTF-8 definition of section 2 of RFC 2279,
 * not the 4-byte limit of RFC 3629). Surrogates and values above 0x10FFFF are
 * accepted; overlong forms are refused.
 *
 * The table-driven loop (Utf8MbToWc) is proved equal to a declarative
 * reading of the format (Decode). About Decode the round trip with the
 * shortest encoding (both directions), the error cases and the bounds are
 * proved.
 *
 * Values are unbounded integers. The source's accumulator is a 32-bit
 * wchar_t whose left shifts can push the lead byte's marker bits past bit
 * 31; every row's lmask clears all bits from bit 31 up, so the unbounded
 * accumulator gives the same masked value.
 */
module Utf8 {
  import opened Bits

  /** What one call produces: the return value and the content of `*p` afterwards. */
  datatype MbResult = MbResult(ret: int, wc: int)

  datatype Option<T> = None | Some(value: T)

  /** One row of the decoding table; `shift` is carried but not used by the decoder. */
  datatype Row = Row(cmask: nat, cval: nat, shift: nat, lmask: nat, lval: nat)

  /** The table, ending in the all-zero row that stops the loop. */
  const Table: seq<Row> := [
    Row(0x80, 0x00, 0 * 6, 0x7F, 0),
    Row(0xE0, 0xC0, 1 * 6, 0x7FF, 0x80),
    Row(0xF0, 0xE0, 2 * 6, 0xFFFF, 0x800),
    Row(0xF8, 0xF0, 3 * 6, 0x1FFFFF, 0x10000),
    Row(0xFC, 0xF8, 4 * 6, 0x3FFFFFF, 0x200000),
    Row(0xFE, 0xFC, 5 * 6, 0x7FFFFFFF, 0x4000000),
    Row(0, 0, 0, 0, 0)
  ]

  // ---------------------------------------------------------------------
  // Declarative reading of the format
  // ---------------------------------------------------------------------

  /** The length a lead byte announces, 1..6, or 7 when it announces none
      (a continuation byte 0x80..0xBF, or 0xFE, 0xFF). */
  function SeqLen(b: byte): (k: nat)
    ensures 1 <= k <= 7
  {
    if b < 0x80 then 1
    else if b < 0xC0 then 7
    else if b < 0xE0 then 2
    else if b < 0xF0 then 3
    else if b < 0xF8 then 4
    else if b < 0xFC then 5
    else if b < 0xFE then 6
    else 7
  }

  /** A continuation byte has the top two bits 10. */
  predicate IsCont(b: byte) {
    0x80 <= b < 0xC0
  }

  /** Payload bits in the lead byte of a k-byte form. */
  function LeadBits(k: nat): nat
    requires 1 <= k <= 6
  {
    match k
    case 1 => 7
    case 2 => 5
    case 3 => 4
    case 4 => 3
    case 5 => 2
    case _ => 1
  }

  /** The fixed high bits of the lead byte of a k-byte form: 0x00, 0xC0, 0xE0,
      0xF0, 0xF8 and 0xFC. */
  function Marker(k: nat): int
    requires 1 <= k <= 6
  {
    256 - 2 * Pow2(LeadBits(k))
  }

  /** The largest value a k-byte form can carry: 7, 11, 16, 21, 26 and 31
      payload bits respectively. */
  function MaxValue(k: nat): nat
    requires 1 <= k <= 6
  {
    Pow2(LeadBits(k) + 6 * (k - 1)) - 1
  }

  /** The smallest value a k-byte form may carry: one more than the largest
      value of the next shorter form, so that every value has one shortest form. */
  function MinValue(k: nat): nat
    requires 1 <= k <= 6
  {
    if k == 1 then 0 else MaxValue(k - 1) + 1
  }

  /** The lead byte's payload followed by the low six bits of s[1], ..., s[j]. */
  function Payload(s: seq<byte>, k: nat, j: nat): nat
    requires 1 <= k <= 6 && j < |s|
  {
    if j == 0 then s[0] % Pow2(LeadBits(k))
    else Payload(s, k, j - 1) * 64 + s[j] % 64
  }

  /** The value carried by the k-byte form at the front of s. */
  function Value(s: seq<byte>, k: nat): nat
    requires 1 <= k <= 6 && k <= |s|
  {
    Payload(s, k, k - 1)
  }

  /** Scans positions j..last: the first position where the input runs out
      (n <= j gives 0) or the byte is not a continuation byte (gives -j). */
  function Fault(s: seq<byte>, n: int, j: nat, last: nat): (r: Option<int>)
    requires n <= |s|
    ensures r.None? ==> j > last || last < n
    ensures r.Some? ==> -(last as int) <= r.value <= 0
    decreases last + 1 - j
  {
    if j > last then None
    else if n <= j then Some(0)
    else if !IsCont(s[j]) then Some(-(j as int))
    else Fault(s, n, j + 1, last)
  }

  /** Number of bytes after the lead that are examined: k - 1, or 6 when the
      lead announces no length. */
  function Reads(b: byte): nat {
    var k := SeqLen(b);
    if k <= 6 then k - 1 else 6
  }

  /** The meaning of utf8_mbtowc(p, s, n) where *p holds p0: the return value
      and the new *p, which changes only on success. */
  function Decode(p0: int, s: seq<byte>, n: int): MbResult
    requires 1 <= |s| && n <= |s|
  {
    var k := SeqLen(s[0]);
    match Fault(s, n, 1, Reads(s[0]))
    case Some(e) => MbResult(e, p0)
    case None => if k == 7 then MbResult(-6, p0) else Complete(p0, Value(s, k), k)
  }

  /** The end of a decode whose k bytes, holding the value v, were all there:
      an overlong form is refused with -k, anything else is accepted. */
  function Complete(p0: int, v: nat, k: nat): MbResult
    requires 1 <= k <= 6
  {
    if v < MinValue(k) then MbResult(-(k as int), p0) else MbResult(k, v)
  }

  // ---------------------------------------------------------------------
  // The shortest encoding, the partner of Decode
  // ---------------------------------------------------------------------

  /** The k-byte form of v split as a lead byte and m continuation bytes,
      the last m six-bit groups of v going into the continuation bytes. */
  function EncodeWith(k: nat, v: nat, m: nat): (r: seq<byte>)
    requires 1 <= k <= 6 && v < Pow2(LeadBits(k) + 6 * m)
    ensures |r| == m + 1
  {
    if m == 0 then
      LeadFacts(k);
      [Marker(k) + v]
    else
      Pow2Six(LeadBits(k) + 6 * (m - 1));
      EncodeWith(k, v / 64, m - 1) + [0x80 + v % 64]
  }

  /** The k-byte form of v. */
  function Encode(v: nat, k: nat): (r: seq<byte>)
    requires 1 <= k <= 6 && v <= MaxValue(k)
    ensures |r| == k
  {
    EncodeWith(k, v, k - 1)
  }

  /** The marker of a k-byte form and the range of lead bytes it starts. */
  lemma LeadFacts(k: nat)
    requires 1 <= k <= 6
    ensures 2 <= Pow2(LeadBits(k)) <= 128
    ensures forall b: byte :: SeqLen(b) == k <==> Marker(k) <= b < Marker(k) + Pow2(LeadBits(k))
  {
    if k == 1 {
      assert LeadBits(k) == 7 && Pow2(7) == 128;
    } else if k == 2 {
      assert LeadBits(k) == 5 && Pow2(5) == 32;
    } else if k == 3 {
      assert LeadBits(k) == 4 && Pow2(4) == 16;
    } else if k == 4 {
      assert LeadBits(k) == 3 && Pow2(3) == 8;
    } else if k == 5 {
      assert LeadBits(k) == 2 && Pow2(2) == 4;
    } else {
      assert LeadBits(k) == 1 && Pow2(1) == 2;
    }
  }

  lemma Pow2Six(x: nat)
    ensures Pow2(x + 6) == 64 * Pow2(x)
  {
    Pow2Add(x, 6);
  }

  /** A lead byte keeps its marker above its payload bits. */
  lemma LeadSplit(b: byte, k: nat)
    requires 1 <= k <= 6 && SeqLen(b) == k
    ensures b == Marker(k) + b % Pow2(LeadBits(k))
  {
    LeadFacts(k);
    var p := Pow2(LeadBits(k));
    assert Marker(k) == (256 / p - 2) * p by {
      if k == 1 {} else if k == 2 {} else if k == 3 {} else if k == 4 {} else if k == 5 {} else {}
    }
    DivModUnique(b, p, 256 / p - 2, b - Marker(k));
  }

  /** The bytes of an encoding with anything after them: the lead announces k,
      the others are continuation bytes, and their payload is v. */
  lemma {:induction false} EncodeWithBytes(k: nat, v: nat, m: nat, rest: seq<byte>)
    requires 1 <= k <= 6 && v < Pow2(LeadBits(k) + 6 * m)
    ensures var s := EncodeWith(k, v, m) + rest;
      SeqLen(s[0]) == k && (forall j | 1 <= j <= m :: IsCont(s[j])) && Payload(s, k, m) == v
  {
    if m == 0 {
      EncodeLead(k, v, rest);
    } else {
      Pow2Six(LeadBits(k) + 6 * (m - 1));
      var c: byte := 0x80 + v % 64;
      var s := EncodeWith(k, v, m) + rest;
      var s' := EncodeWith(k, v / 64, m - 1) + ([c] + rest);
      assert s == s';
      EncodeWithBytes(k, v / 64, m - 1, [c] + rest);
      assert s[m] == c;
    }
  }

  /** A one-byte prefix of an encoding is the lead byte. */
  lemma EncodeLead(k: nat, v: nat, rest: seq<byte>)
    requires 1 <= k <= 6 && v < Pow2(LeadBits(k))
    ensures var s := EncodeWith(k, v, 0) + rest;
      SeqLen(s[0]) == k && Payload(s, k, 0) == v
  {
    var s := EncodeWith(k, v, 0) + rest;
    LeadFacts(k);
    LeadSplit(s[0], k);
    DivModUnique(v, Pow2(LeadBits(k)), 0, v);
  }

  /** Positions from..last are all present and all continuation bytes, so the scan finds nothing. */
  lemma {:induction false} FaultNone(s: seq<byte>, n: int, from: nat, last: nat)
    requires n <= |s| && last < n
    requires forall j | from <= j <= last :: IsCont(s[j])
    ensures Fault(s, n, from, last) == None
    decreases last + 1 - from
  {
    if from <= last {
      FaultNone(s, n, from + 1, last);
    }
  }

  /** Round trip: the shortest k-byte form of v, followed by anything, decodes
      to v with length k once the caller allows k bytes. */
  lemma DecodeEncode(p: int, v: nat, k: nat, rest: seq<byte>, n: int)
    requires 1 <= k <= 6 && MinValue(k) <= v <= MaxValue(k)
    requires k <= n <= k + |rest|
    ensures Decode(p, Encode(v, k) + rest, n) == MbResult(k, v)
  {
    var s := Encode(v, k) + rest;
    EncodeWithBytes(k, v, k - 1, rest);
    FaultNone(s, n, 1, k - 1);
    assert SeqLen(s[0]) == k && Value(s, k) == v;
    Completed(p, s, n, k);
  }

  /** A lead announcing k bytes, no fault in the k - 1 after it and a value
      that is not overlong make a successful decode. */
  lemma Completed(p: int, s: seq<byte>, n: int, k: nat)
    requires 1 <= k <= 6 && k <= |s| && n <= |s| && SeqLen(s[0]) == k
    requires Fault(s, n, 1, k - 1) == None && MinValue(k) <= Value(s, k)
    ensures Decode(p, s, n) == MbResult(k, Value(s, k))
  {
  }

  /** The first m + 1 bytes of a k-byte form are the encoding of their payload. */
  lemma {:induction false} PayloadEncodes(s: seq<byte>, k: nat, m: nat)
    requires 1 <= k <= 6 && m < |s| && SeqLen(s[0]) == k
    requires forall j | 1 <= j <= m :: IsCont(s[j])
    ensures Payload(s, k, m) < Pow2(LeadBits(k) + 6 * m)
    ensures s[..m + 1] == EncodeWith(k, Payload(s, k, m), m)
  {
    if m == 0 {
      LeadSplit(s[0], k);
    } else {
      PayloadEncodes(s, k, m - 1);
      PayloadStep(s, k, m);
    }
  }

  /** The inductive step of PayloadEncodes: one more continuation byte. */
  lemma PayloadStep(s: seq<byte>, k: nat, m: nat)
    requires 1 <= k <= 6 && 0 < m < |s| && IsCont(s[m])
    requires Payload(s, k, m - 1) < Pow2(LeadBits(k) + 6 * (m - 1))
    requires s[..m] == EncodeWith(k, Payload(s, k, m - 1), m - 1)
    ensures Payload(s, k, m) < Pow2(LeadBits(k) + 6 * m)
    ensures s[..m + 1] == EncodeWith(k, Payload(s, k, m), m)
  {
    Pow2Six(LeadBits(k) + 6 * (m - 1));
    var v := Payload(s, k, m);
    assert v / 64 == Payload(s, k, m - 1) && v % 64 == s[m] % 64;
    assert s[..m + 1] == s[..m] + [s[m]];
  }

  /** Converse of the round trip: whatever Decode accepts is the shortest
      encoding of the value it returns. */
  lemma DecodeAccepts(p: int, s: seq<byte>, n: int)
    requires 1 <= |s| && n <= |s|
    requires Decode(p, s, n).ret > 0
    ensures var r := Decode(p, s, n);
      r.ret <= |s| && 0 <= r.wc && MinValue(r.ret) <= r.wc <= MaxValue(r.ret) &&
      s[..r.ret] == Encode(r.wc, r.ret)
  {
    var k := SeqLen(s[0]);
    Accepted(p, s, n);
    FaultAllCont(s, n, 1, k - 1);
    PayloadEncodes(s, k, k - 1);
  }

  /** What a successful decode is made of: a lead announcing k bytes, no
      fault in the k - 1 after it, and a value that is not overlong. */
  lemma Accepted(p: int, s: seq<byte>, n: int)
    requires 1 <= |s| && n <= |s|
    requires Decode(p, s, n).ret > 0
    ensures var k := SeqLen(s[0]);
      k <= 6 && Reads(s[0]) == k - 1 && Fault(s, n, 1, k - 1) == None &&
      MinValue(k) <= Value(s, k) && Decode(p, s, n) == MbResult(k, Value(s, k))
  {
  }

  /** When the scan finds nothing, every position it covered is a present continuation byte. */
  lemma {:induction false} FaultAllCont(s: seq<byte>, n: int, from: nat, last: nat)
    requires n <= |s| && Fault(s, n, from, last) == None
    ensures forall j | from <= j <= last :: j < n && IsCont(s[j])
    decreases last + 1 - from
  {
    if from <= last {
      FaultAllCont(s, n, from + 1, last);
    }
  }

  /** The scan stops with 0 exactly when the input runs out before a
      non-continuation byte is met. */
  lemma {:induction false} FaultZero(s: seq<byte>, n: int, from: nat, last: nat)
    requires n <= |s| && from >= 1
    ensures Fault(s, n, from, last) == Some(0) <==>
      from <= last && n <= last && forall j | from <= j < n :: IsCont(s[j])
    decreases last + 1 - from
  {
    if from <= last && n > from {
      FaultZero(s, n, from + 1, last);
    }
  }

  /** A byte below 0x80 is itself, whatever the caller says about n. */
  lemma DecodeAscii(p: int, s: seq<byte>, n: int)
    requires 1 <= |s| && n <= |s| && s[0] < 0x80
    ensures Decode(p, s, n) == MbResult(1, s[0])
  {
    DivModUnique(s[0], 128, 0, s[0]);
  }

  /** The form is cut short by n: the lead byte announces more than one byte
      and the input ends before the announced length is read or a
      non-continuation byte is met. */
  predicate Truncated(s: seq<byte>, n: int)
    requires 1 <= |s| && n <= |s|
  {
    SeqLen(s[0]) > 1 && n <= Reads(s[0]) && forall j | 1 <= j < n :: IsCont(s[j])
  }

  /** The return value is 0 exactly for a truncated form. */
  lemma DecodeZero(p: int, s: seq<byte>, n: int)
    requires 1 <= |s| && n <= |s|
    ensures Decode(p, s, n).ret == 0 <==> Truncated(s, n)
  {
    FaultZero(s, n, 1, Reads(s[0]));
  }

  /** The previous content of *p decides nothing but the value left there on
      failure: the return value, and the decoded value on success, are the
      same whatever *p held. */
  lemma DecodeOldValue(p: int, q: int, s: seq<byte>, n: int)
    requires 1 <= |s| && n <= |s|
    ensures Decode(p, s, n).ret == Decode(q, s, n).ret
    ensures Decode(p, s, n).ret > 0 ==> Decode(p, s, n).wc == Decode(q, s, n).wc
  {
  }

  /** Bounds: the return value lies in -6..6, *p changes only on success, a
      success returns the announced length, which fits in the n bytes unless
      it is a single byte. */
  lemma DecodeBounds(p: int, s: seq<byte>, n: int)
    requires 1 <= |s| && n <= |s|
    ensures var r := Decode(p, s, n);
      -6 <= r.ret <= 6 &&
      (r.ret <= 0 ==> r.wc == p) &&
      (r.ret > 0 ==> r.ret == SeqLen(s[0]) && (r.ret == 1 || r.ret <= n))
  {
  }

  /** An overlong form is refused with minus its length: 0xC0 0x80 would
      carry 0 in two bytes. */
  lemma DecodeOverlong(p: int)
    ensures Decode(p, [0xC0, 0x80], 2) == MbResult(-2, p)
  {
    assert Value([0xC0, 0x80], 2) == 0;
  }

  /** A three-byte lead followed by one continuation byte and then a letter
      is refused at position 2. */
  lemma DecodeBadContinuation(p: int)
    ensures Decode(p, [0xE4, 0xB8, 0x41], 3) == MbResult(-2, p)
  {
    var s: seq<byte> := [0xE4, 0xB8, 0x41];
    assert SeqLen(s[0]) == 3 && IsCont(s[1]) && !IsCont(s[2]);
    assert Fault(s, 3, 1, 2) == Fault(s, 3, 2, 2) == Some(-2);
  }

  // ---------------------------------------------------------------------
  // The table-driven decoder
  // ---------------------------------------------------------------------

  /** The loop's accumulator after j continuation bytes: the whole lead byte
      followed by the six low bits of each continuation byte. */
  function Raw(s: seq<byte>, j: nat): nat
    requires j < |s|
  {
    if j == 0 then s[0] else Raw(s, j - 1) * 64 + s[j] % 64
  }

  /** Only the last row of the table, the end marker, has a zero cmask. */
  lemma TableEnd(t: nat)
    requires t <= 6
    ensures (Table[t].cmask == 0) == (t == 6)
  {
  }

  /** Row t is the row of (t + 1)-byte forms: its masks are the marker and
      payload masks of that form, and its lval is the form's smallest value. */
  lemma RowFacts(t: nat)
    requires t < 6
    ensures Table[t].cmask == 256 - Pow2(LeadBits(t + 1))
    ensures Table[t].cval == Marker(t + 1)
    ensures Table[t].lmask == Pow2(LeadBits(t + 1) + 6 * t) - 1 == MaxValue(t + 1)
    ensures Table[t].lval == MinValue(t + 1)
  {
    Pow2Values();
    LeadFacts(t + 1);
  }

  /** Row t of the table matches lead byte b exactly when b announces t + 1 bytes. */
  lemma RowMatches(t: nat, b: byte)
    requires t < 6
    ensures Table[t].cmask != 0
    ensures (And(b, Table[t].cmask) == Table[t].cval) <==> SeqLen(b) == t + 1
  {
    RowFacts(t);
    LeadFacts(t + 1);
    assert Pow2(8) == 256;
    AndHigh(b, 8, LeadBits(t + 1));
    if SeqLen(b) == t + 1 {
      LeadSplit(b, t + 1);
    }
  }

  /** One continuation step of the loop: `(*s ^ 0x80) & 0xFF` has bit 7 or
      bit 6 set exactly when the byte is not a continuation byte, and is the
      byte's low six bits when it is one. */
  lemma ContStep(b: byte)
    ensures var c := And(Xor(b, 0x80), 0xFF);
      c < 256 && (And(c, 0xC0) != 0 <==> !IsCont(b)) && (IsCont(b) ==> c == b % 64)
  {
    FlipTop(b);
    var c := (b + 0x80) % 256;
    HighTwo(c);
    if IsCont(b) {
      DivModUnique(b + 0x80, 256, 1, b - 0x80);
      DivModUnique(b, 64, 2, b - 0x80);
    } else if b < 0x80 {
      DivModUnique(b + 0x80, 256, 0, b + 0x80);
    } else {
      DivModUnique(b + 0x80, 256, 1, b - 0x80);
    }
  }

  /** `(b ^ 0x80) & 0xFF` flips the top bit of a byte. */
  lemma FlipTop(b: byte)
    ensures And(Xor(b, 0x80), 0xFF) == (b + 0x80) % 256
  {
    Pow2Values();
    XorTop(b, 7);
    var x := Xor(b, 0x80);
    AndLow(x, 8);
    DivModUnique(x, 256, 0, x);
  }

  /** `c & 0xC0` is zero exactly for a byte below 64. */
  lemma HighTwo(c: nat)
    requires c < 256
    ensures And(c, 0xC0) != 0 <==> c >= 64
  {
    Pow2Values();
    AndHigh(c, 8, 6);
    if c < 64 {
      DivModUnique(c, 64, 0, c);
    } else if c < 128 {
      DivModUnique(c, 64, 1, c - 64);
    } else if c < 192 {
      DivModUnique(c, 64, 2, c - 128);
    } else {
      DivModUnique(c, 64, 3, c - 192);
    }
  }

  /** Masking the accumulator with the payload bits of a k-byte form after j
      continuation bytes leaves exactly the payload. */
  lemma {:induction false} RawPayload(s: seq<byte>, k: nat, j: nat)
    requires 1 <= k <= 6 && j < |s|
    ensures Raw(s, j) % Pow2(LeadBits(k) + 6 * j) == Payload(s, k, j)
  {
    if j > 0 {
      RawPayload(s, k, j - 1);
      Pow2Six(LeadBits(k) + 6 * (j - 1));
      ShiftInMod(Raw(s, j - 1), s[j] % 64, Pow2(LeadBits(k) + 6 * (j - 1)));
    }
  }

  /** When row t matches, the masked accumulator is the value of the form
      and the row's lval its minimum, so the loop's answer is Decode's. */
  lemma RowDecodes(p: int, s: seq<byte>, n: int, t: nat)
    requires 1 <= |s| && n <= |s| && t < 6
    requires SeqLen(s[0]) == t + 1 && (t > 0 ==> t < n)
    requires forall j | 1 <= j <= t :: IsCont(s[j])
    requires Fault(s, n, 1, Reads(s[0])) == Fault(s, n, t + 1, Reads(s[0]))
    ensures And(Raw(s, t), Table[t].lmask) == Value(s, t + 1)
    ensures Table[t].lval == MinValue(t + 1)
    ensures Decode(p, s, n) == Complete(p, Value(s, t + 1), t + 1)
  {
    RowFacts(t);
    AndLow(Raw(s, t), LeadBits(t + 1) + 6 * t);
    RawPayload(s, t + 1, t);
  }

  /** Shifting a continuation byte's low bits into the accumulator extends Raw. */
  lemma ShiftIn(s: seq<byte>, t: nat, c: nat)
    requires t + 1 < |s| && c == s[t + 1] % 64
    ensures Or(Raw(s, t) * 64, c) == Raw(s, t + 1)
  {
    Pow2Values();
    OrShifted(Raw(s, t), c, 6);
  }

  /** Decode once the scan stopped at position j. */
  lemma DecodeStopped(p: int, s: seq<byte>, n: int, j: nat)
    requires 1 <= |s| && n <= |s| && 1 <= j <= Reads(s[0])
    requires Fault(s, n, 1, Reads(s[0])) == Fault(s, n, j, Reads(s[0]))
    requires n <= j || !IsCont(s[j])
    ensures Decode(p, s, n) == MbResult(if n <= j then 0 else -(j as int), p)
  {
  }

  /** A continuation byte at t + 1, when the lead announces more than t + 1
      bytes, moves the scan on by one position. */
  lemma ScanOn(s: seq<byte>, n: int, t: nat)
    requires 1 <= |s| && n <= |s| && t < 6 && SeqLen(s[0]) > t + 1
    requires t + 1 < n && IsCont(s[t + 1])
    requires forall j | 1 <= j <= t :: IsCont(s[j])
    requires Fault(s, n, 1, Reads(s[0])) == Fault(s, n, t + 1, Reads(s[0]))
    ensures forall j | 1 <= j <= t + 1 :: IsCont(s[j])
    ensures Fault(s, n, 1, Reads(s[0])) == Fault(s, n, t + 2, Reads(s[0]))
  {
  }

  /** utf8_mbtowc: `p` is the content of *p on entry, `s` the memory from the
      pointer on, `n` the number of bytes the caller says are there. */
  method Utf8MbToWc(p: int, s: seq<byte>, n: int) returns (ret: int, p': int)
    requires 1 <= |s| && n <= |s|
    ensures MbResult(ret, p') == Decode(p, s, n)
  {
    var nc := 0;
    var c0: nat := s[0];
    var l: nat := c0;
    var t := 0;
    while Table[t].cmask != 0
      invariant 0 <= t <= 6 && nc == t
      invariant (Table[t].cmask == 0) == (t == 6)
      invariant SeqLen(s[0]) > t
      invariant t > 0 ==> t < n
      invariant forall j | 1 <= j <= t :: IsCont(s[j])
      invariant l == Raw(s, t)
      invariant Fault(s, n, 1, Reads(s[0])) == Fault(s, n, t + 1, Reads(s[0]))
      decreases 6 - t
    {
      var row := Table[t];
      nc := nc + 1;
      RowMatches(t, s[0]);
      if And(c0, row.cmask) == row.cval {
        RowDecodes(p, s, n, t);
        l := And(l, row.lmask);
        if l < row.lval {
          return -nc, p;
        }
        return nc, l;
      }
      if n <= nc {
        DecodeStopped(p, s, n, nc);
        return 0, p;
      }
      var c := And(Xor(s[nc], 0x80), 0xFF);
      ContStep(s[nc]);
      if And(c, 0xC0) != 0 {
        DecodeStopped(p, s, n, nc);
        return -nc, p;
      }
      ShiftIn(s, t, c);
      ScanOn(s, n, t);
      l := Or(l * 64, c);
      t := t + 1;
      TableEnd(t);
    }
    return -nc, p;
  }
}
