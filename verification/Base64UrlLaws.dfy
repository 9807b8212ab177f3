/** What base64url.c is for: the encoding is the RFC 4648 bit regrouping, and decoding undoes it. */
module Base64UrlLaws {
  import opened CTypes
  import opened Base64Url

  // ---------- the reference: strings of bits ----------

  /** The bit of the given weight, as in value >> weight & 1. */
  function Bit(value: nat, weight: nat): nat {
    if weight == 0 then value % 2 else Bit(value / 2, weight - 1)
  }

  /** Bit p of x, most significant bit of the first byte first. */
  function ByteBit(x: seq<byte>, p: nat): nat
    requires p < 8 * |x|
  {
    Bit(x[p / 8], 7 - p % 8)
  }

  /** Bit p of the concatenated 6-bit groups v. */
  function SextetBit(v: seq<sextet>, p: nat): nat
    requires p < 6 * |v|
  {
    Bit(v[p / 6], 5 - p % 6)
  }

  function Pow2(k: nat): (r: nat)
    ensures r > 0
  {
    if k == 0 then 1 else 2 * Pow2(k - 1)
  }

  /** Disjoint bit fields add up without carries. */
  lemma {:induction false} BitOfFields(high: nat, low: nat, k: nat, w: nat)
    requires low < Pow2(k)
    ensures Bit(high * Pow2(k) + low, w) == if w < k then Bit(low, w) else Bit(high, w - k)
    decreases k
  {
    if k > 0 {
      var p := high * Pow2(k - 1);
      assert high * Pow2(k) == 2 * p;
      assert (2 * p + low) / 2 == p + low / 2 && (2 * p + low) % 2 == low % 2;
      if w > 0 {
        BitOfFields(high, low / 2, k - 1, w - 1);
      }
    }
  }

  /** A number below 2^n is determined by its n low bits. */
  lemma {:induction false} BitsDetermine(a: nat, b: nat, n: nat)
    requires a < Pow2(n) && b < Pow2(n)
    requires forall w :: 0 <= w < n ==> Bit(a, w) == Bit(b, w)
    ensures a == b
  {
    if n > 0 {
      assert Bit(a, 0) == Bit(b, 0);
      forall w | 0 <= w < n - 1 ensures Bit(a / 2, w) == Bit(b / 2, w) {
        assert Bit(a, w + 1) == Bit(b, w + 1);
      }
      BitsDetermine(a / 2, b / 2, n - 1);
    }
  }

  /** A byte string is determined by its bits. */
  lemma BytesDetermined(x: seq<byte>, y: seq<byte>)
    requires |x| == |y|
    requires forall p :: 0 <= p < 8 * |x| ==> ByteBit(x, p) == ByteBit(y, p)
    ensures x == y
  {
    forall m | 0 <= m < |x| ensures x[m] == y[m] {
      forall w | 0 <= w < 8 ensures Bit(x[m], w) == Bit(y[m], w) {
        var p := 8 * m + 7 - w;
        assert p / 8 == m && p % 8 == 7 - w;
        assert ByteBit(x, p) == ByteBit(y, p);
      }
      assert Pow2(8) == 256;
      BitsDetermine(x[m], y[m], 8);
    }
  }

  /** So is a string of 6-bit groups. */
  lemma SextetsDetermined(v: seq<sextet>, u: seq<sextet>)
    requires |v| == |u|
    requires forall p :: 0 <= p < 6 * |v| ==> SextetBit(v, p) == SextetBit(u, p)
    ensures v == u
  {
    forall k | 0 <= k < |v| ensures v[k] == u[k] {
      forall w | 0 <= w < 6 ensures Bit(v[k], w) == Bit(u[k], w) {
        var p := 6 * k + 5 - w;
        assert p / 6 == k && p % 6 == 5 - w;
        assert SextetBit(v, p) == SextetBit(u, p);
      }
      assert Pow2(6) == 64;
      BitsDetermine(v[k], u[k], 6);
    }
  }

  /** BitOfFields with the two, four or six low bits that the codec cuts a byte at. */
  lemma Join2(high: nat, low: nat, w: nat)
    requires low < 4
    ensures Bit(high * 4 + low, w) == if w < 2 then Bit(low, w) else Bit(high, w - 2)
  {
    assert Pow2(2) == 4;
    BitOfFields(high, low, 2, w);
  }

  lemma Join4(high: nat, low: nat, w: nat)
    requires low < 16
    ensures Bit(high * 16 + low, w) == if w < 4 then Bit(low, w) else Bit(high, w - 4)
  {
    assert Pow2(4) == 16;
    BitOfFields(high, low, 4, w);
  }

  lemma Join6(high: nat, low: nat, w: nat)
    requires low < 64
    ensures Bit(high * 64 + low, w) == if w < 6 then Bit(low, w) else Bit(high, w - 6)
  {
    assert Pow2(6) == 64;
    BitOfFields(high, low, 6, w);
  }

  /** The bits of three bytes are the bits of their four quarters. */
  lemma QuarterBits(b0: byte, b1: byte, b2: byte, r: nat, w: nat)
    requires r < 4 && w < 6
    ensures Bit(Quarter(b0, b1, b2, r), w) ==
            if r == 0 then Bit(b0, w + 2)
            else if r == 1 then if w < 4 then Bit(b1, w + 4) else Bit(b0, w - 4)
            else if r == 2 then if w < 2 then Bit(b2, w + 6) else Bit(b1, w - 2)
            else Bit(b2, w)
  {
    if r == 0 {
      Join2(b0 / 4, b0 % 4, w + 2);
    } else if r == 1 {
      Join4(b0 % 4, b1 / 16, w);
      if w < 4 { Join4(b1 / 16, b1 % 16, w + 4); } else { Join2(b0 / 4, b0 % 4, w - 4); }
    } else if r == 2 {
      Join2(b1 % 16, b2 / 64, w);
      if w < 2 { Join6(b2 / 64, b2 % 64, w + 6); } else { Join4(b1 / 16, b1 % 16, w - 2); }
    } else {
      Join6(b2 / 64, b2 % 64, w);
    }
  }

  /** The bits of a byte put together by the decoder. */
  lemma ByteAtBits(v: seq<sextet>, m: nat, w: nat)
    requires m < DecodedLength(|v|) && w < 8
    ensures var k := m / 3 * 4;
            Bit(ByteAt(v, m), w) ==
            if m % 3 == 0 then if w < 2 then Bit(v[k + 1], w + 4) else Bit(v[k], w - 2)
            else if m % 3 == 1 then if w < 4 then Bit(v[k + 2], w + 2) else Bit(v[k + 1], w - 4)
            else if w < 6 then Bit(v[k + 3], w) else Bit(v[k + 2], w - 6)
  {
    var k := m / 3 * 4;
    if m % 3 == 0 {
      Join2(v[k], v[k + 1] / 16, w);
      Join4(v[k + 1] / 16, v[k + 1] % 16, w + 4);
    } else if m % 3 == 1 {
      Join4(v[k + 1] % 16, v[k + 2] / 4, w);
      if w < 4 { Join2(v[k + 2] / 4, v[k + 2] % 4, w + 2); } else { Join4(v[k + 1] / 16, v[k + 1] % 16, w - 4); }
    } else {
      Join6(v[k + 2] % 4, v[k + 3], w);
      if w >= 6 { Join2(v[k + 2] / 4, v[k + 2] % 4, w - 6); }
    }
  }

  /** The same place among 24 bits, counted in sixes and in eights. */
  lemma SixesAndEights(o: nat)
    requires o < 24
    ensures o / 6 == (if o < 6 then 0 else if o < 12 then 1 else if o < 18 then 2 else 3)
    ensures 5 - o % 6 == (if o < 6 then 5 else if o < 12 then 11 else if o < 18 then 17 else 23) - o
    ensures 7 - o % 8 == (if o < 8 then 7 else if o < 16 then 15 else 23) - o
  {
  }

  /** Bit o of three bytes is bit o of their four quarters. */
  lemma GroupBits(b0: byte, b1: byte, b2: byte, o: nat)
    requires o < 24
    ensures Bit(Quarter(b0, b1, b2, o / 6), 5 - o % 6) ==
            Bit(if o < 8 then b0 else if o < 16 then b1 else b2, 7 - o % 8)
  {
    SixesAndEights(o);
    QuarterBits(b0, b1, b2, o / 6, 5 - o % 6);
  }

  lemma Position(q: nat, o: nat)
    requires o < 24
    ensures (24 * q + o) / 8 == 3 * q + o / 8 && (24 * q + o) % 8 == o % 8
    ensures (24 * q + o) / 6 == 4 * q + o / 6 && (24 * q + o) % 6 == o % 6
    ensures (4 * q + o / 6) / 4 == q && (4 * q + o / 6) % 4 == o / 6
    ensures (3 * q + o / 8) / 3 == q && (3 * q + o / 8) % 3 == o / 8
  {
  }

  /** Bit p of x, or a zero bit past its end. */
  function BitOrZero(x: seq<byte>, p: nat): nat {
    Bit(ByteOrZero(x, p / 8), 7 - p % 8)
  }

  lemma SextetAtBits(x: seq<byte>, q: nat, o: nat)
    requires o < 24
    ensures Bit(SextetAt(x, 4 * q + o / 6), 5 - o % 6) == BitOrZero(x, 24 * q + o)
  {
    Position(q, o);
    GroupBits(ByteOrZero(x, 3 * q), ByteOrZero(x, 3 * q + 1), ByteOrZero(x, 3 * q + 2), o);
  }

  lemma {:induction false} ZeroBits(w: nat)
    ensures Bit(0, w) == 0
  {
    if w > 0 { ZeroBits(w - 1); }
  }

  lemma BitOrZeroCases(x: seq<byte>, p: nat)
    ensures BitOrZero(x, p) == if p < 8 * |x| then ByteBit(x, p) else 0
  {
    ZeroBits(7 - p % 8);
  }

  /** RFC 4648: the 6-bit groups of x are its bits in order, padded with zero bits on the right. */
  lemma EncodeKeepsBits(x: seq<byte>, p: nat)
    requires p < 6 * |Sextets(x)|
    ensures SextetBit(Sextets(x), p) == if p < 8 * |x| then ByteBit(x, p) else 0
  {
    var q, o := p / 24, p % 24;
    assert p == 24 * q + o;
    Position(q, o);
    assert Sextets(x)[p / 6] == SextetAt(x, 4 * q + o / 6);
    SextetAtBits(x, q, o);
    BitOrZeroCases(x, p);
  }

  /** The decoded bytes are the bits of the 6-bit groups in order, cut to whole bytes. */
  lemma RegroupKeepsBits(v: seq<sextet>, p: nat)
    requires p < 8 * |Regroup(v)|
    ensures p < 6 * |v| && ByteBit(Regroup(v), p) == SextetBit(v, p)
  {
    var m, w := p / 8, 7 - p % 8;
    assert 8 * m + 7 - w == p;
    assert Regroup(v)[m] == ByteAt(v, m);
    ByteAtBits(v, m, w);
  }

  // ---------- the laws ----------

  lemma LengthsAgree(n: nat)
    ensures DecodedLength(EncodedLength(n)) == n
    ensures 6 * EncodedLength(n) >= 8 * n && 6 * EncodedLength(n) < 8 * n + 6
    ensures EncodedLength(n) % 4 == if n % 3 == 0 then 0 else n % 3 + 1
    ensures EncodedLength(n) == (4 * n + 2) / 3
  {
  }

  /** v is the least string of 6-bit groups whose bits are those of x, then zeros. */
  predicate GroupsHold(v: seq<sextet>, x: seq<byte>) {
    8 * |x| <= 6 * |v| < 8 * |x| + 6 && forall p :: 0 <= p < 6 * |v| ==> SextetBit(v, p) == BitOrZero(x, p)
  }

  /** RFC 4648 as bit strings fixes the encoder's groups, and they meet it. */
  lemma SextetsExactly(x: seq<byte>, v: seq<sextet>)
    ensures GroupsHold(v, x) <==> v == Sextets(x)
  {
    LengthsAgree(|x|);
    forall p | 0 <= p < 6 * |Sextets(x)| ensures SextetBit(Sextets(x), p) == BitOrZero(x, p) {
      EncodeKeepsBits(x, p);
      BitOrZeroCases(x, p);
    }
    if GroupsHold(v, x) {
      SextetsDetermined(v, Sextets(x));
    }
  }

  /** x is the longest byte string whose bits begin those of v. */
  predicate BytesHold(x: seq<byte>, v: seq<sextet>) {
    8 * |x| <= 6 * |v| < 8 * |x| + 8 && forall p :: 0 <= p < 8 * |x| ==> ByteBit(x, p) == SextetBit(v, p)
  }

  /** And the decoder's bytes. */
  lemma RegroupExactly(v: seq<sextet>, x: seq<byte>)
    ensures BytesHold(x, v) <==> x == Regroup(v)
  {
    assert 8 * |Regroup(v)| <= 6 * |v| < 8 * |Regroup(v)| + 8;
    forall p | 0 <= p < 8 * |Regroup(v)| ensures ByteBit(Regroup(v), p) == SextetBit(v, p) {
      RegroupKeepsBits(v, p);
    }
    if BytesHold(x, v) {
      BytesDetermined(x, Regroup(v));
    }
  }

  /** Regrouping undoes grouping, since both keep the bits. */
  lemma RegroupUndoesSextets(x: seq<byte>)
    ensures Regroup(Sextets(x)) == x
  {
    LengthsAgree(|x|);
    forall p | 0 <= p < 8 * |x| ensures ByteBit(Regroup(Sextets(x)), p) == ByteBit(x, p) {
      RegroupKeepsBits(Sextets(x), p);
      EncodeKeepsBits(x, p);
    }
    BytesDetermined(Regroup(Sextets(x)), x);
  }

  lemma NoBitsPending(x: seq<byte>)
    requires |x| % 3 != 0
    ensures Pending(Sextets(x)) == 0
  {
  }

  /** The caller's change of alphabet: '-' to '+' and '_' to '/'. */
  function ToStandard(s: string): (r: string)
    ensures |r| == |s|
  {
    seq(|s|, k requires 0 <= k < |s| => if s[k] == '-' then '+' else if s[k] == '_' then '/' else s[k])
  }

  lemma AlphabetRoundTrip(v: sextet)
    ensures StandardValue(StandardChar(v)) == v
    ensures UrlChar(v) != '.' && UrlChar(v) != '=' && UrlChar(v) != '\0'
    ensures InAlphabet(UrlChar(v)) <==> v < 62
  {
  }

  lemma StandardText(x: seq<byte>)
    ensures forall k :: 0 <= k < |Sextets(x)| ==> ToStandard(Encode(x))[k] == StandardChar(Sextets(x)[k])
  {
  }

  /** Text in the standard alphabet whose values are v. */
  lemma DecodeWholeText(t: string, v: seq<sextet>)
    requires |t| == |v| && forall k :: 0 <= k < |t| ==> t[k] == StandardChar(v[k])
    ensures DecodeStatus(t) == BASE64_OK
    ensures DecodedCells(t) == Cells(v, |v| % 4 != 0)
  {
    forall k | 0 <= k < |t| ensures InAlphabet(t[k]) && StandardValue(t[k]) == v[k] {
      AlphabetRoundTrip(v[k]);
    }
    assert ValidPrefix(t) == |t|;
    assert t[..|t|] == t;
    assert Values(t) == v;
  }

  /** Every cell the decoder writes for the grouped bytes of x: x itself, then one zero if its last group is partial. */
  function Decoded(x: seq<byte>): seq<byte> {
    x + if |x| % 3 == 0 then [] else [0]
  }

  /** With the alphabet changed back, decoding recovers every byte string. */
  lemma RoundTripMapped(x: seq<byte>)
    ensures DecodeStatus(ToStandard(Encode(x))) == BASE64_OK
    ensures DecodedCells(ToStandard(Encode(x))) == Decoded(x)
  {
    var v := Sextets(x);
    StandardText(x);
    DecodeWholeText(ToStandard(Encode(x)), v);
    RegroupUndoesSextets(x);
    LengthsAgree(|x|);
    if |x| % 3 != 0 {
      NoBitsPending(x);
    }
  }

  // ---------- what is decoded from any text ----------

  /** The bits after the last whole byte of v are at the top of its pending byte, above zeros. */
  lemma PendingHolds(v: seq<sextet>, w: nat)
    requires |v| % 4 != 0 && w < 8
    ensures var p := 8 * DecodedLength(|v|) + w;
            Bit(Pending(v), 7 - w) == if p < 6 * |v| then SextetBit(v, p) else 0
  {
    var c: int := v[|v| - 1];
    var p := 8 * DecodedLength(|v|) + w;
    assert p < 6 * |v| ==> p / 6 == |v| - 1;
    if |v| % 4 == 1 {
      Join2(c, 0, 7 - w);
    } else if |v| % 4 == 2 {
      Join4(c % 16, 0, 7 - w);
      if w < 4 { Join4(c / 16, c % 16, 3 - w); }
    } else {
      Join6(c % 4, 0, 7 - w);
      if w < 2 { Join2(c / 4, c % 4, 1 - w); }
    }
    if w >= 2 { ZeroBits(7 - w); }
  }

  /** The cells are the bits of v in order: its whole bytes, and then, if `stored`, what is left above zeros. */
  predicate CellsHold(cells: seq<byte>, v: seq<sextet>, stored: bool) {
    && |cells| == DecodedLength(|v|) + (if stored then 1 else 0)
    && forall p :: 0 <= p < 8 * |cells| ==> ByteBit(cells, p) == if p < 6 * |v| then SextetBit(v, p) else 0
  }

  lemma BitOfAppended(x: seq<byte>, b: byte, p: nat)
    requires p < 8 * |x| + 8
    ensures ByteBit(x + [b], p) == if p < 8 * |x| then ByteBit(x, p) else Bit(b, 7 - (p - 8 * |x|))
  {
    if p >= 8 * |x| {
      assert p / 8 == |x| && p % 8 == p - 8 * |x|;
    }
  }

  lemma StoredKeepsBits(v: seq<sextet>, p: nat)
    requires |v| % 4 != 0 && p < 8 * |Regroup(v)| + 8
    ensures ByteBit(Regroup(v) + [Pending(v)], p) == if p < 6 * |v| then SextetBit(v, p) else 0
  {
    BitOfAppended(Regroup(v), Pending(v), p);
    if p < 8 * |Regroup(v)| {
      RegroupKeepsBits(v, p);
    } else {
      PendingHolds(v, p - 8 * |Regroup(v)|);
    }
  }

  lemma CellsKeepBits(v: seq<sextet>, stored: bool, p: nat)
    requires (stored ==> |v| % 4 != 0) && p < 8 * |Cells(v, stored)|
    ensures ByteBit(Cells(v, stored), p) == if p < 6 * |v| then SextetBit(v, p) else 0
  {
    if stored {
      StoredKeepsBits(v, p);
    } else {
      RegroupKeepsBits(v, p);
    }
  }

  lemma CellsExactly(v: seq<sextet>, stored: bool, cells: seq<byte>)
    requires stored ==> |v| % 4 != 0
    ensures CellsHold(cells, v, stored) <==> cells == Cells(v, stored)
  {
    forall p | 0 <= p < 8 * |Cells(v, stored)|
      ensures ByteBit(Cells(v, stored), p) == if p < 6 * |v| then SextetBit(v, p) else 0
    {
      CellsKeepBits(v, stored, p);
    }
    if CellsHold(cells, v, stored) {
      BytesDetermined(cells, Cells(v, stored));
    }
  }

  /** After p characters the text is padded to whole groups of four; that a second '=' is one is not looked at. */
  predicate FullyPadded(s: string, p: nat) {
    p < |s| && s[p] == '=' && p % 4 >= 2 && |s| == p + 4 - p % 4
  }

  /**
   * Whatever the text, padded or not: the cells that decoding assigns are the bits of the characters before the first
   * one that is not in the alphabet, in whole bytes; the bits left over are in one more cell, unless there are none
   * or the text is fully padded.
   */
  lemma DecodedExactly(s: string, cells: seq<byte>)
    ensures var p := ValidPrefix(s);
            CellsHold(cells, Values(s[..p]), p % 4 != 0 && !FullyPadded(s, p)) <==> cells == DecodedCells(s)
  {
    var p := ValidPrefix(s);
    CellsExactly(Values(s[..p]), StoresPending(s, p), cells);
  }

  /** RFC 4648 section 4: what completes the last group of four. */
  function Padding(n: nat): string {
    if n % 4 == 2 then "==" else if n % 4 == 3 then "=" else ""
  }

  /** With the padding that the encoder omits, decoding gives back exactly the bytes. */
  lemma PaddedRoundTrip(x: seq<byte>)
    ensures var s := ToStandard(Encode(x)) + Padding(|Encode(x)|);
            DecodeStatus(s) == BASE64_OK && DecodedCells(s) == x
  {
    var t, v := ToStandard(Encode(x)), Sextets(x);
    var s := t + Padding(|t|);
    StandardText(x);
    forall k | 0 <= k < |t| ensures InAlphabet(s[k]) && StandardValue(s[k]) == v[k] {
      AlphabetRoundTrip(v[k]);
    }
    assert !InAlphabet('=') && (|t| < |s| ==> s[|t|] == '=');
    assert ValidPrefix(s) == |t|;
    assert s[..|t|] == t && Values(t) == v;
    LengthsAgree(|x|);
    RegroupUndoesSextets(x);
  }

  /** Without it, decoding recovers x exactly when no 6-bit group of x is 62 or 63, and otherwise rejects the text. */
  lemma RoundTrip(x: seq<byte>)
    ensures (forall v :: v in Sextets(x) ==> v < 62) ==>
              DecodeStatus(Encode(x)) == BASE64_OK && DecodedCells(Encode(x)) == Decoded(x)
    ensures (exists v :: v in Sextets(x) && v >= 62) ==> DecodeStatus(Encode(x)) == BASE64_INVALID
  {
    var v, t := Sextets(x), Encode(x);
    if forall u :: u in v ==> u < 62 {
      forall k | 0 <= k < |t| ensures ToStandard(t)[k] == t[k] {
        assert v[k] in v;
      }
      assert ToStandard(t) == t;
      RoundTripMapped(x);
    } else {
      var k :| 0 <= k < |v| && v[k] >= 62;
      AlphabetRoundTrip(v[k]);
      assert !InAlphabet(t[k]);
      var p := ValidPrefix(t);
      AlphabetRoundTrip(v[p]);
    }
  }

  /** The shortest input that is rejected: its first group is 62, which is encoded as '-'. */
  lemma RoundTripFails()
    ensures DecodeStatus(Encode([0xFB])) == BASE64_INVALID
  {
    assert Sextets([0xFB])[0] == 62;
    RoundTrip([0xFB]);
  }

  lemma EncodeInjective(x: seq<byte>, y: seq<byte>)
    requires Encode(x) == Encode(y)
    ensures x == y
  {
    var t := ToStandard(Encode(x));
    RoundTripMapped(x);
    RoundTripMapped(y);
    LengthsAgree(|x|);
    LengthsAgree(|y|);
    assert x == Decoded(x)[..|x|] && y == Decoded(y)[..|y|];
  }

  lemma EncodeOne(a: byte)
    ensures Encode([a]) == [UrlChar(a / 4), UrlChar(a % 4 * 16)]
  {
    assert Quarter(a, 0, 0, 1) == a % 4 * 16;
  }

  lemma EncodeTwo(a: byte, b: byte)
    ensures Encode([a, b]) == [UrlChar(a / 4), UrlChar(a % 4 * 16 + b / 16), UrlChar(b % 16 * 4)]
  {
    assert Quarter(a, b, 0, 2) == b % 16 * 4;
  }

  lemma EncodeThree(a: byte, b: byte, c: byte)
    ensures Encode([a, b, c]) ==
            [UrlChar(a / 4), UrlChar(a % 4 * 16 + b / 16), UrlChar(b % 16 * 4 + c / 64), UrlChar(c % 64)]
  {
  }

  /** Section 10 of RFC 4648, and the two characters that the URL alphabet changes. */
  lemma TestVectors()
    ensures Encode([0x66]) == "Zg" && Encode([0x66, 0x6f, 0x6f]) == "Zm9v" && Encode([0xfb, 0xff]) == "-_8"
  {
    EncodeOne(0x66);
    EncodeThree(0x66, 0x6f, 0x6f);
    EncodeTwo(0xfb, 0xff);
  }

  lemma SextetOfAppend(x: seq<byte>, y: seq<byte>, q: nat, k: nat)
    requires |x| == 3 * q
    ensures k < 4 * q ==> SextetAt(x + y, k) == SextetAt(x, k)
    ensures k >= 4 * q ==> SextetAt(x + y, k) == SextetAt(y, k - 4 * q)
  {
    if k >= 4 * q {
      assert (k - 4 * q) / 4 == k / 4 - q && (k - 4 * q) % 4 == k % 4;
    }
  }

  /** Encoding splits at any multiple of three bytes. */
  lemma EncodeAppend(x: seq<byte>, y: seq<byte>)
    requires |x| % 3 == 0
    ensures Encode(x + y) == Encode(x) + Encode(y)
  {
    var q := |x| / 3;
    assert EncodedLength(|x|) == 4 * q && EncodedLength(|x + y|) == 4 * q + EncodedLength(|y|);
    forall k | 0 <= k < EncodedLength(|x + y|)
      ensures Encode(x + y)[k] == (Encode(x) + Encode(y))[k]
    {
      SextetOfAppend(x, y, q, k);
    }
  }

  /** The decoder accepts exactly the texts whose characters before the first padding are all in the alphabet. */
  lemma DecodeAcceptsExactly(s: string)
    ensures DecodeStatus(s) == BASE64_OK <==> forall k :: 0 <= k < FirstPad(s) ==> InAlphabet(s[k])
  {
  }

  /** No lone last group, and no left-over bits set. */
  predicate Canonical(v: seq<sextet>) {
    |v| % 4 != 1 && (|v| % 4 != 0 ==> Pending(v) == 0)
  }

  /** The bits past the last whole byte are those left pending. */
  lemma PendingBits(v: seq<sextet>, p: nat)
    requires 8 * DecodedLength(|v|) <= p < 6 * |v| && |v| % 4 >= 2 && Pending(v) == 0
    ensures SextetBit(v, p) == 0
  {
    var c: int := v[|v| - 1];
    assert p / 6 == |v| - 1;
    if |v| % 4 == 2 { Join4(c / 16, c % 16, 5 - p % 6); } else { Join2(c / 4, c % 4, 5 - p % 6); }
    ZeroBits(5 - p % 6);
  }

  lemma LengthsBack(n: nat)
    requires n % 4 != 1
    ensures EncodedLength(DecodedLength(n)) == n
  {
  }

  lemma SextetsOfRegroup(v: seq<sextet>)
    requires Canonical(v)
    ensures Sextets(Regroup(v)) == v
  {
    var x := Regroup(v);
    LengthsBack(|v|);
    forall p | 0 <= p < 6 * |v| ensures SextetBit(Sextets(x), p) == SextetBit(v, p) {
      EncodeKeepsBits(x, p);
      if p < 8 * |x| { RegroupKeepsBits(v, p); } else { PendingBits(v, p); }
    }
    SextetsDetermined(Sextets(x), v);
  }

  lemma CanonicalIsEncoding(s: string)
    requires (forall k :: 0 <= k < |s| ==> InAlphabet(s[k])) && Canonical(Values(s))
    ensures ToStandard(Encode(Regroup(Values(s)))) == s
  {
    var v := Values(s);
    var x := Regroup(v);
    SextetsOfRegroup(v);
    StandardText(x);
    forall k | 0 <= k < |s| ensures ToStandard(Encode(x))[k] == s[k] {
      assert Sextets(x)[k] == v[k] == StandardValue(s[k]);
    }
  }

  lemma EncodingIsCanonical(x: seq<byte>, s: string)
    requires (forall k :: 0 <= k < |s| ==> InAlphabet(s[k])) && ToStandard(Encode(x)) == s
    ensures Canonical(Values(s))
  {
    LengthsAgree(|x|);
    StandardText(x);
    forall k | 0 <= k < |s| ensures Values(s)[k] == Sextets(x)[k] {
      AlphabetRoundTrip(Sextets(x)[k]);
    }
    assert Values(s) == Sextets(x);
    if |x| % 3 != 0 { NoBitsPending(x); }
  }

  /** The texts over the standard alphabet that are encodings are the canonical ones. */
  lemma CanonicalText(s: string)
    requires forall k :: 0 <= k < |s| ==> InAlphabet(s[k])
    ensures (exists x :: ToStandard(Encode(x)) == s) <==> Canonical(Values(s))
  {
    if Canonical(Values(s)) {
      CanonicalIsEncoding(s);
    }
    forall x | ToStandard(Encode(x)) == s ensures Canonical(Values(s)) {
      EncodingIsCanonical(x, s);
    }
  }

  // ---------- the size macros of base64url.h ----------

  function EncodeOutSize(n: nat): nat {
    (n + 2) / 3 * 4
  }

  function DecodeOutSize(n: nat): nat {
    n / 4 * 3
  }

  /** The text and its NUL fit a buffer of the macro's size exactly when 3 does not divide the input length. */
  lemma EncodeOutSizeExact(n: nat)
    ensures EncodedLength(n) + 1 <= EncodeOutSize(n) <==> n % 3 != 0
    ensures EncodedLength(n) <= EncodeOutSize(n)
  {
  }

  /**
   * The assigned cells fit the macro's size exactly when the input is whole quartets
   * or its whole quartets are not all accepted together with the character after them.
   */
  lemma DecodeOutSizeExact(s: string)
    ensures |DecodedCells(s)| <= DecodeOutSize(|s|) <==>
            |s| % 4 == 0 || exists k :: 0 <= k <= |s| / 4 * 4 && !InAlphabet(s[k])
  {
  }

  /** Three bytes need a fifth cell for the NUL, and two unpadded characters assign two cells though none is counted. */
  lemma OutSizesTooSmall()
    ensures EncodedLength(3) + 1 > EncodeOutSize(3)
    ensures |DecodedCells("AA")| > DecodeOutSize(|"AA"|)
  {
    DecodeOutSizeExact("AA");
  }
}
