/** base64url.c as mathematics: its two tables, what encoding and decoding mean, and their laws. */
module Base64Url {
  import opened CTypes

  /** A 6-bit group. */
  type sextet = x: int | 0 <= x < 64

  datatype Status = BASE64_OK | BASE64_INVALID

  // ---------- alphabets ----------

  const EN: string :=
    "ABCDEFGH" + "IJKLMNOP" + "QRSTUVWX" + "YZabcdef" + "ghijklmn" + "opqrstuv" + "wxyz0123" + "456789-_"

  const DE: seq<int> :=
    [62, -1, -1, -1, 63, 52, 53, 54] +
    [55, 56, 57, 58, 59, 60, 61, -1] +
    [-1, -1, -1, -1, -1, -1, 0, 1] +
    [2, 3, 4, 5, 6, 7, 8, 9] +
    [10, 11, 12, 13, 14, 15, 16, 17] +
    [18, 19, 20, 21, 22, 23, 24, 25] +
    [-1, -1, -1, -1, -1, -1, 26, 27] +
    [28, 29, 30, 31, 32, 33, 34, 35] +
    [36, 37, 38, 39, 40, 41, 42, 43] +
    [44, 45, 46, 47, 48, 49, 50, 51]

  /** Table 1 of RFC 4648, by ranges. */
  function StandardChar(v: sextet): char {
    if v < 26 then (65 + v) as char
    else if v < 52 then (71 + v) as char
    else if v < 62 then (v - 4) as char
    else if v == 62 then '+' else '/'
  }

  /** Table 2 of RFC 4648, which differs from Table 1 at 62 and 63 only. */
  function UrlChar(v: sextet): char {
    if v == 62 then '-' else if v == 63 then '_' else StandardChar(v)
  }

  /** Table 1 of RFC 4648 read backwards, -1 outside its alphabet. */
  function StandardValue(c: char): (v: int)
    ensures -1 <= v < 64
    ensures 0 <= v ==> StandardChar(v) == c
  {
    if 'A' <= c <= 'Z' then c as int - 65
    else if 'a' <= c <= 'z' then c as int - 71
    else if '0' <= c <= '9' then c as int + 4
    else if c == '+' then 62
    else if c == '/' then 63
    else -1
  }

  predicate InAlphabet(c: char) {
    StandardValue(c) != -1
  }

  lemma EncodeTableIsUrlAlphabet(v: sextet)
    ensures |EN| == 64 && EN[v] == UrlChar(v)
  {
  }

  lemma DecodeTableIsStandardAlphabet(i: nat)
    requires i < 80
    ensures DE[i] == StandardValue((43 + i) as char)
  {
    match i
    case 0 => case 1 => case 2 => case 3 => case 4 => case 5 => case 6 => case 7 =>
    case 8 => case 9 => case 10 => case 11 => case 12 => case 13 => case 14 => case 15 =>
    case 16 => case 17 => case 18 => case 19 => case 20 => case 21 => case 22 => case 23 =>
    case 24 => case 25 => case 26 => case 27 => case 28 => case 29 => case 30 => case 31 =>
    case 32 => case 33 => case 34 => case 35 => case 36 => case 37 => case 38 => case 39 =>
    case 40 => case 41 => case 42 => case 43 => case 44 => case 45 => case 46 => case 47 =>
    case 48 => case 49 => case 50 => case 51 => case 52 => case 53 => case 54 => case 55 =>
    case 56 => case 57 => case 58 => case 59 => case 60 => case 61 => case 62 => case 63 =>
    case 64 => case 65 => case 66 => case 67 => case 68 => case 69 => case 70 => case 71 =>
    case 72 => case 73 => case 74 => case 75 => case 76 => case 77 => case 78 => case 79 =>
  }

  // ---------- encoding ----------

  /** The least number of 6-bit groups that hold n bytes: four for every three, and one more than any left over. */
  function EncodedLength(n: nat): nat {
    n / 3 * 4 + if n % 3 == 0 then 0 else n % 3 + 1
  }

  /** Byte m of x, or zero bits past its end. */
  function ByteOrZero(x: seq<byte>, m: nat): byte {
    if m < |x| then x[m] else 0
  }

  /** The r-th of the four 6-bit groups of three bytes. */
  function Quarter(b0: byte, b1: byte, b2: byte, r: nat): sextet
    requires r < 4
  {
    if r == 0 then b0 / 4
    else if r == 1 then b0 % 4 * 16 + b1 / 16
    else if r == 2 then b1 % 16 * 4 + b2 / 64
    else b2 % 64
  }

  /** The 6-bit group number k of x, with zero bits added past the end of x. */
  function SextetAt(x: seq<byte>, k: nat): sextet {
    var m := k / 4 * 3;
    Quarter(ByteOrZero(x, m), ByteOrZero(x, m + 1), ByteOrZero(x, m + 2), k % 4)
  }

  function Sextets(x: seq<byte>): (s: seq<sextet>)
    ensures |s| == EncodedLength(|x|)
  {
    seq(EncodedLength(|x|), k requires 0 <= k => SextetAt(x, k))
  }

  /** Unpadded base64url. */
  function Encode(x: seq<byte>): (text: string)
    ensures |text| == EncodedLength(|x|)
  {
    seq(EncodedLength(|x|), k requires 0 <= k => UrlChar(SextetAt(x, k)))
  }

  // ---------- decoding ----------

  /** How many leading characters of s belong to the standard alphabet. */
  function ValidPrefix(s: string): (p: nat)
    ensures p <= |s|
    ensures forall k :: 0 <= k < p ==> InAlphabet(s[k])
    ensures p < |s| ==> !InAlphabet(s[p])
  {
    if s == [] || !InAlphabet(s[0]) then 0 else 1 + ValidPrefix(s[1..])
  }

  /** The index of the first padding character, or the length of s. */
  function FirstPad(s: string): (p: nat)
    ensures p <= |s|
    ensures forall k :: 0 <= k < p ==> s[k] != '='
    ensures p < |s| ==> s[p] == '='
  {
    if s == [] || s[0] == '=' then 0 else 1 + FirstPad(s[1..])
  }

  function Values(s: string): (v: seq<sextet>)
    requires forall k :: 0 <= k < |s| ==> InAlphabet(s[k])
    ensures |v| == |s|
  {
    seq(|s|, k requires 0 <= k < |s| && InAlphabet(s[k]) => StandardValue(s[k]))
  }

  /** How many whole bytes n 6-bit groups hold. */
  function DecodedLength(n: nat): nat {
    n / 4 * 3 + if n % 4 == 0 then 0 else n % 4 - 1
  }

  /** Byte number m of the groups v. */
  function ByteAt(v: seq<sextet>, m: nat): byte
    requires m < DecodedLength(|v|)
  {
    var k := m / 3 * 4;
    var b: int, c: int := v[k + 1], if m % 3 == 0 then 0 else v[k + 2];
    if m % 3 == 0 then v[k] as int * 4 + b / 16
    else if m % 3 == 1 then b % 16 * 16 + c / 4
    else c % 4 * 64 + v[k + 3]
  }

  function Regroup(v: seq<sextet>): (x: seq<byte>)
    ensures |x| == DecodedLength(|v|)
  {
    seq(DecodedLength(|v|), m requires 0 <= m < DecodedLength(|v|) => ByteAt(v, m))
  }

  /** The bits of v that fill no whole byte, at the top of a byte. */
  function Pending(v: seq<sextet>): byte
    requires |v| % 4 != 0
  {
    var c: int := v[|v| - 1];
    if |v| % 4 == 1 then c * 4 else if |v| % 4 == 2 then c % 16 * 16 else c % 4 * 64
  }

  /**
   * Whether the decoder stores the pending bits of its last character, the p-th of s.
   * It does not when the padding it looks ahead for follows.
   */
  predicate StoresPending(s: string, p: nat)
    requires p <= |s|
  {
    && p % 4 != 0
    && (p % 4 == 2 ==> !(p + 2 == |s| && s[p] == '='))
    && (p % 4 == 3 ==> !(p + 1 == |s| && s[p] == '='))
  }

  /** The whole bytes of v, then its pending bits if they are stored. */
  function Cells(v: seq<sextet>, stored: bool): seq<byte>
    requires stored ==> |v| % 4 != 0
  {
    if stored then Regroup(v) + [Pending(v)] else Regroup(v)
  }

  /** The cells assigned by the decoder when it has accepted p characters. */
  function CellsAfter(s: string, p: nat): (cells: seq<byte>)
    requires p <= ValidPrefix(s)
  {
    Cells(Values(s[..p]), StoresPending(s, p))
  }

  /** Every cell a call of the decoder assigns. */
  function DecodedCells(s: string): (cells: seq<byte>) {
    CellsAfter(s, ValidPrefix(s))
  }

  /** Invalid when a character outside the alphabet, other than padding, is met first. */
  function DecodeStatus(s: string): Status {
    var p := ValidPrefix(s);
    if p == |s| || s[p] == '=' then BASE64_OK else BASE64_INVALID
  }

  /** The bits of a 6-bit group that complete the pending byte, and those it leaves pending in turn. */
  function LowBits(phase: nat, c: sextet): byte {
    if phase == 1 then c / 16 else if phase == 2 then c / 4 else c
  }

  function HighBits(phase: nat, c: sextet): byte {
    var c: int := c;
    if phase == 0 then c * 4 else if phase == 1 then c % 16 * 16 else c % 4 * 64
  }

  lemma BytePosition(m: nat, n: nat)
    requires m < DecodedLength(n)
    ensures m / 3 * 4 + m % 3 + 1 < n
  {
  }

  /** One more 6-bit group completes a byte, except at the start of four; no sum of bit fields carries. */
  lemma RegroupStep(v: seq<sextet>, c: sextet)
    ensures |v| % 4 == 0 ==> Regroup(v + [c]) == Regroup(v)
    ensures |v| % 4 != 0 ==>
              var whole := Pending(v) + LowBits(|v| % 4, c);
              whole < 256 && Regroup(v + [c]) == Regroup(v) + [whole]
  {
    var w := v + [c];
    assert DecodedLength(|w|) == DecodedLength(|v|) + if |v| % 4 == 0 then 0 else 1;
    forall m | 0 <= m < DecodedLength(|v|) ensures Regroup(w)[m] == Regroup(v)[m] {
      BytePosition(m, |v|);
    }
  }

  lemma PendingStep(v: seq<sextet>, c: sextet)
    requires |v| % 4 != 3
    ensures (|v| + 1) % 4 != 0 && Pending(v + [c]) == HighBits(|v| % 4, c)
  {
  }

  /** The cells `done`, which end in pending bits unless phase is 0, after one more 6-bit group. */
  function AfterGroup(done: seq<byte>, phase: nat, c: sextet, stored: bool): seq<byte>
    requires phase != 0 ==> done != [] && done[|done| - 1] + LowBits(phase, c) < 256
  {
    var k := |done| - 1;
    (if phase == 0 then done else done[k := done[k] + LowBits(phase, c)]) +
    if stored then [HighBits(phase, c)] else []
  }

  lemma CellsStep(v: seq<sextet>, c: sextet, stored: bool)
    requires stored ==> |v| % 4 != 3
    ensures var phase := |v| % 4;
            var done := Cells(v, phase != 0);
            && |done| == DecodedLength(|v|) + (if phase == 0 then 0 else 1)
            && (phase != 0 ==> done[|done| - 1] + LowBits(phase, c) < 256)
            && Cells(v + [c], stored) == AfterGroup(done, phase, c, stored)
  {
    RegroupStep(v, c);
    if stored {
      PendingStep(v, c);
    }
  }
}
