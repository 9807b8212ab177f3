/** The C machine types and string conventions the firmware relies on. */
module CTypes {

  /** An `unsigned char` cell. */
  type byte = x: int | 0 <= x < 256

  const TWO_TO_THE_32 := 0x1_0000_0000

  /** An `unsigned int`; Dafny checks that its arithmetic stays in range, so that nothing wraps. */
  newtype uint32 = x: int | 0 <= x < TWO_TO_THE_32

  /** Conversion to a 32-bit unsigned type. */
  function Wrap32(x: int): (r: int)
    ensures 0 <= r < TWO_TO_THE_32
    ensures 0 <= x < TWO_TO_THE_32 ==> r == x
  {
    x % TWO_TO_THE_32
  }

  /** Conversion to a 32-bit signed type (two's complement), such as `int` and `long` on this target. */
  function Signed32(x: int): (r: int)
    ensures -0x8000_0000 <= r < 0x8000_0000
    ensures -0x8000_0000 <= x < 0x8000_0000 ==> r == x
  {
    var w := Wrap32(x);
    if w < 0x8000_0000 then w else w - TWO_TO_THE_32
  }

  /** The text held by a buffer: its cells up to the first NUL. */
  function CString(cells: seq<char>): string {
    if cells == [] || cells[0] == '\0' then [] else [cells[0]] + CString(cells[1..])
  }

  lemma {:induction false} CStringReadsText(text: string, rest: seq<char>)
    requires '\0' !in text
    ensures CString(text + ['\0'] + rest) == text
  {
    if text != [] {
      assert (text + ['\0'] + rest)[1..] == text[1..] + ['\0'] + rest;
      CStringReadsText(text[1..], rest);
    }
  }

  /** `sprintf(buf, "%s", text)`: the text and its NUL; the cells after them keep their contents. */
  method Sprintf(buf: array<char>, text: string)
    requires |text| < buf.Length
    modifies buf
    ensures buf[..] == text + ['\0'] + old(buf[..])[|text| + 1..]
  {
    forall k | 0 <= k < |text| {
      buf[k] := text[k];
    }
    buf[|text|] := '\0';
  }

  /** ASCII text without a NUL. */
  predicate Ascii(s: string) {
    forall k :: 0 <= k < |s| ==> 0 < s[k] as int < 128
  }

  /** The cast `(unsigned char *)s`. */
  function BytesOf(s: string): (r: seq<byte>)
    ensures |r| == |s|
  {
    seq(|s|, k requires 0 <= k < |s| => s[k] as int % 256)
  }

  /** The cast `(char *)b`. */
  function TextOf(b: seq<byte>): (r: string)
    ensures |r| == |b|
  {
    seq(|b|, k requires 0 <= k < |b| => b[k] as char)
  }

  lemma CastRoundTrip(s: string)
    requires Ascii(s)
    ensures TextOf(BytesOf(s)) == s
  {
  }
}
