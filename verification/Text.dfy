/** The `printf` conversions the firmware uses, and parsers that undo them. */
module Text {
  import opened CTypes

  datatype Option<+T> = None | Some(value: T) {
    predicate IsFailure() {
      None?
    }

    function PropagateFailure<U>(): Option<U>
      requires None?
    {
      None
    }

    function Extract(): T
      requires Some?
    {
      value
    }
  }

  // ---------- printing ----------

  predicate IsDigit(c: char) {
    '0' <= c <= '9'
  }

  function Digits(n: nat): (s: string)
    ensures s != [] && forall k :: 0 <= k < |s| ==> IsDigit(s[k])
  {
    if n < 10 then [(48 + n) as char] else Digits(n / 10) + [(48 + n % 10) as char]
  }

  /** `%d` and `%ld` */
  function Decimal(n: int): (s: string)
    ensures s != [] && forall k :: 0 <= k < |s| ==> IsDigit(s[k]) || s[k] == '-'
  {
    if n < 0 then "-" + Digits(-n) else Digits(n)
  }

  function Pow10(k: nat): nat {
    if k == 0 then 1 else 10 * Pow10(k - 1)
  }

  lemma {:induction false} DigitsLength(n: nat, k: nat)
    requires k >= 1 && n < Pow10(k)
    ensures |Digits(n)| <= k
  {
    if n >= 10 {
      DigitsLength(n / 10, k - 1);
    }
  }

  /** A 32-bit signed value prints in at most 11 characters. */
  lemma Decimal32Length(n: int)
    requires -0x8000_0000 <= n < 0x8000_0000
    ensures |Decimal(n)| <= 11
  {
    assert Pow10(10) == 10_000_000_000 by {
      assert Pow10(5) == 100_000;
    }
    DigitsLength(if n < 0 then -n else n, 10);
  }

  // ---------- parsing ----------

  /** The number of leading characters of s other than `stop`. */
  function Before(s: string, stop: char): (p: nat)
    ensures p <= |s|
  {
    if s == [] || s[0] == stop then 0 else 1 + Before(s[1..], stop)
  }

  /** The text up to the first `stop`, and the rest from it on. */
  function ReadUntil(s: string, stop: char): (string, string) {
    (s[..Before(s, stop)], s[Before(s, stop)..])
  }

  lemma {:induction false} ReadUntilStop(text: string, stop: char, rest: string)
    requires stop !in text && rest != [] && rest[0] == stop
    ensures ReadUntil(text + rest, stop) == (text, rest)
  {
    if text != [] {
      assert (text + rest)[1..] == text[1..] + rest;
      ReadUntilStop(text[1..], stop, rest);
      assert Before(text + rest, stop) == |text|;
    }
  }

  function DigitPrefix(s: string): (p: nat)
    ensures p <= |s| && forall k :: 0 <= k < p ==> IsDigit(s[k])
    ensures p < |s| ==> !IsDigit(s[p])
  {
    if s == [] || !IsDigit(s[0]) then 0 else 1 + DigitPrefix(s[1..])
  }

  function DigitValue(c: char): nat
    requires IsDigit(c)
  {
    c as int - 48
  }

  function Value(digits: string): nat
    requires forall k :: 0 <= k < |digits| ==> IsDigit(digits[k])
  {
    if digits == [] then 0
    else Value(digits[..|digits| - 1]) * 10 + DigitValue(digits[|digits| - 1])
  }

  function ReadNat(s: string): (r: Option<(nat, string)>)
    ensures r.Some? ==> |r.value.1| < |s|
  {
    var p := DigitPrefix(s);
    if p == 0 then None else Some((Value(s[..p]), s[p..]))
  }

  /** A decimal number at the start of s, and what follows it. */
  function ReadInt(s: string): (r: Option<(int, string)>)
    ensures r.Some? ==> |r.value.1| < |s|
  {
    if s != [] && s[0] == '-' then
      var (n, rest) :- ReadNat(s[1..]);
      var negative: int := -(n as int);
      Some((negative, rest))
    else
      ReadNat(s)
  }

  predicate NotDigitAhead(s: string) {
    s == [] || !IsDigit(s[0])
  }

  lemma {:induction false} ValueOfDigits(n: nat)
    ensures Value(Digits(n)) == n
  {
    if n >= 10 {
      ValueOfDigits(n / 10);
      assert Digits(n)[..|Digits(n)| - 1] == Digits(n / 10);
    }
  }

  lemma {:induction false} DigitPrefixOf(digits: string, rest: string)
    requires (forall k :: 0 <= k < |digits| ==> IsDigit(digits[k])) && NotDigitAhead(rest)
    ensures DigitPrefix(digits + rest) == |digits|
  {
    if digits == [] {
      assert digits + rest == rest;
    } else {
      assert (digits + rest)[1..] == digits[1..] + rest;
      DigitPrefixOf(digits[1..], rest);
    }
  }

  lemma ReadNatOfDigits(n: nat, rest: string)
    requires NotDigitAhead(rest)
    ensures ReadNat(Digits(n) + rest) == Some((n, rest))
  {
    var s := Digits(n) + rest;
    var p := DigitPrefix(s);
    DigitPrefixOf(Digits(n), rest);
    assert s[..p] == Digits(n) && s[p..] == rest;
    ValueOfDigits(n);
  }

  lemma ReadNegative(n: int, s: string, rest: string)
    requires n <= 0 && ReadNat(s) == Some((-n, rest))
    ensures ReadInt(['-'] + s) == Some((n, rest))
  {
    assert (['-'] + s)[1..] == s;
  }

  lemma ReadUnsigned(n: nat, s: string, rest: string)
    requires s != [] && s[0] != '-' && ReadNat(s) == Some((n, rest))
    ensures ReadInt(s) == Some((n, rest))
  {
  }

  /** Reading undoes printing, as long as no digit follows. */
  lemma ReadIntOfDecimal(n: int, rest: string)
    requires NotDigitAhead(rest)
    ensures ReadInt(Decimal(n) + rest) == Some((n, rest))
  {
    if n < 0 {
      var s := Digits(-n) + rest;
      ReadNatOfDigits(-n, rest);
      ReadNegative(n, s, rest);
      assert Decimal(n) + rest == ['-'] + s;
    } else {
      var s := Digits(n) + rest;
      assert s != [] && IsDigit(s[0]);
      ReadNatOfDigits(n, rest);
      ReadUnsigned(n, s, rest);
    }
  }

  // ---------- tagged numbers ----------

  /** A tag, a number, and what follows. */
  function Field(tag: string, n: int, rest: string): string {
    tag + (Decimal(n) + rest)
  }

  lemma FieldAscii(tag: string, n: int, rest: string)
    requires Ascii(tag) && Ascii(rest)
    ensures Ascii(Field(tag, n, rest))
  {
  }

  /** A tag, a text, and what follows. */
  function TextField(tag: string, text: string, rest: string): string {
    tag + (text + rest)
  }
}
