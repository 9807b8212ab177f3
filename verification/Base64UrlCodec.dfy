/** The two loops of base64url.c, with their 32-bit counters and 8-bit output cells. */
module Base64UrlCodec {
  import opened CTypes
  import opened Base64Url

  /** Where the encoder writes when it has read i bytes; equal to 4 * i / 3. */
  function OutIndex(i: nat): (j: nat)
    ensures j / 4 == i / 3 && j % 4 == i % 3
    ensures j == 4 * i / 3
  {
    i / 3 * 4 + i % 3
  }

  lemma OutIndexStep(i: nat)
    ensures OutIndex(i + 1) == OutIndex(i) + if i % 3 == 2 then 2 else 1
    ensures i % 3 == 2 ==> (OutIndex(i) + 1) / 4 == i / 3 && (OutIndex(i) + 1) % 4 == 3
  {
  }

  /** The character that byte i finishes, with the byte before it. */
  lemma EncoderStep(x: seq<byte>, i: nat)
    requires i < |x|
    ensures OutIndex(i) < EncodedLength(|x|)
    ensures i % 3 == 0 ==> Encode(x)[OutIndex(i)] == UrlChar(x[i] / 4)
    ensures i % 3 == 1 ==> Encode(x)[OutIndex(i)] == UrlChar(x[i - 1] % 4 * 16 + x[i] / 16)
    ensures i % 3 == 2 ==> Encode(x)[OutIndex(i)] == UrlChar(x[i - 1] % 16 * 4 + x[i] / 64)
  {
  }

  /** The second character that byte i finishes. */
  lemma EncoderSecond(x: seq<byte>, i: nat)
    requires i < |x| && i % 3 == 2
    ensures OutIndex(i) + 1 < EncodedLength(|x|)
    ensures Encode(x)[OutIndex(i) + 1] == UrlChar(x[i] % 64)
  {
  }

  /** The character the encoder finishes after the last byte, if the bytes do not fill whole groups. */
  lemma EncoderTail(x: seq<byte>)
    requires x != []
    ensures var i, j := |x| - 1, OutIndex(|x|);
            && (i % 3 == 0 ==> j + 1 == EncodedLength(|x|) && Encode(x)[j] == UrlChar(x[i] % 4 * 16))
            && (i % 3 == 1 ==> j + 1 == EncodedLength(|x|) && Encode(x)[j] == UrlChar(x[i] % 16 * 4))
            && (i % 3 == 2 ==> j == EncodedLength(|x|))
  {
    OutIndexStep(|x| - 1);
  }

  /** A buffer that held `was`, with the first j cells of `text` written over it. */
  ghost function Written<T>(text: seq<T>, was: seq<T>, j: nat): seq<T>
    requires j <= |text| && j <= |was|
  {
    text[..j] + was[j..]
  }

  lemma WrittenStep<T>(text: seq<T>, was: seq<T>, j: nat)
    requires j < |text| && j < |was|
    ensures Written(text, was, j)[j := text[j]] == Written(text, was, j + 1)
  {
  }

  lemma WrittenAll<T>(text: seq<T>, was: seq<T>, end: T)
    requires |text| < |was|
    ensures Written(text, was, |text|)[|text| := end] == text + [end] + was[|text| + 1..]
  {
  }

  /** `out[j++] = base64en[v]` */
  method Put(out: array<char>, j: uint32, v: sextet, ghost text: string, ghost was: seq<char>) returns (next: uint32)
    requires j as int < |text| && j as int < |was| == out.Length < TWO_TO_THE_32
    requires out[..] == Written(text, was, j as int) && UrlChar(v) == text[j]
    modifies out
    ensures next as int == j as int + 1 && out[..] == Written(text, was, next as int)
  {
    EncodeTableIsUrlAlphabet(v);
    out[j] := EN[v];
    next := j + 1;
    WrittenStep(text, was, j as int);
  }

  /** A byte is its own low bits. */
  lemma Masks(b: byte)
    ensures b / 4 % 64 == b / 4 && b / 16 % 16 == b / 16 && b / 64 % 4 == b / 64
  {
  }

  /** The body of the loop: the one or two characters that byte i finishes. */
  method EncodeByte(input: seq<byte>, i: uint32, out: array<char>, j: uint32, ghost was: seq<char>)
    returns (next: uint32)
    requires i as int < |input| && j as int == OutIndex(i as int)
    requires EncodedLength(|input|) < |was| == out.Length < TWO_TO_THE_32
    requires j as int <= EncodedLength(|input|) && out[..] == Written(Encode(input), was, j as int)
    modifies out
    ensures next as int == OutIndex(i as int + 1) <= EncodedLength(|input|)
    ensures out[..] == Written(Encode(input), was, next as int)
  {
    ghost var text := Encode(input);
    Masks(input[i]);
    OutIndexStep(i as int);
    EncoderStep(input, i as int);
    var s := i % 3;
    if s == 0 {
      next := Put(out, j, input[i] / 4 % 64, text, was);
    } else if s == 1 {
      next := Put(out, j, input[i - 1] % 4 * 16 + input[i] / 16 % 16, text, was);
    } else {
      next := Put(out, j, input[i - 1] % 16 * 4 + input[i] / 64 % 4, text, was);
      EncoderSecond(input, i as int);
      next := Put(out, next, input[i] % 64, text, was);
    }
  }

  /** The step back: the character that holds the left-over bits of the last byte i, if there are any. */
  method EncodeTail(input: seq<byte>, i: uint32, out: array<char>, j: uint32, ghost was: seq<char>)
    returns (next: uint32)
    requires i as int + 1 == |input| && j as int == OutIndex(|input|)
    requires EncodedLength(|input|) < |was| == out.Length < TWO_TO_THE_32
    requires j as int <= EncodedLength(|input|) && out[..] == Written(Encode(input), was, j as int)
    modifies out
    ensures next as int == EncodedLength(|input|)
    ensures out[..] == Written(Encode(input), was, next as int)
  {
    EncoderTail(input);
    if i % 3 == 0 {
      next := Put(out, j, input[i] % 4 * 16, Encode(input), was);
    } else if i % 3 == 1 {
      next := Put(out, j, input[i] % 16 * 4, Encode(input), was);
    } else {
      next := j;
    }
  }

  method Base64UrlEncode(input: seq<byte>, out: array<char>) returns (status: Status)
    requires 1 <= |input| && EncodedLength(|input|) < out.Length < TWO_TO_THE_32
    modifies out
    ensures status == BASE64_OK
    ensures out[..] == Encode(input) + ['\0'] + old(out[..])[EncodedLength(|input|) + 1..]
  {
    ghost var text, was := Encode(input), out[..];
    var i: uint32, j: uint32 := 0, 0;
    while i < |input| as uint32
      invariant i as int <= |input| && j as int == OutIndex(i as int) <= |text|
      invariant out[..] == Written(text, was, j as int)
    {
      j := EncodeByte(input, i, out, j, was);
      i := i + 1;
    }
    i := i - 1;
    j := EncodeTail(input, i, out, j, was);
    WrittenAll(text, was, '\0');
    out[j] := '\0';
    j := j + 1;
    status := BASE64_OK;
  }

  // ---------- decoder ----------

  /** A buffer that held `was`, with `cells` stored from its start on. */
  ghost function Over<T>(cells: seq<T>, was: seq<T>): seq<T>
    requires |cells| <= |was|
  {
    cells + was[|cells|..]
  }

  /** `out[j] = value`, on a cell not assigned before */
  method Store(out: array<byte>, j: uint32, value: byte, ghost cells: seq<byte>, ghost was: seq<byte>)
    requires j as int == |cells| < |was| == out.Length && out[..] == Over(cells, was)
    modifies out
    ensures out[..] == Over(cells + [value], was)
  {
    out[j] := value;
    assert Over(cells, was)[j as int := value] == Over(cells + [value], was);
  }

  /** `out[j] += bits`, on a cell assigned before and without carry */
  method Add(out: array<byte>, j: uint32, bits: byte, ghost cells: seq<byte>, ghost was: seq<byte>)
    requires j as int < |cells| <= |was| == out.Length && out[..] == Over(cells, was)
    requires cells[j] + bits < 256
    modifies out
    ensures out[..] == Over(cells[j as int := cells[j] + bits], was)
  {
    var sum: int := out[j] + bits;
    out[j] := sum % 256;
    assert Over(cells, was)[j as int := cells[j] + bits] == Over(cells[j as int := cells[j] + bits], was);
  }

  lemma AcceptedIsNotPadding(s: string, i: nat)
    requires i < ValidPrefix(s)
    ensures s[i] != '='
  {
  }

  /** The assigned cells after one more accepted character, whatever the look-ahead skipped before it. */
  lemma CellsAfterStep(s: string, i: nat)
    requires i < ValidPrefix(s)
    ensures var done, c := CellsAfter(s, i), StandardValue(s[i]);
            && |done| == DecodedLength(i) + (if i % 4 == 0 then 0 else 1)
            && (i % 4 != 0 ==> done[|done| - 1] + LowBits(i % 4, c) < 256)
            && CellsAfter(s, i + 1) == AfterGroup(done, i % 4, c, StoresPending(s, i + 1))
  {
    var v := Values(s[..i]);
    assert Values(s[..i + 1]) == v + [StandardValue(s[i])];
    AcceptedIsNotPadding(s, i);
    CellsStep(v, StandardValue(s[i]), StoresPending(s, i + 1));
  }

  /** The look-ahead after the second of four characters, whose unsigned subtraction wraps when there are only two. */
  lemma LookAheadSecond(s: string, i: nat)
    requires i < |s| < TWO_TO_THE_32 && i % 4 == 1 && s[i] != '=' && s[i - 1] != '='
    ensures StoresPending(s, i + 1) <==> (i < Wrap32(|s| - 3) || s[|s| - 2] != '=')
  {
    if |s| == 2 {
      assert Wrap32(-1) == TWO_TO_THE_32 - 1;
    }
  }

  lemma LookAheadThird(s: string, i: nat)
    requires i < |s| < TWO_TO_THE_32 && i % 4 == 2 && s[i] != '='
    ensures StoresPending(s, i + 1) <==> (i < Wrap32(|s| - 2) || s[|s| - 1] != '=')
  {
  }

  /** The switch: what the decoder does with an accepted character. */
  method DecodeChar(input: string, i: uint32, c: sextet, out: array<byte>, j: uint32,
                    ghost done: seq<byte>, ghost after: seq<byte>, ghost was: seq<byte>)
    returns (next: uint32)
    requires i as int < |input| < TWO_TO_THE_32 && input[i] != '=' && (i > 0 ==> input[i - 1] != '=')
    requires j as int == DecodedLength(i as int) == |done| - if i % 4 == 0 then 0 else 1
    requires i % 4 != 0 ==> done[j] + LowBits(i as int % 4, c) < 256
    requires after == AfterGroup(done, i as int % 4, c, StoresPending(input, i as int + 1))
    requires |done| <= |after| <= |was| == out.Length && out[..] == Over(done, was)
    modifies out
    ensures next as int == DecodedLength(i as int + 1) && out[..] == Over(after, was)
  {
    var bits: int, inlen := c, |input|;
    var s := i % 4;
    if s == 0 {
      Store(out, j, bits * 4 % 256, done, was);
      return j;
    }
    next := j + 1;
    ghost var grown := done[j as int := done[j] + LowBits(s as int, c)];
    if s == 1 {
      LookAheadSecond(input, i as int);
      Add(out, j, bits / 16 % 4, done, was);
      if i as int < Wrap32(inlen - 3) || input[inlen - 2] != '=' {
        Store(out, next, bits % 16 * 16, grown, was);
      }
    } else if s == 2 {
      LookAheadThird(input, i as int);
      Add(out, j, bits / 4 % 16, done, was);
      if i as int < Wrap32(inlen - 2) || input[inlen - 1] != '=' {
        Store(out, next, bits % 4 * 64, grown, was);
      }
    } else {
      Add(out, j, bits, done, was);
    }
  }

  /** The range test and table lookup: -1 for a character the decoder rejects. */
  method Lookup(ch: char) returns (c: int)
    ensures c == StandardValue(ch)
  {
    if ch < '+' || ch > 'z' {
      c := -1;
    } else {
      DecodeTableIsStandardAlphabet(ch as int - 43);
      c := DE[ch as int - 43];
    }
  }

  lemma CellsGrow(s: string, i: nat, p: nat)
    requires i <= p <= ValidPrefix(s)
    ensures |CellsAfter(s, i)| <= |CellsAfter(s, p)|
  {
  }

  method Base64UrlDecode(input: string, out: array<byte>) returns (status: Status)
    requires |input| < TWO_TO_THE_32 && |DecodedCells(input)| <= out.Length
    modifies out
    ensures status == DecodeStatus(input)
    ensures out[..] == DecodedCells(input) + old(out[..])[|DecodedCells(input)|..]
  {
    ghost var valid, was := ValidPrefix(input), out[..];
    var i: uint32, j: uint32 := 0, 0;
    while i < |input| as uint32
      invariant i as int <= valid && j as int == DecodedLength(i as int)
      invariant |CellsAfter(input, i as int)| <= |was|
      invariant out[..] == Over(CellsAfter(input, i as int), was)
    {
      if input[i] == '=' {
        assert i as int == valid;
        return BASE64_OK;
      }
      var c := Lookup(input[i]);
      if c == -1 {
        assert i as int == valid;
        return BASE64_INVALID;
      }
      CellsAfterStep(input, i as int);
      CellsGrow(input, i as int + 1, valid);
      j := DecodeChar(input, i, c, out, j, CellsAfter(input, i as int), CellsAfter(input, i as int + 1), was);
      i := i + 1;
    }
    status := BASE64_OK;
  }
}
