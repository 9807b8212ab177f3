/** gcpjwt.c's xgiotc_gen_JWT, with its fixed buffers, its globals and its exits. */
module Gcpjwt {
  import opened CTypes
  import opened Base64Url
  import opened Base64UrlLaws
  import opened Base64UrlCodec
  import opened Text
  import opened HeapLedger
  import opened Jwt

  /** The longest signature whose encoding and NUL fit base64Signature[600]. */
  const MAX_SIGNATURE := 449

  lemma SignatureFits(n: nat)
    ensures EncodedLength(n) + 1 <= 600 <==> n <= MAX_SIGNATURE
  {
  }

  /** A signing operation whose results the encoder accepts. */
  ghost predicate BoundedSignatures(crypto: Crypto) {
    forall digest :: crypto.sign(digest).Some? ==> 1 <= |crypto.sign(digest).value| <= MAX_SIGNATURE
  }

  /** base64url_encode into a local buffer, read back as a C string. */
  method EncodeLocal(input: seq<byte>, size: nat) returns (text: string)
    requires input != [] && EncodedLength(|input|) < size < TWO_TO_THE_32
    ensures text == Encode(input)
  {
    var buffer := new char[size];
    ghost var was := buffer[..];
    var _ := Base64UrlEncode(input, buffer);
    EncodeExcludes(input);
    CStringReadsText(Encode(input), was[|Encode(input)| + 1..]);
    text := CString(buffer[..]);
  }

  /** sprintf into a local buffer, read back as a C string. */
  method SprintfLocal(text: string, size: nat) returns (r: string)
    requires |text| < size && '\0' !in text
    ensures r == text
  {
    var buffer := new char[size];
    ghost var was := buffer[..];
    Sprintf(buffer, text);
    CStringReadsText(text, was[|text| + 1..]);
    r := CString(buffer[..]);
  }

  /** The first two segments, through buffers of 100, 100, 100 and 800 cells. */
  method BuildSigningInput(iat: int, exp: int) returns (text: string)
    ensures text == SigningInput(HEADER, Claims(iat, exp))
    ensures '\0' !in text && 1 <= |text| < 118
  {
    var base64Header := EncodeLocal(BytesOf(HEADER), 100);

    ClaimsLength(iat, exp);
    ClaimsAscii(iat, exp);
    var payload := SprintfLocal(Claims(iat, exp), 100);
    var base64Payload := EncodeLocal(BytesOf(payload), 100);

    EncodeExcludes(BytesOf(HEADER));
    EncodeExcludes(BytesOf(payload));
    text := SprintfLocal(base64Header + "." + base64Payload, 800);
  }

  /** The caller's buffer after a call: the token and its NUL, with the rest as it was; or all of it as it was. */
  ghost predicate Filled(after: seq<char>, issued: Option<string>, before: seq<char>) {
    if issued.None? then after == before
    else |issued.value| < |before| && after == issued.value + ['\0'] + before[|issued.value| + 1..]
  }

  class Gcpjwt {
    const heap: Heap
    var expireT: int
    var oBuf: Block
    /** Key contexts initialised and not freed. */
    var pkContexts: nat

    constructor (heap: Heap)
      ensures this.heap == heap && expireT == 0 && oBuf == NULL && pkContexts == 0
    {
      this.heap := heap;
      expireT, oBuf, pkContexts := 0, NULL, 0;
    }

    /** From the key on: sign the text, check the length, write the token. */
    method SignInto(jwtstr: array<char>, len: int, text: string, mallocOk: bool, crypto: Crypto) returns (rc: int)
      requires 0 <= len <= jwtstr.Length && BoundedSignatures(crypto) && heap.Valid()
      modifies this`oBuf, this`pkContexts, heap, jwtstr
      ensures var issued := Sign(crypto, mallocOk, text, len);
              && rc == (if issued.Some? then 0 else -1)
              && Filled(jwtstr[..], issued, old(jwtstr[..]))
      ensures heap.Valid() && heap.live == old(heap.live)
      ensures crypto.keyParses && mallocOk ==>
                oBuf !in old(heap.live + heap.freed) && heap.freed == old(heap.freed) + {oBuf}
      ensures !(crypto.keyParses && mallocOk) ==> heap.freed == old(heap.freed)
      ensures pkContexts == old(pkContexts) + if rc == 0 then 0 else 1
    {
      pkContexts := pkContexts + 1;
      if !crypto.keyParses {
        return -1;
      }

      oBuf := heap.Malloc(mallocOk);
      if oBuf == NULL {
        heap.Free(oBuf);
        return -1;
      }

      var digest := crypto.sha256(text);
      if digest.None? {
        heap.Free(oBuf);
        return -1;
      }

      var signature := crypto.sign(digest.value);
      if signature.None? {
        heap.Free(oBuf);
        return -1;
      }

      SignatureFits(|signature.value|);
      var base64Signature := EncodeLocal(signature.value, 600);

      var rqlen := |text| + 1 + |base64Signature| + 1;
      if rqlen >= len {
        heap.Free(oBuf);
        return -1;
      }
      Sprintf(jwtstr, text + "." + base64Signature);

      pkContexts := pkContexts - 1;

      heap.Free(oBuf);
      return 0;
    }

    method XgiotcGenJwt(jwtstr: array<char>, len: int, expTime: int,
                        clock: int, now: int, mallocOk: bool, crypto: Crypto) returns (rc: int)
      requires 0 <= len <= jwtstr.Length && BoundedSignatures(crypto) && heap.Valid()
      modifies this, heap, jwtstr
      ensures var issued := Issue(crypto, mallocOk, now, expTime, len);
              && rc == (if issued.Some? then 0 else -1)
              && Filled(jwtstr[..], issued, old(jwtstr[..]))
      ensures expireT == Signed32(clock + expTime)
      ensures heap.Valid() && heap.live == old(heap.live)
      ensures crypto.keyParses && mallocOk ==>
                oBuf !in old(heap.live + heap.freed) && heap.freed == old(heap.freed) + {oBuf}
      ensures !(crypto.keyParses && mallocOk) ==> heap.freed == old(heap.freed)
      ensures pkContexts == old(pkContexts) + if rc == 0 then 0 else 1
    {
      expireT := Signed32(clock + expTime);
      var iat := Wrap32(now);
      var exp := Wrap32(iat + expTime);
      var headerAndPayload := BuildSigningInput(iat, exp);
      assert Issue(crypto, mallocOk, now, expTime, len) == Sign(crypto, mallocOk, headerAndPayload, len);
      rc := SignInto(jwtstr, len, headerAndPayload, mallocOk, crypto);
    }
  }
}
