/** Signing with a 16-byte digest and case-insensitive verification. */
module Signing {
  import opened Wrappers
  import opened ByteStrings
  import opened SortedMaps
  import opened ParamMaps

  type Digest = d: Bytes | |d| == 16 witness "0123456789abcdef"

  const SIGN_TYPE_MD5: Bytes := "MD5"

  /** The merchant key, and MD5 (RFC 1321) as some fixed function of its input. */
  datatype Signer = Signer(key: Bytes, md5: Bytes -> Digest)

  // ---- Hexadecimal text ----

  function LowerHex(d: nat): (c: Byte)
    requires d < 16
    ensures IsHexDigit(c) && ToLower(c) == c && LowerHexValue(c) == d
  {
    if d < 10 then Digit(d) else ('a' as int + d - 10) as char
  }

  function LowerHexValue(c: Byte): (d: nat)
    requires IsHexDigit(c) && ToLower(c) == c
    ensures d < 16
  {
    if IsDigit(c) then c as int - '0' as int else c as int - 'a' as int + 10
  }

  predicate IsLowerHex(s: Bytes) {
    forall i :: 0 <= i < |s| ==> IsHexDigit(s[i]) && ToLower(s[i]) == s[i]
  }

  function HexLower(bytes: Bytes): (s: Bytes)
    ensures |s| == 2 * |bytes| && IsLowerHex(s)
  {
    if bytes == [] then []
    else [LowerHex(bytes[0] as int / 16), LowerHex(bytes[0] as int % 16)] + HexLower(bytes[1..])
  }

  function Unhex(s: Bytes): Bytes
    requires IsLowerHex(s) && |s| % 2 == 0
  {
    if s == [] then []
    else [(16 * LowerHexValue(s[0]) + LowerHexValue(s[1])) as char] + Unhex(s[2..])
  }

  lemma {:induction false} UnhexUndoesHex(bytes: Bytes)
    ensures Unhex(HexLower(bytes)) == bytes
  {
    if bytes != [] {
      UnhexUndoesHex(bytes[1..]);
      assert HexLower(bytes)[2..] == HexLower(bytes[1..]);
    }
  }

  lemma {:induction false} HexSnoc(bytes: Bytes, b: Byte)
    ensures HexLower(bytes + [b])
         == HexLower(bytes) + [LowerHex(b as int / 16), LowerHex(b as int % 16)]
  {
    if bytes == [] {
      assert bytes + [b] == [b];
    } else {
      assert (bytes + [b])[1..] == bytes[1..] + [b];
      HexSnoc(bytes[1..], b);
    }
  }

  /** Two digits for every byte, the high half first. */
  lemma {:induction false} HexDigits(bytes: Bytes, i: nat)
    requires i < |bytes|
    ensures HexLower(bytes)[2 * i] == "0123456789abcdef"[bytes[i] as int / 16]
    ensures HexLower(bytes)[2 * i + 1] == "0123456789abcdef"[bytes[i] as int % 16]
  {
    if i == 0 {
      HexDigit(bytes[0] as int / 16);
      HexDigit(bytes[0] as int % 16);
    } else {
      HexDigits(bytes[1..], i - 1);
      assert HexLower(bytes)[2..] == HexLower(bytes[1..]);
      assert HexLower(bytes)[2 * i] == HexLower(bytes)[2..][2 * (i - 1)];
      assert HexLower(bytes)[2 * i + 1] == HexLower(bytes)[2..][2 * (i - 1) + 1];
    }
  }

  lemma HexDigit(d: nat)
    requires d < 16
    ensures LowerHex(d) == "0123456789abcdef"[d]
  {
  }

  /** The loop of `hex_lower` pushes two digits for every byte. */
  method PushHex(bytes: Bytes) returns (out: Bytes)
    ensures out == HexLower(bytes)
  {
    out := [];
    for i := 0 to |bytes|
      invariant out == HexLower(bytes[..i])
    {
      HexSnoc(bytes[..i], bytes[i]);
      assert bytes[..i + 1] == bytes[..i] + [bytes[i]];
      out := out + [LowerHex(bytes[i] as int / 16)];
      out := out + [LowerHex(bytes[i] as int % 16)];
    }
    assert bytes[..|bytes|] == bytes;
  }

  // ---- Signing ----

  /** The text whose digest is the signature. */
  function SignedText(signer: Signer, m: Fields): Bytes { SignPayload(m) + signer.key }

  function Sign(signer: Signer, m: Fields): (s: Bytes)
    ensures |s| == 32 && IsLowerHex(s)
  {
    HexLower(signer.md5(SignedText(signer, m)))
  }

  /** An incremental hasher. */
  class Hasher {
    const md5: Bytes -> Digest
    var fed: Bytes

    constructor (md5: Bytes -> Digest)
      ensures this.md5 == md5 && fed == []
    {
      this.md5 := md5;
      fed := [];
    }

    method Update(data: Bytes)
      modifies this
      ensures fed == old(fed) + data
    {
      fed := fed + data;
    }

    method Finalize() returns (digest: Digest)
      ensures digest == md5(fed)
    {
      digest := md5(fed);
    }
  }

  /** `Signer::sign`: payload first, then the key, then the digest in hexadecimal. */
  method ComputeSign(signer: Signer, params: Params) returns (sign: Bytes)
    ensures sign == Sign(signer, params.inner)
    ensures sign == HexLower(signer.md5(SignPayload(params.inner) + signer.key))
  {
    var payload := params.BuildPayload();
    var hasher := new Hasher(signer.md5);
    hasher.Update(payload);
    assert hasher.fed == payload;
    hasher.Update(signer.key);
    var digest := hasher.Finalize();
    sign := PushHex(digest);
  }

  predicate Verify(signer: Signer, m: Fields, received: Bytes) {
    && |received| == 32
    && (forall i :: 0 <= i < |received| ==> IsHexDigit(received[i]))
    && Sign(signer, m) == LowerAll(received)
  }

  function SignedFields(signer: Signer, m: Fields): Fields {
    WithField(WithField(m, "sign", Sign(signer, m)), "sign_type", SIGN_TYPE_MD5)
  }

  /** `Signer::sign_with_params`: replaces whatever signature the map already carried. */
  method SignWithParams(signer: Signer, params: Params)
    requires params.Valid()
    modifies params
    ensures params.inner == SignedFields(signer, old(params.inner)) && params.Valid()
  {
    var sign := ComputeSign(signer, params);
    params.Insert("sign", sign);
    params.Insert("sign_type", SIGN_TYPE_MD5);
  }

  /**
    The length and alphabet guards cost nothing: a text verifies exactly when, without its letter
    case, it is the digest of the payload followed by the merchant key.
   */
  lemma VerifyIff(signer: Signer, m: Fields, received: Bytes)
    ensures Verify(signer, m, received) <==>
              LowerAll(received) == HexLower(signer.md5(SignPayload(m) + signer.key))
    ensures Verify(signer, m, received) <==> LowerAll(received) == Sign(signer, m)
  {
    if LowerAll(received) == Sign(signer, m) {
      forall i | 0 <= i < |received| ensures IsHexDigit(received[i]) {
        assert IsHexDigit(LowerAll(received)[i]);
      }
    }
  }

  /**
    The key takes part in every signature: one text that verifies under two keys, for one map or for
    two, is the digest of both texts, and for one map these texts differ.
   */
  lemma TwoKeysCollide(m: Fields, n: Fields, k: Bytes, l: Bytes, md5: Bytes -> Digest, received: Bytes)
    ensures Verify(Signer(k, md5), m, received) && Verify(Signer(l, md5), n, received) ==>
              md5(SignPayload(m) + k) == md5(SignPayload(n) + l)
    ensures k != l ==> SignPayload(m) + k != SignPayload(m) + l
  {
    VerifyIff(Signer(k, md5), m, received);
    VerifyIff(Signer(l, md5), n, received);
    if HexLower(md5(SignPayload(m) + k)) == LowerAll(received) == HexLower(md5(SignPayload(n) + l)) {
      HexInjective(md5(SignPayload(m) + k), md5(SignPayload(n) + l));
    }
    SumDrop(SignPayload(m), k);
    SumDrop(SignPayload(m), l);
  }

  /** A freshly signed map carries exactly its signature, whatever it carried before. */
  lemma SignedFieldsShape(signer: Signer, m: Fields)
    ensures Signed(SignedFields(signer, m)) == Signed(m)
    ensures GetField(SignedFields(signer, m), "sign")
         == Some(Sign(signer, m)) == Some(HexLower(signer.md5(SignPayload(m) + signer.key)))
    ensures GetField(SignedFields(signer, m), "sign_type") == Some("MD5")
    ensures Sign(signer, SignedFields(signer, m)) == Sign(signer, m)
  {
    SignatureIsUnsigned(m, Sign(signer, m), SIGN_TYPE_MD5);
    PayloadIgnoresSignature(SignedFields(signer, m), m);
  }

  lemma SignatureIsUnsigned(m: Fields, sign: Bytes, signType: Bytes)
    requires sign != [] && signType != []
    ensures var signed := WithField(WithField(m, "sign", sign), "sign_type", signType);
            && Signed(signed) == Signed(m)
            && GetField(signed, "sign") == Some(sign) && GetField(signed, "sign_type") == Some(signType)
  {
  }

  /** A signed map verifies under its own signature, in any letter case. */
  lemma SignedVerifies(signer: Signer, m: Fields, received: Bytes)
    ensures Verify(signer, SignedFields(signer, m), received)
       <==> LowerAll(received) == Sign(signer, m)
    ensures Verify(signer, SignedFields(signer, m), SignedFields(signer, m)["sign"])
  {
    SignedFieldsShape(signer, m);
    VerifyIff(signer, SignedFields(signer, m), received);
    LowerHexIsLower(Sign(signer, m));
    VerifyIff(signer, SignedFields(signer, m), Sign(signer, m));
  }

  lemma LowerHexIsLower(s: Bytes)
    requires IsLowerHex(s)
    ensures LowerAll(s) == s
  {
  }

  /**
    One signature accepted for two different sets of signed fields means that two different texts
    have the same digest.
   */
  lemma AcceptedTwiceIsCollision(signer: Signer, m: Fields, n: Fields, received: Bytes)
    requires Delimited(Signed(m)) && Delimited(Signed(n)) && Signed(m) != Signed(n)
    ensures SignPayload(m) + signer.key != SignPayload(n) + signer.key
    ensures Verify(signer, m, received) && Verify(signer, n, received) ==>
              signer.md5(SignPayload(m) + signer.key) == signer.md5(SignPayload(n) + signer.key)
  {
    TextsDiffer(m, n, signer.key);
    TwoKeysCollide(m, n, signer.key, signer.key, signer.md5, received);
    assert Signer(signer.key, signer.md5) == signer;
  }

  lemma TextsDiffer(m: Fields, n: Fields, key: Bytes)
    requires Delimited(Signed(m)) && Delimited(Signed(n)) && Signed(m) != Signed(n)
    ensures SignPayload(m) + key != SignPayload(n) + key
  {
    PayloadInjective(m, n);
    SameSuffix(SignPayload(m), SignPayload(n), key);
  }

  lemma SameSuffix(a: Bytes, b: Bytes, key: Bytes)
    requires a != b
    ensures a + key != b + key
  {
    assert (a + key)[..|a + key| - |key|] == a && (b + key)[..|b + key| - |key|] == b;
  }

  lemma HexInjective(a: Bytes, b: Bytes)
    requires HexLower(a) == HexLower(b)
    ensures a == b
  {
    UnhexUndoesHex(a);
    UnhexUndoesHex(b);
  }
}
