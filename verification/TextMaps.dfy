/** Parameter maps as the SDK builds them: named, non-empty, well-formed text. */
module TextMaps {
  import opened ByteStrings
  import opened Utf8
  import opened SortedMaps
  import opened ParamMaps
  import opened Signing

  /** All keys and values are well-formed text, as Rust strings are. */
  predicate IsText(m: Fields) {
    forall k :: k in m ==> ValidUtf8(k) && ValidUtf8(m[k])
  }

  /** What survives the wire: no empty name, no empty value, text only. */
  predicate IsWireMap(m: Fields) {
    IsText(m) && NoEmptyValues(m) && [] !in m
  }

  predicate IsUnsigned(m: Fields) {
    IsWireMap(m) && "sign" !in m && "sign_type" !in m
  }

  /** A field name of the protocol. */
  predicate IsLabel(k: Bytes) {
    k != [] && forall i :: 0 <= i < |k| ==> 'a' <= k[i] <= 'z' || k[i] == '_'
  }

  lemma LabelsAreText(k: Bytes)
    requires IsLabel(k)
    ensures ValidUtf8(k) && k != []
  {
    AsciiIsValid(k);
  }

  lemma InsertKeepsUnsigned(m: Fields, k: Bytes, v: Bytes)
    requires IsUnsigned(m) && IsLabel(k) && !IsSignatureField(k) && ValidUtf8(v)
    ensures IsUnsigned(WithField(m, k, v))
  {
    LabelsAreText(k);
  }

  lemma InsertKeepsWireMap(m: Fields, k: Bytes, v: Bytes)
    requires IsWireMap(m) && IsLabel(k) && ValidUtf8(v)
    ensures IsWireMap(WithField(m, k, v))
  {
    LabelsAreText(k);
  }

  lemma InsertAddsOne(m: Fields, k: Bytes, v: Bytes)
    ensures |WithField(m, k, v)| <= |m| + 1
  {
  }

  /** Signing adds two fields of plain ASCII. */
  lemma SigningKeepsWireMap(signer: Signer, m: Fields)
    requires IsWireMap(m)
    ensures IsWireMap(SignedFields(signer, m))
    ensures |SignedFields(signer, m)| <= |m| + 2
  {
    AsciiIsValid(Sign(signer, m));
    AsciiIsValid(SIGN_TYPE_MD5);
    TwoInserts(m, Sign(signer, m), SIGN_TYPE_MD5);
  }

  lemma TwoInserts(m: Fields, sign: Bytes, signType: Bytes)
    requires IsWireMap(m) && ValidUtf8(sign) && ValidUtf8(signType)
    ensures var signed := WithField(WithField(m, "sign", sign), "sign_type", signType);
            IsWireMap(signed) && |signed| <= |m| + 2
  {
    SignatureLabels();
    InsertKeepsWireMap(m, "sign", sign);
    InsertAddsOne(m, "sign", sign);
    InsertKeepsWireMap(WithField(m, "sign", sign), "sign_type", signType);
    InsertAddsOne(WithField(m, "sign", sign), "sign_type", signType);
  }

  lemma SignatureLabels()
    ensures IsLabel("sign") && IsLabel("sign_type")
  {
  }

  lemma UnsignedIsSigned(m: Fields)
    requires IsUnsigned(m)
    ensures Signed(m) == m
  {
  }
}
