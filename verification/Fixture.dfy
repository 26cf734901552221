/** A complete notification from the sender's fields to the receiver's, end to end. */
module EndToEnd {
  import opened Wrappers
  import opened ByteStrings
  import opened Utf8
  import opened SortedMaps
  import opened FormCodec
  import opened ParamMaps
  import opened Signing
  import opened TextMaps
  import opened Notifications
  import opened Merging
  import opened Verification
  import opened Validation
  import Amounts

  datatype NotifyFixture = NotifyFixture(
    pid: nat, tradeNo: Bytes, outTradeNo: Bytes, payType: PayType, name: Bytes,
    money: Amounts.Money, tradeStatus: Bytes, param: Option<Bytes>)

  function IdentityFields(pid: Bytes, tradeNo: Bytes, outTradeNo: Bytes, payType: Bytes): Fields {
    var m := WithField(map[], "pid", pid);
    var m := WithField(m, "trade_no", tradeNo);
    var m := WithField(m, "out_trade_no", outTradeNo);
    WithField(m, "type", payType)
  }

  function WithDetails(m: Fields, name: Bytes, money: Bytes, tradeStatus: Bytes, param: Option<Bytes>): Fields {
    var m := WithField(m, "name", name);
    var m := WithField(m, "money", money);
    var m := WithField(m, "trade_status", tradeStatus);
    WithOptionalField(m, "param", param)
  }

  function UnsignedFields(f: NotifyFixture): Fields
    requires Amounts.IsMoney(f.money)
  {
    WithDetails(IdentityFields(Numeral(f.pid), f.tradeNo, f.outTradeNo, f.payType.AsStr()),
                f.name, Amounts.ToEpayString(f.money), f.tradeStatus, f.param)
  }

  method UnsignedParams(f: NotifyFixture) returns (params: Params)
    requires Amounts.IsMoney(f.money)
    ensures fresh(params) && params.Valid() && params.inner == UnsignedFields(f)
  {
    params := new Params();
    params.Insert("pid", Numeral(f.pid));
    params.Insert("trade_no", f.tradeNo);
    params.Insert("out_trade_no", f.outTradeNo);
    params.Insert("type", f.payType.AsStr());
    assert params.inner == IdentityFields(Numeral(f.pid), f.tradeNo, f.outTradeNo, f.payType.AsStr());
    params.Insert("name", f.name);
    params.Insert("money", Amounts.ToEpayString(f.money));
    params.Insert("trade_status", f.tradeStatus);
    params.InsertOpt("param", f.param);
  }

  method SignedQuery(f: NotifyFixture, signer: Signer) returns (query: Bytes)
    requires Amounts.IsMoney(f.money)
    ensures query == Encode(SignedFields(signer, UnsignedFields(f)))
  {
    var params := UnsignedParams(f);
    SignWithParams(signer, params);
    query := params.BuildQuery();
  }

  /** What is read back under a key that was inserted with value `v`. */
  function Asked(key: Bytes, v: Bytes): Result<Bytes, NotifyError> {
    if v == [] then Err(MissingField(key)) else Ok(v)
  }

  lemma IdentityLookups(pid: Bytes, tradeNo: Bytes, outTradeNo: Bytes, payType: Bytes)
    ensures var m := IdentityFields(pid, tradeNo, outTradeNo, payType);
            && Required(m, "pid") == Asked("pid", pid)
            && Required(m, "trade_no") == Asked("trade_no", tradeNo)
            && Required(m, "out_trade_no") == Asked("out_trade_no", outTradeNo)
            && Required(m, "type") == Asked("type", payType)
            && "name" !in m && "money" !in m && "trade_status" !in m && "param" !in m
  {
  }

  lemma DetailLookups(m: Fields, name: Bytes, money: Bytes, tradeStatus: Bytes, param: Option<Bytes>)
    requires "name" !in m && "money" !in m && "trade_status" !in m && "param" !in m
    ensures var n := WithDetails(m, name, money, tradeStatus, param);
            && Required(n, "name") == Asked("name", name)
            && Required(n, "money") == Asked("money", money)
            && Required(n, "trade_status") == Asked("trade_status", tradeStatus)
            && GetField(n, "param").GetOr([]) == param.GetOr([])
  {
  }

  lemma DetailsKeepIdentity(m: Fields, name: Bytes, money: Bytes, tradeStatus: Bytes, param: Option<Bytes>, key: Bytes)
    requires key != "name" && key != "money" && key != "trade_status" && key != "param"
    ensures Required(WithDetails(m, name, money, tradeStatus, param), key) == Required(m, key)
  {
  }

  /** The sender's texts are Rust strings and the amount fits the parser: see `Amounts`. */
  predicate IsFixture(f: NotifyFixture) {
    && ValidUtf8(f.tradeNo) && ValidUtf8(f.outTradeNo) && ValidUtf8(f.payType.AsStr())
    && ValidUtf8(f.name) && ValidUtf8(f.tradeStatus) && ValidUtf8(f.param.GetOr([]))
    && Amounts.IsMoney(f.money) && Amounts.Fen(f.money) < Amounts.MANTISSA_LIMIT
  }

  /** The field rules of the receiver, as the sender can check them. */
  predicate FieldsPass(f: NotifyFixture) {
    && 1 <= f.pid <= U64_MAX
    && ValidateTradeNo(f.tradeNo).Ok? && ValidateOutTradeNo(f.outTradeNo).Ok?
    && ValidatePayType(f.payType).Ok? && ValidateName(f.name).Ok?
    && !IsBlank(f.tradeStatus)
  }

  /** What the receiver is handed: the channel by wire name, the amount in fen. */
  function Delivered(f: NotifyFixture): NotifyData
    requires IsFixture(f)
  {
    NotifyData(f.pid, f.tradeNo, f.outTradeNo, PayType.From(f.payType.AsStr()), f.name,
               Amounts.Money(Amounts.Decimal(Amounts.Fen(f.money), 2)), f.tradeStatus,
               f.param.GetOr([]))
  }

  lemma FixtureLabels()
    ensures IsLabel("pid") && IsLabel("trade_no") && IsLabel("out_trade_no") && IsLabel("type")
    ensures IsLabel("name") && IsLabel("money") && IsLabel("trade_status") && IsLabel("param")
  {
  }

  lemma IdentityIsText(pid: Bytes, tradeNo: Bytes, outTradeNo: Bytes, payType: Bytes)
    requires ValidUtf8(pid) && ValidUtf8(tradeNo) && ValidUtf8(outTradeNo) && ValidUtf8(payType)
    ensures IsUnsigned(IdentityFields(pid, tradeNo, outTradeNo, payType))
  {
    FixtureLabels();
    var m: Fields := map[];
    InsertKeepsUnsigned(m, "pid", pid);
    m := WithField(m, "pid", pid);
    InsertKeepsUnsigned(m, "trade_no", tradeNo);
    m := WithField(m, "trade_no", tradeNo);
    InsertKeepsUnsigned(m, "out_trade_no", outTradeNo);
    m := WithField(m, "out_trade_no", outTradeNo);
    InsertKeepsUnsigned(m, "type", payType);
  }

  lemma DetailsAreText(m: Fields, name: Bytes, money: Bytes, tradeStatus: Bytes, param: Option<Bytes>)
    requires IsUnsigned(m) && ValidUtf8(name) && ValidUtf8(money)
    requires ValidUtf8(tradeStatus) && ValidUtf8(param.GetOr([]))
    ensures IsUnsigned(WithDetails(m, name, money, tradeStatus, param))
  {
    FixtureLabels();
    InsertKeepsUnsigned(m, "name", name);
    var n := WithField(m, "name", name);
    InsertKeepsUnsigned(n, "money", money);
    n := WithField(n, "money", money);
    InsertKeepsUnsigned(n, "trade_status", tradeStatus);
    InsertKeepsUnsigned(WithField(n, "trade_status", tradeStatus), "param", param.GetOr([]));
  }

  lemma UnsignedIsText(f: NotifyFixture)
    requires IsFixture(f)
    ensures IsUnsigned(UnsignedFields(f))
  {
    Amounts.PrintsFen(f.money);
    Amounts.FenSign(f.money);
    AsciiIsValid(Numeral(f.pid));
    AsciiIsValid(Amounts.ToEpayString(f.money));
    IdentityIsText(Numeral(f.pid), f.tradeNo, f.outTradeNo, f.payType.AsStr());
    DetailsAreText(IdentityFields(Numeral(f.pid), f.tradeNo, f.outTradeNo, f.payType.AsStr()),
                   f.name, Amounts.ToEpayString(f.money), f.tradeStatus, f.param);
  }

  lemma MoneyDelivered(f: NotifyFixture, wide: Bytes -> Option<Amounts.Decimal>)
    requires IsFixture(f)
    ensures CheckedMoney(Ok(Amounts.ToEpayString(f.money)), wide)
         == Ok(Amounts.Money(Amounts.Decimal(Amounts.Fen(f.money), 2)))
    ensures Amounts.IsMoney(Amounts.Money(Amounts.Decimal(Amounts.Fen(f.money), 2)))
    ensures Amounts.SameValue(Amounts.Decimal(Amounts.Fen(f.money), 2), f.money.amount)
  {
    Amounts.PrintParseRoundTrip(f.money, wide);
  }

  lemma PidReads(pid: nat, expectedPid: nat)
    ensures CheckedPid(Ok(Numeral(pid)), expectedPid)
         == if pid > U64_MAX then Err(InvalidPid)
            else if pid == 0 || pid != expectedPid then Err(PidMismatch)
            else Ok(pid)
  {
    ParseU64OfNumeral(pid);
  }

  lemma IdentifiersRead(m: Fields, f: NotifyFixture)
    requires Required(m, "trade_no") == Asked("trade_no", f.tradeNo)
    requires Required(m, "out_trade_no") == Asked("out_trade_no", f.outTradeNo)
    ensures CheckedTradeNo(Required(m, "trade_no")).Ok? <==> ValidateTradeNo(f.tradeNo).Ok?
    ensures ValidateTradeNo(f.tradeNo).Ok? ==> CheckedTradeNo(Required(m, "trade_no")) == Ok(f.tradeNo)
    ensures CheckedOutTradeNo(Required(m, "out_trade_no")).Ok? <==> ValidateOutTradeNo(f.outTradeNo).Ok?
    ensures ValidateOutTradeNo(f.outTradeNo).Ok? ==> CheckedOutTradeNo(Required(m, "out_trade_no")) == Ok(f.outTradeNo)
  {
  }

  lemma TypeReads(m: Fields, t: PayType)
    requires Required(m, "type") == Asked("type", t.AsStr())
    ensures CheckedType(Required(m, "type")).Ok? <==> ValidatePayType(t).Ok?
    ensures ValidatePayType(t).Ok? ==> CheckedType(Required(m, "type")) == Ok(PayType.From(t.AsStr()))
  {
    PayTypeByWire(t);
  }

  lemma TextsRead(m: Fields, name: Bytes, status: Bytes)
    requires Required(m, "name") == Asked("name", name)
    requires Required(m, "trade_status") == Asked("trade_status", status)
    ensures CheckedName(Required(m, "name")).Ok? <==> ValidateName(name).Ok?
    ensures ValidateName(name).Ok? ==> CheckedName(Required(m, "name")) == Ok(name)
    ensures CheckedStatus(Required(m, "trade_status")).Ok? <==> !IsBlank(status)
    ensures !IsBlank(status) ==> CheckedStatus(Required(m, "trade_status")) == Ok(status)
  {
  }

  lemma RequiredLookups(f: NotifyFixture)
    requires IsFixture(f)
    ensures var m := UnsignedFields(f);
            && Required(m, "pid") == Asked("pid", Numeral(f.pid))
            && Required(m, "trade_no") == Asked("trade_no", f.tradeNo)
            && Required(m, "out_trade_no") == Asked("out_trade_no", f.outTradeNo)
            && Required(m, "type") == Asked("type", f.payType.AsStr())
            && Required(m, "name") == Asked("name", f.name)
            && Required(m, "money") == Asked("money", Amounts.ToEpayString(f.money))
            && Required(m, "trade_status") == Asked("trade_status", f.tradeStatus)
            && GetField(m, "param").GetOr([]) == f.param.GetOr([])
  {
    AllLookups(Numeral(f.pid), f.tradeNo, f.outTradeNo, f.payType.AsStr(),
               f.name, Amounts.ToEpayString(f.money), f.tradeStatus, f.param);
  }

  lemma AllLookups(pid: Bytes, tradeNo: Bytes, outTradeNo: Bytes, payType: Bytes,
                   name: Bytes, money: Bytes, tradeStatus: Bytes, param: Option<Bytes>)
    ensures var m := WithDetails(IdentityFields(pid, tradeNo, outTradeNo, payType), name, money, tradeStatus, param);
            && Required(m, "pid") == Asked("pid", pid)
            && Required(m, "trade_no") == Asked("trade_no", tradeNo)
            && Required(m, "out_trade_no") == Asked("out_trade_no", outTradeNo)
            && Required(m, "type") == Asked("type", payType)
            && Required(m, "name") == Asked("name", name)
            && Required(m, "money") == Asked("money", money)
            && Required(m, "trade_status") == Asked("trade_status", tradeStatus)
            && GetField(m, "param").GetOr([]) == param.GetOr([])
  {
    var core := IdentityFields(pid, tradeNo, outTradeNo, payType);
    IdentityLookups(pid, tradeNo, outTradeNo, payType);
    DetailsKeepIdentity(core, name, money, tradeStatus, param, "pid");
    DetailsKeepIdentity(core, name, money, tradeStatus, param, "trade_no");
    DetailsKeepIdentity(core, name, money, tradeStatus, param, "out_trade_no");
    DetailsKeepIdentity(core, name, money, tradeStatus, param, "type");
    DetailLookups(core, name, money, tradeStatus, param);
  }

  /** A receiver reads the sender's fields exactly when they satisfy the field rules and the pid is its own. */
  lemma FixtureReads(f: NotifyFixture, expectedPid: nat, wide: Bytes -> Option<Amounts.Decimal>)
    requires IsFixture(f)
    ensures ReadFields(expectedPid, UnsignedFields(f), wide).Ok? <==> FieldsPass(f) && f.pid == expectedPid
    ensures FieldsPass(f) && f.pid == expectedPid ==>
              ReadFields(expectedPid, UnsignedFields(f), wide) == Ok(Delivered(f))
  {
    var m := UnsignedFields(f);
    RequiredLookups(f);
    Amounts.PrintsFen(f.money);
    PidReads(f.pid, expectedPid);
    IdentifiersRead(m, f);
    TypeReads(m, f.payType);
    TextsRead(m, f.name, f.tradeStatus);
    MoneyDelivered(f, wide);
  }

  /**
    End to end: sign, serialize, distribute the pairs over query and form in any way and any order,
    parse strictly, merge, verify.  A receiver accepts exactly the fixtures for its own pid whose
    fields satisfy its rules, and is then handed the sender's fields unchanged, whatever the digest
    function.
   */
  lemma EndToEndDelivery(f: NotifyFixture, signer: Signer, expectedPid: nat, qs: seq<Pair>, fs: seq<Pair>,
                         limits: Limits, wide: Bytes -> Option<Amounts.Decimal>)
    requires IsFixture(f)
    requires SplitsInto(SignedFields(signer, UnsignedFields(f)), qs, fs)
    requires |qs| + |fs| <= limits.maxFields
    requires |EncodePairs(qs)| + |EncodePairs(fs)| <= limits.maxEncodedBytes
    ensures var parsed := ParseNotify(Some(EncodePairs(qs)), Some(EncodePairs(fs)), limits);
            && parsed == Ok(SignedFields(signer, UnsignedFields(f)))
            && (VerifyNotify(signer, expectedPid, parsed.value, wide).Ok? <==> FieldsPass(f) && f.pid == expectedPid)
            && (FieldsPass(f) && f.pid == expectedPid ==>
                  VerifyNotify(signer, expectedPid, parsed.value, wide) == Ok(Delivered(f)))
  {
    var m := SignedFields(signer, UnsignedFields(f));
    UnsignedIsText(f);
    SigningKeepsWireMap(signer, UnsignedFields(f));
    SplitWritable(m, qs, fs);
    SplitRoundTrip(m, qs, fs, limits);
    SignedVerdict(f, signer, expectedPid, wide);
  }

  /** The verdict on the signed map itself. */
  lemma SignedVerdict(f: NotifyFixture, signer: Signer, expectedPid: nat, wide: Bytes -> Option<Amounts.Decimal>)
    requires IsFixture(f)
    ensures var m := SignedFields(signer, UnsignedFields(f));
            && (VerifyNotify(signer, expectedPid, m, wide).Ok? <==> FieldsPass(f) && f.pid == expectedPid)
            && (FieldsPass(f) && f.pid == expectedPid ==>
                  VerifyNotify(signer, expectedPid, m, wide) == Ok(Delivered(f)))
  {
    UnsignedIsText(f);
    UnsignedIsSigned(UnsignedFields(f));
    SignedFieldsShape(signer, UnsignedFields(f));
    SignedIsAuthentic(signer, UnsignedFields(f));
    AcceptedIff(signer, expectedPid, SignedFields(signer, UnsignedFields(f)), wide);
    FixtureReads(f, expectedPid, wide);
  }

  /** The fixture's own query string, under the default limits. */
  lemma QueryDelivery(f: NotifyFixture, signer: Signer, expectedPid: nat, wide: Bytes -> Option<Amounts.Decimal>)
    requires IsFixture(f)
    ensures var m := SignedFields(signer, UnsignedFields(f));
            |Encode(m)| <= 16 * 1024 ==>
              var parsed := ParseNotify(Some(Encode(m)), None, DEFAULT_LIMITS);
              && parsed == Ok(m)
              && (VerifyNotify(signer, expectedPid, m, wide).Ok? <==> FieldsPass(f) && f.pid == expectedPid)
              && (FieldsPass(f) && f.pid == expectedPid ==>
                    VerifyNotify(signer, expectedPid, m, wide) == Ok(Delivered(f)))
  {
    var m := SignedFields(signer, UnsignedFields(f));
    UnsignedIsText(f);
    SigningKeepsWireMap(signer, UnsignedFields(f));
    FixtureSize(Numeral(f.pid), f.tradeNo, f.outTradeNo, f.payType.AsStr(),
                f.name, Amounts.ToEpayString(f.money), f.tradeStatus, f.param);
    if |Encode(m)| <= DEFAULT_LIMITS.maxEncodedBytes { EncodeReadsBack(m, DEFAULT_LIMITS); }
    SignedVerdict(f, signer, expectedPid, wide);
  }

  lemma FixtureSize(pid: Bytes, tradeNo: Bytes, outTradeNo: Bytes, payType: Bytes,
                    name: Bytes, money: Bytes, tradeStatus: Bytes, param: Option<Bytes>)
    ensures |WithDetails(IdentityFields(pid, tradeNo, outTradeNo, payType), name, money, tradeStatus, param)| <= 8
  {
  }

  lemma SplitWritable(m: Fields, qs: seq<Pair>, fs: seq<Pair>)
    requires IsWireMap(m) && SplitsInto(m, qs, fs)
    ensures Writable(qs) && Writable(fs)
  {
    forall p | p in qs + fs ensures IsWritablePair(p) {}
    assert forall p :: p in qs ==> p in qs + fs;
    assert forall p :: p in fs ==> p in qs + fs;
  }
}
