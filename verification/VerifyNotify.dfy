/** Signature, identity and field checks on a canonical notification. */
module Verification {
  import opened Wrappers
  import opened ByteStrings
  import opened SortedMaps
  import opened ParamMaps
  import opened Signing
  import opened Notifications
  import opened Validation
  import Amounts

  const U64_MAX := 0xFFFF_FFFF_FFFF_FFFF

  datatype NotifyData = NotifyData(
    pid: nat, tradeNo: Bytes, outTradeNo: Bytes, payType: PayType,
    name: Bytes, money: Amounts.Money, tradeStatus: Bytes, param: Bytes)

  /** `str::parse::<u64>`: an optional `+`, then at least one digit. */
  function ParseU64(s: Bytes): Option<nat> {
    var digits := if s != [] && s[0] == '+' then s[1..] else s;
    if digits == [] || !AllDigits(digits) || NumeralValue(digits) > U64_MAX then None
    else Some(NumeralValue(digits))
  }

  lemma ParseU64OfNumeral(n: nat)
    ensures ParseU64(Numeral(n)) == if n <= U64_MAX then Some(n) else None
  {
    NumeralReads(n);
    assert IsDigit(Numeral(n)[0]);
  }

  /** Digits below 2^64 are read, with or without a plus sign, and nothing else is. */
  lemma ParseU64Iff(s: Bytes, digits: Bytes)
    requires digits == if s != [] && s[0] == '+' then s[1..] else s
    ensures ParseU64(s).Some? <==>
              digits != [] && AllDigits(digits) && NumeralValue(digits) <= 0xFFFF_FFFF_FFFF_FFFF
    ensures ParseU64(s).Some? ==> ParseU64(s) == Some(NumeralValue(digits))
  {
  }

  function Required(params: Fields, key: Bytes): Result<Bytes, NotifyError> {
    if key in params && params[key] != [] then Ok(params[key]) else Err(MissingField(key))
  }

  /** `wide` is the decimal crate's treatment of over-long numbers: see `Amounts.ParseDecimal`. */
  function VerifyNotify(signer: Signer, expectedPid: nat, params: Fields,
                        wide: Bytes -> Option<Amounts.Decimal>)
    : Result<NotifyData, NotifyError>
  {
    var signType :- Required(params, "sign_type");
    if LowerAll(signType) != LowerAll(SIGN_TYPE_MD5) then Err(UnsupportedSignType)
    else
      var sign :- Required(params, "sign");
      if !Verify(signer, params, sign) then Err(VerifyFailed) else ReadFields(expectedPid, params, wide)
  }

  function CheckedPid(text: Result<Bytes, NotifyError>, expectedPid: nat): Result<nat, NotifyError> {
    var text :- text;
    match ParseU64(text)
    case None => Err(InvalidPid)
    case Some(pid) => if pid == 0 || pid != expectedPid then Err(PidMismatch) else Ok(pid)
  }

  function CheckedTradeNo(text: Result<Bytes, NotifyError>): Result<Bytes, NotifyError> {
    var tradeNo :- text;
    if ValidateTradeNo(tradeNo).Ok? then Ok(tradeNo) else Err(NotifyError.InvalidTradeNo)
  }

  function CheckedOutTradeNo(text: Result<Bytes, NotifyError>): Result<Bytes, NotifyError> {
    var outTradeNo :- text;
    if ValidateOutTradeNo(outTradeNo).Ok? then Ok(outTradeNo) else Err(NotifyError.InvalidOutTradeNo)
  }

  function CheckedType(text: Result<Bytes, NotifyError>): Result<PayType, NotifyError> {
    var text :- text;
    var payType := PayType.From(text);
    if ValidatePayType(payType).Ok? then Ok(payType) else Err(InvalidType)
  }

  function CheckedName(text: Result<Bytes, NotifyError>): Result<Bytes, NotifyError> {
    var name :- text;
    if ValidateName(name).Ok? then Ok(name) else Err(InvalidName)
  }

  function CheckedMoney(text: Result<Bytes, NotifyError>, wide: Bytes -> Option<Amounts.Decimal>)
    : Result<Amounts.Money, NotifyError>
  {
    var text :- text;
    match Amounts.FromYuanStr(text, wide)
    case Err(_) => Err(InvalidMoney)
    case Ok(money) => Ok(money)
  }

  function CheckedStatus(text: Result<Bytes, NotifyError>): Result<Bytes, NotifyError> {
    var tradeStatus :- text;
    if IsBlank(tradeStatus) then Err(BlankTradeStatus) else Ok(tradeStatus)
  }

  /** The first failing field decides, in the order of the source. */
  function Assemble(pid: Result<nat, NotifyError>, tradeNo: Result<Bytes, NotifyError>,
                    outTradeNo: Result<Bytes, NotifyError>, payType: Result<PayType, NotifyError>,
                    name: Result<Bytes, NotifyError>, money: Result<Amounts.Money, NotifyError>,
                    tradeStatus: Result<Bytes, NotifyError>, param: Bytes)
    : Result<NotifyData, NotifyError>
  {
    var pid :- pid;
    var tradeNo :- tradeNo;
    var outTradeNo :- outTradeNo;
    var payType :- payType;
    var name :- name;
    var money :- money;
    var tradeStatus :- tradeStatus;
    Ok(NotifyData(pid, tradeNo, outTradeNo, payType, name, money, tradeStatus, param))
  }

  /** The structural checks that follow a valid signature. */
  function ReadFields(expectedPid: nat, params: Fields, wide: Bytes -> Option<Amounts.Decimal>)
    : Result<NotifyData, NotifyError>
  {
    Assemble(
      CheckedPid(Required(params, "pid"), expectedPid),
      CheckedTradeNo(Required(params, "trade_no")),
      CheckedOutTradeNo(Required(params, "out_trade_no")),
      CheckedType(Required(params, "type")),
      CheckedName(Required(params, "name")),
      CheckedMoney(Required(params, "money"), wide),
      CheckedStatus(Required(params, "trade_status")),
      GetField(params, "param").GetOr([]))
  }

  /** What an accepted map holds, field by field. */
  predicate FieldsAccepted(expectedPid: nat, params: Fields, wide: Bytes -> Option<Amounts.Decimal>) {
    && "pid" in params && ParseU64(params["pid"]) == Some(expectedPid) && expectedPid >= 1
    && "trade_no" in params && ValidateTradeNo(params["trade_no"]).Ok?
    && "out_trade_no" in params && ValidateOutTradeNo(params["out_trade_no"]).Ok?
    && "type" in params && ValidatePayType(PayType.From(params["type"])).Ok?
    && "name" in params && ValidateName(params["name"]).Ok?
    && "money" in params && Amounts.FromYuanStr(params["money"], wide).Ok?
    && "trade_status" in params && !IsBlank(params["trade_status"])
  }

  /** The data an accepted map holds. */
  function DataOf(expectedPid: nat, params: Fields, wide: Bytes -> Option<Amounts.Decimal>): NotifyData
    requires FieldsAccepted(expectedPid, params, wide)
  {
    NotifyData(expectedPid, params["trade_no"], params["out_trade_no"], PayType.From(params["type"]),
               params["name"], Amounts.FromYuanStr(params["money"], wide).value, params["trade_status"],
               if "param" in params then params["param"] else [])
  }

  lemma PidAccepted(params: Fields, expectedPid: nat)
    ensures CheckedPid(Required(params, "pid"), expectedPid).Ok? <==>
              "pid" in params && ParseU64(params["pid"]) == Some(expectedPid) && expectedPid >= 1
    ensures CheckedPid(Required(params, "pid"), expectedPid).Ok? ==>
              CheckedPid(Required(params, "pid"), expectedPid) == Ok(expectedPid)
  {
  }

  lemma NumbersAccepted(params: Fields)
    ensures var r := CheckedTradeNo(Required(params, "trade_no"));
            && (r.Ok? <==> "trade_no" in params && ValidateTradeNo(params["trade_no"]).Ok?)
            && (r.Ok? ==> r.value == params["trade_no"])
    ensures var r := CheckedOutTradeNo(Required(params, "out_trade_no"));
            && (r.Ok? <==> "out_trade_no" in params && ValidateOutTradeNo(params["out_trade_no"]).Ok?)
            && (r.Ok? ==> r.value == params["out_trade_no"])
  {
  }

  lemma TypeAccepted(params: Fields)
    ensures var r := CheckedType(Required(params, "type"));
            && (r.Ok? <==> "type" in params && ValidatePayType(PayType.From(params["type"])).Ok?)
            && (r.Ok? ==> r.value == PayType.From(params["type"]))
  {
  }

  lemma EmptyIsBlank()
    ensures IsBlank([])
  {
    assert TrimStart([]) == [];
  }

  lemma TextsAccepted(params: Fields)
    ensures var r := CheckedName(Required(params, "name"));
            && (r.Ok? <==> "name" in params && ValidateName(params["name"]).Ok?)
            && (r.Ok? ==> r.value == params["name"])
    ensures var r := CheckedStatus(Required(params, "trade_status"));
            && (r.Ok? <==> "trade_status" in params && !IsBlank(params["trade_status"]))
            && (r.Ok? ==> r.value == params["trade_status"])
  {
    EmptyIsBlank();
  }

  lemma NoMoneyInNothing(wide: Bytes -> Option<Amounts.Decimal>)
    ensures Amounts.FromYuanStr([], wide).Err?
  {
    EmptyIsBlank();
  }

  lemma MoneyAccepted(params: Fields, wide: Bytes -> Option<Amounts.Decimal>)
    ensures var r := CheckedMoney(Required(params, "money"), wide);
            && (r.Ok? <==> "money" in params && Amounts.FromYuanStr(params["money"], wide).Ok?)
            && (r.Ok? ==> r.value == Amounts.FromYuanStr(params["money"], wide).value)
  {
    NoMoneyInNothing(wide);
  }

  lemma AssembleIff(pid: Result<nat, NotifyError>, tradeNo: Result<Bytes, NotifyError>,
                    outTradeNo: Result<Bytes, NotifyError>, payType: Result<PayType, NotifyError>,
                    name: Result<Bytes, NotifyError>, money: Result<Amounts.Money, NotifyError>,
                    tradeStatus: Result<Bytes, NotifyError>, param: Bytes)
    ensures var r := Assemble(pid, tradeNo, outTradeNo, payType, name, money, tradeStatus, param);
            && (r.Ok? <==> pid.Ok? && tradeNo.Ok? && outTradeNo.Ok? && payType.Ok? && name.Ok? && money.Ok?
                           && tradeStatus.Ok?)
            && (r.Ok? ==> r.value == NotifyData(pid.value, tradeNo.value, outTradeNo.value, payType.value, name.value,
                                                money.value, tradeStatus.value, param))
  {
  }

  /** The field checks accept exactly such maps, and hand over what they hold. */
  lemma ReadFieldsIff(expectedPid: nat, params: Fields, wide: Bytes -> Option<Amounts.Decimal>)
    ensures ReadFields(expectedPid, params, wide).Ok? <==> FieldsAccepted(expectedPid, params, wide)
    ensures FieldsAccepted(expectedPid, params, wide) ==>
              ReadFields(expectedPid, params, wide) == Ok(DataOf(expectedPid, params, wide))
  {
    PidAccepted(params, expectedPid);
    NumbersAccepted(params);
    TypeAccepted(params);
    TextsAccepted(params);
    MoneyAccepted(params, wide);
    AssembleIff(
      CheckedPid(Required(params, "pid"), expectedPid),
      CheckedTradeNo(Required(params, "trade_no")),
      CheckedOutTradeNo(Required(params, "out_trade_no")),
      CheckedType(Required(params, "type")),
      CheckedName(Required(params, "name")),
      CheckedMoney(Required(params, "money"), wide),
      CheckedStatus(Required(params, "trade_status")),
      GetField(params, "param").GetOr([]));
  }

  /** Two maps with the same signed fields are read alike. */
  lemma ReadFieldsSeesSigned(expectedPid: nat, m: Fields, n: Fields, wide: Bytes -> Option<Amounts.Decimal>)
    requires Signed(m) == Signed(n)
    ensures ReadFields(expectedPid, m, wide) == ReadFields(expectedPid, n, wide)
  {
    SignedLookup(m, n, "pid");
    SignedLookup(m, n, "trade_no");
    SignedLookup(m, n, "out_trade_no");
    SignedLookup(m, n, "type");
    SignedLookup(m, n, "name");
    SignedLookup(m, n, "money");
    SignedLookup(m, n, "trade_status");
    SignedLookup(m, n, "param");
  }

  lemma SignedLookup(m: Fields, n: Fields, key: Bytes)
    requires Signed(m) == Signed(n) && !IsSignatureField(key)
    ensures GetField(m, key) == GetField(n, key) && Required(m, key) == Required(n, key)
  {
    assert GetField(m, key) == GetField(Signed(m), key) == GetField(Signed(n), key) == GetField(n, key);
  }

  /** The two signature fields are present and right. */
  predicate Authentic(signer: Signer, params: Fields) {
    && "sign_type" in params && LowerAll(params["sign_type"]) == LowerAll(SIGN_TYPE_MD5)
    && "sign" in params && LowerAll(params["sign"]) == Sign(signer, params)
  }

  /** Signing makes a map authentic. */
  lemma SignedIsAuthentic(signer: Signer, m: Fields)
    ensures Authentic(signer, SignedFields(signer, m))
  {
    SignedFieldsShape(signer, m);
    var signed := SignedFields(signer, m);
    assert signed["sign"] == Sign(signer, m) && signed["sign_type"] == SIGN_TYPE_MD5;
    assert LowerAll(Sign(signer, m)) == Sign(signer, m);
  }

  lemma SignatureGate(signer: Signer, expectedPid: nat, params: Fields, wide: Bytes -> Option<Amounts.Decimal>)
    ensures Authentic(signer, params) ==>
              VerifyNotify(signer, expectedPid, params, wide) == ReadFields(expectedPid, params, wide)
    ensures !Authentic(signer, params) ==> VerifyNotify(signer, expectedPid, params, wide).Err?
  {
    if "sign" in params { VerifyIff(signer, params, params["sign"]); }
    LowerKeepsLength(SIGN_TYPE_MD5);
    if "sign_type" in params { LowerKeepsLength(params["sign_type"]); }
  }

  lemma LowerKeepsLength(s: Bytes)
    ensures |LowerAll(s)| == |s|
  {
  }

  /**
    Acceptance depends on the signed fields and on the two signature fields without their letter
    case, and on nothing else.
   */
  lemma AcceptedIff(signer: Signer, expectedPid: nat, params: Fields, wide: Bytes -> Option<Amounts.Decimal>)
    ensures VerifyNotify(signer, expectedPid, params, wide).Ok? <==>
              Authentic(signer, params) && ReadFields(expectedPid, Signed(params), wide).Ok?
    ensures VerifyNotify(signer, expectedPid, params, wide).Ok? ==>
              VerifyNotify(signer, expectedPid, params, wide) == ReadFields(expectedPid, Signed(params), wide)
  {
    SignatureGate(signer, expectedPid, params, wide);
    assert Signed(Signed(params)) == Signed(params);
    ReadFieldsSeesSigned(expectedPid, params, Signed(params), wide);
  }

  /**
    A notification is accepted exactly when `sign_type` is MD5 and `sign` the digest of payload and
    key, in any letter case, when its `pid` reads as the configured one, and when every other field is
    there and satisfies its rule.  What is handed over is what the map holds.
   */
  lemma VerifyNotifyIff(signer: Signer, expectedPid: nat, params: Fields, wide: Bytes -> Option<Amounts.Decimal>)
    ensures VerifyNotify(signer, expectedPid, params, wide).Ok? <==>
              && "sign_type" in params && LowerAll(params["sign_type"]) == "md5"
              && "sign" in params && LowerAll(params["sign"]) == HexLower(signer.md5(SignPayload(params) + signer.key))
              && FieldsAccepted(expectedPid, params, wide)
    ensures VerifyNotify(signer, expectedPid, params, wide).Ok? ==>
              VerifyNotify(signer, expectedPid, params, wide) == Ok(DataOf(expectedPid, params, wide))
  {
    SignatureGate(signer, expectedPid, params, wide);
    ReadFieldsIff(expectedPid, params, wide);
    if "sign" in params { VerifyIff(signer, params, params["sign"]); }
    LowerMd5();
  }

  lemma LowerMd5()
    ensures LowerAll(SIGN_TYPE_MD5) == "md5"
  {
  }

  /** Which error a notification without an authentic signature gets. */
  lemma SignatureErrors(signer: Signer, expectedPid: nat, params: Fields, wide: Bytes -> Option<Amounts.Decimal>)
    requires "sign_type" in params && "sign" in params && params["sign_type"] != [] && params["sign"] != []
    ensures LowerAll(params["sign_type"]) != "md5" ==>
              VerifyNotify(signer, expectedPid, params, wide) == Err(UnsupportedSignType)
    ensures LowerAll(params["sign_type"]) == "md5" && !Verify(signer, params, params["sign"]) ==>
              VerifyNotify(signer, expectedPid, params, wide) == Err(NotifyError.VerifyFailed)
  {
    LowerMd5();
  }

  lemma PidFaults(params: Fields, expectedPid: nat)
    ensures "pid" !in params || params["pid"] == [] ==>
              CheckedPid(Required(params, "pid"), expectedPid) == Err(MissingField("pid"))
    ensures "pid" in params && params["pid"] != [] && ParseU64(params["pid"]).None? ==>
              CheckedPid(Required(params, "pid"), expectedPid) == Err(InvalidPid)
    ensures "pid" in params && ParseU64(params["pid"]).Some?
            && (ParseU64(params["pid"]).value == 0 || ParseU64(params["pid"]).value != expectedPid) ==>
              CheckedPid(Required(params, "pid"), expectedPid) == Err(PidMismatch)
  {
  }

  lemma PidDecides(signer: Signer, expectedPid: nat, params: Fields, wide: Bytes -> Option<Amounts.Decimal>,
                   error: NotifyError)
    requires Authentic(signer, params) && CheckedPid(Required(params, "pid"), expectedPid) == Err(error)
    ensures VerifyNotify(signer, expectedPid, params, wide) == Err(error)
  {
    SignatureGate(signer, expectedPid, params, wide);
  }

  /** An authentic notification for somebody else, or without a readable `pid`, is refused before anything else. */
  lemma PidErrors(signer: Signer, expectedPid: nat, params: Fields, wide: Bytes -> Option<Amounts.Decimal>)
    requires Authentic(signer, params)
    ensures "pid" !in params || params["pid"] == [] ==>
              VerifyNotify(signer, expectedPid, params, wide) == Err(MissingField("pid"))
    ensures "pid" in params && params["pid"] != [] && ParseU64(params["pid"]).None? ==>
              VerifyNotify(signer, expectedPid, params, wide) == Err(InvalidPid)
    ensures "pid" in params && ParseU64(params["pid"]).Some?
            && (ParseU64(params["pid"]).value == 0 || ParseU64(params["pid"]).value != expectedPid) ==>
              VerifyNotify(signer, expectedPid, params, wide) == Err(PidMismatch)
  {
    PidFaults(params, expectedPid);
    var pid := CheckedPid(Required(params, "pid"), expectedPid);
    if pid.Err? { PidDecides(signer, expectedPid, params, wide, pid.error); }
  }
}
