/** Building the signed fields of a form payment. */
module FormPayments {
  import opened Wrappers
  import opened ByteStrings
  import opened Utf8
  import opened SortedMaps
  import opened ParamMaps
  import opened Signing
  import opened TextMaps
  import opened Notifications
  import opened Merging
  import opened Verification
  import opened Validation
  import Amounts

  datatype Scheme = Https | Http

  /**
    URL parsing with the structural rules for callbacks (host present, neither credentials nor
    fragment, scheme `http` or `https`); `None` when the text breaks one of them.
   */
  type UrlParser = Bytes -> Option<Scheme>

  datatype Config = Config(pid: nat, notifyUrl: Option<Bytes>, returnUrl: Option<Bytes>, allowHttp: bool)

  datatype FormRequest = FormRequest(
    outTradeNo: Bytes, name: Bytes, money: Amounts.Money, payType: Option<PayType>,
    notifyUrl: Option<Bytes>, returnUrl: Option<Bytes>, param: Option<Bytes>, sitename: Option<Bytes>)

  datatype Callbacks = Callbacks(notifyUrl: Bytes, returnUrl: Option<Bytes>)

  // ---- Callbacks ----

  function NonBlank(url: Option<Bytes>): Option<Bytes> {
    match url
    case None => None
    case Some(s) => if Trim(s) == [] then None else Some(Trim(s))
  }

  function FirstNonBlank(primary: Option<Bytes>, fallback: Option<Bytes>): Option<Bytes> {
    if NonBlank(primary).Some? then NonBlank(primary) else NonBlank(fallback)
  }

  function ParseCallback(raw: Bytes, parse: UrlParser, invalid: ParamError): Result<Scheme, ParamError> {
    if |raw| > MAX_CALLBACK_URL_BYTES then Err(CallbackUrlTooLong)
    else match parse(Trim(raw)) case None => Err(invalid) case Some(scheme) => Ok(scheme)
  }

  /** `validate_notify_url`, `validate_return_url`; an absent URL is fine. */
  function CheckOverride(url: Option<Bytes>, parse: UrlParser, invalid: ParamError): Result<(), ParamError> {
    match FirstNonBlank(url, None)
    case None => Ok(())
    case Some(raw) => var _ :- ParseCallback(raw, parse, invalid); Ok(())
  }

  /** `enforce_notify_url_policy`, `enforce_return_url_policy`. */
  function EnforcePolicy(raw: Bytes, parse: UrlParser, allowHttp: bool, invalid: ParamError, insecure: ParamError)
    : Result<(), ParamError>
  {
    var scheme :- ParseCallback(raw, parse, invalid);
    if scheme.Https? || allowHttp then Ok(()) else Err(insecure)
  }

  function ResolveCallbacks(req: FormRequest, config: Config, parse: UrlParser): Result<Callbacks, ParamError> {
    match FirstNonBlank(req.notifyUrl, config.notifyUrl)
    case None => Err(MissingNotifyUrl)
    case Some(notifyUrl) =>
      var _ :- EnforcePolicy(notifyUrl, parse, config.allowHttp, InvalidNotifyUrl, InsecureNotifyUrl);
      match FirstNonBlank(req.returnUrl, config.returnUrl)
      case None => Ok(Callbacks(notifyUrl, None))
      case Some(returnUrl) =>
        var _ :- EnforcePolicy(returnUrl, parse, config.allowHttp, InvalidReturnUrl, InsecureReturnUrl);
        Ok(Callbacks(notifyUrl, Some(returnUrl)))
  }

  lemma NonBlankIs(url: Option<Bytes>)
    ensures NonBlank(url).None? <==> (url.Some? ==> Trim(url.value) == [])
    ensures NonBlank(url).Some? ==> NonBlank(url).value == Trim(url.value)
  {
  }

  lemma ChosenIsTrimmed(primary: Option<Bytes>, fallback: Option<Bytes>)
    requires FirstNonBlank(primary, fallback).Some?
    ensures FirstNonBlank(primary, fallback).value != []
    ensures Trim(FirstNonBlank(primary, fallback).value) == FirstNonBlank(primary, fallback).value
  {
    NonBlankIs(primary);
    NonBlankIs(fallback);
    TrimIdempotent(if NonBlank(primary).Some? then primary.value else fallback.value);
  }

  /** An override that is not blank is sent, trimmed, whatever the default; else the default, unless that is blank. */
  lemma BlankNeverShadows(primary: Option<Bytes>, fallback: Option<Bytes>)
    ensures primary.Some? && Trim(primary.value) != [] ==>
              FirstNonBlank(primary, fallback) == Some(Trim(primary.value))
    ensures (primary.Some? ==> Trim(primary.value) == []) && fallback.Some? && Trim(fallback.value) != [] ==>
              FirstNonBlank(primary, fallback) == Some(Trim(fallback.value))
    ensures FirstNonBlank(primary, fallback).None? <==>
              (primary.Some? ==> Trim(primary.value) == []) && (fallback.Some? ==> Trim(fallback.value) == [])
    ensures IsChosen(FirstNonBlank(primary, fallback), primary, fallback)
  {
    NonBlankIs(primary);
    NonBlankIs(fallback);
  }

  /** What the source promises of a URL that is sent. */
  predicate IsChosen(sent: Option<Bytes>, override: Option<Bytes>, configured: Option<Bytes>) {
    if override.Some? && Trim(override.value) != [] then sent == Some(Trim(override.value))
    else if configured.Some? && Trim(configured.value) != [] then sent == Some(Trim(configured.value))
    else sent == None
  }

  // ---- Requests ----

  /** The first failing check decides. */
  function FirstFailure(checks: seq<Result<(), ParamError>>): Result<(), ParamError> {
    if checks == [] then Ok(())
    else if checks[0].Err? then checks[0]
    else FirstFailure(checks[1..])
  }

  lemma {:induction false} AllPassed(checks: seq<Result<(), ParamError>>, i: nat)
    requires FirstFailure(checks).Ok? && i < |checks|
    ensures checks[i].Ok?
  {
    if i > 0 { AllPassed(checks[1..], i - 1); }
  }

  function OptionalChecks(req: FormRequest): seq<Result<(), ParamError>> {
    [ if req.payType.Some? then ValidatePayType(req.payType.value) else Ok(()),
      if req.param.Some? then ValidateParam(req.param.value) else Ok(()),
      if req.sitename.Some? then ValidateSitename(req.sitename.value) else Ok(()) ]
  }

  function OverrideChecks(req: FormRequest, parse: UrlParser): seq<Result<(), ParamError>> {
    [ CheckOverride(req.notifyUrl, parse, InvalidNotifyUrl), CheckOverride(req.returnUrl, parse, InvalidReturnUrl) ]
  }

  function ValidateRequest(req: FormRequest, parse: UrlParser): Result<(), ParamError> {
    FirstFailure([ValidateOutTradeNo(req.outTradeNo)] + OverrideChecks(req, parse)
                 + [ValidateName(req.name)] + OptionalChecks(req))
  }

  function Prepare(req: FormRequest, config: Config, parse: UrlParser): Result<Callbacks, ParamError> {
    var _ :- ValidateRequest(req, parse);
    ResolveCallbacks(req, config, parse)
  }

  function WireType(payType: Option<PayType>): Option<Bytes> {
    match payType
    case None => None
    case Some(t) => Some(t.AsStr())
  }

  /** Identity, callbacks, name and amount. */
  function CoreFields(pid: Bytes, outTradeNo: Bytes, callbacks: Callbacks, name: Bytes, money: Bytes): Fields {
    var m := WithField(map[], "pid", pid);
    var m := WithField(m, "out_trade_no", outTradeNo);
    var m := WithField(m, "notify_url", callbacks.notifyUrl);
    var m := WithOptionalField(m, "return_url", callbacks.returnUrl);
    var m := WithField(m, "name", name);
    WithField(m, "money", money)
  }

  function WithExtras(m: Fields, payType: Option<Bytes>, param: Option<Bytes>, sitename: Option<Bytes>): Fields {
    var m := WithOptionalField(m, "type", payType);
    var m := WithOptionalField(m, "param", param);
    WithOptionalField(m, "sitename", sitename)
  }

  /** The fields before signing. */
  function FormFields(req: FormRequest, config: Config, callbacks: Callbacks): Fields
    requires Amounts.IsMoney(req.money)
  {
    var core := CoreFields(Numeral(config.pid), req.outTradeNo, callbacks, req.name, Amounts.ToEpayString(req.money));
    WithExtras(core, WireType(req.payType), req.param, req.sitename)
  }

  /** `validate_request_size`. */
  function Bounded(m: Fields): Result<Fields, ParamError> {
    var _ :- ValidateEncodedSize(|Encode(m)|);
    Ok(m)
  }

  function SignPrepared(req: FormRequest, config: Config, signer: Signer, prepared: Result<Callbacks, ParamError>)
    : Result<Fields, ParamError>
    requires Amounts.IsMoney(req.money)
  {
    var callbacks :- prepared;
    Bounded(SignedFields(signer, FormFields(req, config, callbacks)))
  }

  function SignedForm(req: FormRequest, config: Config, signer: Signer, parse: UrlParser): Result<Fields, ParamError>
    requires Amounts.IsMoney(req.money)
  {
    SignPrepared(req, config, signer, Prepare(req, config, parse))
  }

  method BaseParams(config: Config) returns (params: Params)
    ensures fresh(params) && params.Valid()
    ensures params.inner == WithField(map[], "pid", Numeral(config.pid))
  {
    params := new Params();
    params.Insert("pid", Numeral(config.pid));
  }

  method AssembleParams(req: FormRequest, config: Config, callbacks: Callbacks) returns (params: Params)
    requires Amounts.IsMoney(req.money)
    ensures fresh(params) && params.Valid() && params.inner == FormFields(req, config, callbacks)
  {
    params := BaseParams(config);
    params.Insert("out_trade_no", req.outTradeNo);
    params.Insert("notify_url", callbacks.notifyUrl);
    params.InsertOpt("return_url", callbacks.returnUrl);
    params.Insert("name", req.name);
    params.Insert("money", Amounts.ToEpayString(req.money));
    assert params.inner
        == CoreFields(Numeral(config.pid), req.outTradeNo, callbacks, req.name, Amounts.ToEpayString(req.money));
    params.InsertOpt("type", WireType(req.payType));
    params.InsertOpt("param", req.param);
    params.InsertOpt("sitename", req.sitename);
  }

  /** `form_params`: validate, assemble by successive inserts, sign in place, bound. */
  method FormParams(req: FormRequest, config: Config, signer: Signer, parse: UrlParser)
    returns (r: Result<Params, ParamError>)
    requires Amounts.IsMoney(req.money)
    ensures r.Ok? ==> fresh(r.value) && r.value.Valid() && SignedForm(req, config, signer, parse) == Ok(r.value.inner)
    ensures r.Err? ==> SignedForm(req, config, signer, parse) == Err(r.error)
  {
    var prepared := Prepare(req, config, parse);
    if prepared.Err? { return Err(prepared.error); }
    var params := AssembleParams(req, config, prepared.value);
    SignWithParams(signer, params);
    var encoded := params.BuildQuery();
    var size := ValidateEncodedSize(|encoded|);
    if size.Err? { return Err(size.error); }
    r := Ok(params);
  }

  // ---- What a produced form guarantees ----

  predicate IsOptionalText(s: Option<Bytes>) { s.Some? ==> ValidUtf8(s.value) }

  /** All texts are Rust strings and the amount is a `Money`. */
  predicate IsRequest(req: FormRequest) {
    && ValidUtf8(req.outTradeNo) && ValidUtf8(req.name) && Amounts.IsMoney(req.money)
    && IsOptionalText(WireType(req.payType)) && IsOptionalText(req.notifyUrl) && IsOptionalText(req.returnUrl)
    && IsOptionalText(req.param) && IsOptionalText(req.sitename)
  }

  predicate IsConfig(config: Config) {
    IsOptionalText(config.notifyUrl) && IsOptionalText(config.returnUrl)
  }

  lemma ResolvedIsText(primary: Option<Bytes>, fallback: Option<Bytes>)
    requires IsOptionalText(primary) && IsOptionalText(fallback)
    ensures IsOptionalText(FirstNonBlank(primary, fallback))
  {
    if primary.Some? { TrimKeepsText(primary.value); }
    if fallback.Some? { TrimKeepsText(fallback.value); }
  }

  lemma PreparedIsText(req: FormRequest, config: Config, parse: UrlParser)
    requires IsRequest(req) && IsConfig(config) && Prepare(req, config, parse).Ok?
    ensures var callbacks := Prepare(req, config, parse).value;
            ValidUtf8(callbacks.notifyUrl) && IsOptionalText(callbacks.returnUrl)
  {
    ResolvedIsText(req.notifyUrl, config.notifyUrl);
    ResolvedIsText(req.returnUrl, config.returnUrl);
  }

  lemma FormLabels()
    ensures IsLabel("pid") && IsLabel("out_trade_no") && IsLabel("notify_url") && IsLabel("return_url")
    ensures IsLabel("name") && IsLabel("money") && IsLabel("type") && IsLabel("param") && IsLabel("sitename")
  {
  }

  /** A map that has been built with at most `n` inserts of named text. */
  predicate Built(m: Fields, n: nat) { IsUnsigned(m) && |m| <= n }

  lemma InsertBuilds(m: Fields, n: nat, k: Bytes, v: Option<Bytes>)
    requires Built(m, n) && IsLabel(k) && !IsSignatureField(k) && IsOptionalText(v)
    ensures Built(WithOptionalField(m, k, v), n + 1)
  {
    if v.Some? { InsertKeepsUnsigned(m, k, v.value); }
  }

  lemma CoreBuilt(pid: Bytes, outTradeNo: Bytes, callbacks: Callbacks, name: Bytes, money: Bytes)
    requires ValidUtf8(pid) && ValidUtf8(outTradeNo) && ValidUtf8(name) && ValidUtf8(money)
    requires ValidUtf8(callbacks.notifyUrl) && IsOptionalText(callbacks.returnUrl)
    ensures Built(CoreFields(pid, outTradeNo, callbacks, name, money), 6)
  {
    FormLabels();
    var m: Fields := map[];
    InsertBuilds(m, 0, "pid", Some(pid));
    m := WithField(m, "pid", pid);
    InsertBuilds(m, 1, "out_trade_no", Some(outTradeNo));
    m := WithField(m, "out_trade_no", outTradeNo);
    InsertBuilds(m, 2, "notify_url", Some(callbacks.notifyUrl));
    m := WithField(m, "notify_url", callbacks.notifyUrl);
    InsertBuilds(m, 3, "return_url", callbacks.returnUrl);
    m := WithOptionalField(m, "return_url", callbacks.returnUrl);
    InsertBuilds(m, 4, "name", Some(name));
    m := WithField(m, "name", name);
    InsertBuilds(m, 5, "money", Some(money));
  }

  lemma ExtrasBuilt(m: Fields, n: nat, payType: Option<Bytes>, param: Option<Bytes>, sitename: Option<Bytes>)
    requires Built(m, n) && IsOptionalText(payType) && IsOptionalText(param) && IsOptionalText(sitename)
    ensures Built(WithExtras(m, payType, param, sitename), n + 3)
  {
    FormLabels();
    InsertBuilds(m, n, "type", payType);
    var withType := WithOptionalField(m, "type", payType);
    InsertBuilds(withType, n + 1, "param", param);
    InsertBuilds(WithOptionalField(withType, "param", param), n + 2, "sitename", sitename);
  }

  lemma FormFieldsBuilt(req: FormRequest, config: Config, callbacks: Callbacks)
    requires IsRequest(req) && ValidUtf8(callbacks.notifyUrl) && IsOptionalText(callbacks.returnUrl)
    ensures Built(FormFields(req, config, callbacks), 9)
  {
    Amounts.PrintsFen(req.money);
    Amounts.FenSign(req.money);
    AsciiIsValid(Numeral(config.pid));
    AsciiIsValid(Amounts.ToEpayString(req.money));
    CoreBuilt(Numeral(config.pid), req.outTradeNo, callbacks, req.name, Amounts.ToEpayString(req.money));
    var core := CoreFields(Numeral(config.pid), req.outTradeNo, callbacks, req.name, Amounts.ToEpayString(req.money));
    ExtrasBuilt(core, 6, WireType(req.payType), req.param, req.sitename);
  }

  /**
    Every form that is produced has at most 11 fields and 4096 encoded bytes, its query string parses
    back under the default limits to exactly the signed map, and the signature in it verifies.
   */
  lemma FormIsDelivered(req: FormRequest, config: Config, signer: Signer, parse: UrlParser)
    requires IsRequest(req) && IsConfig(config)
    ensures match SignedForm(req, config, signer, parse)
            case Err(_) => true
            case Ok(form) =>
              && |form| <= 11 && |Encode(form)| <= 4096
              && ParseNotify(Some(Encode(form)), None, Limits(16 * 1024, 128)) == Ok(form)
              && Authentic(signer, form)
  {
    var prepared := Prepare(req, config, parse);
    if SignPrepared(req, config, signer, prepared).Ok? {
      SignedFormIs(req, config, signer, prepared);
      PreparedIsText(req, config, parse);
      var fields := FormFields(req, config, prepared.value);
      FormFieldsBuilt(req, config, prepared.value);
      SigningKeepsWireMap(signer, fields);
      EncodeReadsBack(SignedFields(signer, fields), DEFAULT_LIMITS);
      SignedIsAuthentic(signer, fields);
    }
  }

  function NonEmptyOption(s: Option<Bytes>): Option<Bytes> {
    if s.Some? && s.value == [] then None else s
  }

  /** The request's values, optional ones only when non-empty. */
  predicate Carries(m: Fields, req: FormRequest, config: Config)
    requires Amounts.IsMoney(req.money)
  {
    && GetField(m, "pid") == Some(Numeral(config.pid)) && GetField(m, "out_trade_no") == Some(req.outTradeNo)
    && GetField(m, "notify_url").Some? && IsChosen(GetField(m, "notify_url"), req.notifyUrl, config.notifyUrl)
    && IsChosen(GetField(m, "return_url"), req.returnUrl, config.returnUrl)
    && GetField(m, "name") == Some(req.name) && GetField(m, "money") == Some(Amounts.ToEpayString(req.money))
    && CarriesExtras(m, if req.payType.Some? then Some(req.payType.value.AsStr()) else None, req.param, req.sitename)
  }

  predicate CarriesCore(m: Fields, pid: Bytes, outTradeNo: Bytes, notifyUrl: Option<Bytes>, returnUrl: Option<Bytes>,
                        name: Bytes, money: Bytes)
  {
    && GetField(m, "pid") == Some(pid) && GetField(m, "out_trade_no") == Some(outTradeNo)
    && GetField(m, "notify_url") == notifyUrl && GetField(m, "return_url") == returnUrl
    && GetField(m, "name") == Some(name) && GetField(m, "money") == Some(money)
  }

  predicate CarriesExtras(m: Fields, payType: Option<Bytes>, param: Option<Bytes>, sitename: Option<Bytes>) {
    && GetField(m, "type") == NonEmptyOption(payType)
    && GetField(m, "param") == NonEmptyOption(param)
    && GetField(m, "sitename") == NonEmptyOption(sitename)
  }

  lemma CoreLookups(pid: Bytes, outTradeNo: Bytes, callbacks: Callbacks, name: Bytes, money: Bytes)
    requires pid != [] && outTradeNo != [] && name != [] && money != []
    requires callbacks.notifyUrl != [] && NonEmptyOption(callbacks.returnUrl) == callbacks.returnUrl
    ensures var m := CoreFields(pid, outTradeNo, callbacks, name, money);
            && CarriesCore(m, pid, outTradeNo, Some(callbacks.notifyUrl), callbacks.returnUrl, name, money)
            && "type" !in m && "param" !in m && "sitename" !in m
  {
  }

  lemma ExtraLookups(m: Fields, payType: Option<Bytes>, param: Option<Bytes>, sitename: Option<Bytes>)
    requires "type" !in m && "param" !in m && "sitename" !in m
    ensures CarriesExtras(WithExtras(m, payType, param, sitename), payType, param, sitename)
  {
  }

  lemma ExtrasKeepCore(m: Fields, payType: Option<Bytes>, param: Option<Bytes>, sitename: Option<Bytes>, key: Bytes)
    requires key != "type" && key != "param" && key != "sitename"
    ensures GetField(WithExtras(m, payType, param, sitename), key) == GetField(m, key)
  {
  }

  lemma SignatureShadowsNothing(signer: Signer, m: Fields, key: Bytes)
    requires !IsSignatureField(key)
    ensures GetField(SignedFields(signer, m), key) == GetField(m, key)
  {
  }

  lemma CoreIsKept(signer: Signer, m: Fields, payType: Option<Bytes>, param: Option<Bytes>, sitename: Option<Bytes>,
                   pid: Bytes, outTradeNo: Bytes, notifyUrl: Option<Bytes>, returnUrl: Option<Bytes>, name: Bytes,
                   money: Bytes)
    requires CarriesCore(m, pid, outTradeNo, notifyUrl, returnUrl, name, money)
    ensures CarriesCore(SignedFields(signer, WithExtras(m, payType, param, sitename)),
                        pid, outTradeNo, notifyUrl, returnUrl, name, money)
  {
    var form := WithExtras(m, payType, param, sitename);
    CoreKeysDiffer();
    forall key | key in CORE_KEYS
      ensures GetField(SignedFields(signer, form), key) == GetField(m, key)
    {
      ExtrasKeepCore(m, payType, param, sitename, key);
      SignatureShadowsNothing(signer, form, key);
    }
  }

  const CORE_KEYS: set<Bytes> := {"pid", "out_trade_no", "notify_url", "return_url", "name", "money"}

  lemma CoreKeysDiffer()
    ensures forall key :: key in CORE_KEYS ==>
              key != "type" && key != "param" && key != "sitename" && !IsSignatureField(key)
  {
  }

  lemma ExtrasAreKept(signer: Signer, m: Fields, payType: Option<Bytes>, param: Option<Bytes>, sitename: Option<Bytes>)
    requires CarriesExtras(m, payType, param, sitename)
    ensures CarriesExtras(SignedFields(signer, m), payType, param, sitename)
  {
    ExtraKeysDiffer();
    SignatureShadowsNothing(signer, m, "type");
    SignatureShadowsNothing(signer, m, "param");
    SignatureShadowsNothing(signer, m, "sitename");
  }

  lemma ExtraKeysDiffer()
    ensures !IsSignatureField("type") && !IsSignatureField("param") && !IsSignatureField("sitename")
  {
  }

  lemma FormLookups(pid: Bytes, outTradeNo: Bytes, callbacks: Callbacks, name: Bytes, money: Bytes,
                    payType: Option<Bytes>, param: Option<Bytes>, sitename: Option<Bytes>, signer: Signer)
    requires pid != [] && outTradeNo != [] && name != [] && money != []
    requires callbacks.notifyUrl != [] && NonEmptyOption(callbacks.returnUrl) == callbacks.returnUrl
    ensures var core := CoreFields(pid, outTradeNo, callbacks, name, money);
            var form := SignedFields(signer, WithExtras(core, payType, param, sitename));
            && CarriesCore(form, pid, outTradeNo, Some(callbacks.notifyUrl), callbacks.returnUrl, name, money)
            && CarriesExtras(form, payType, param, sitename)
  {
    var core := CoreFields(pid, outTradeNo, callbacks, name, money);
    CoreLookups(pid, outTradeNo, callbacks, name, money);
    CoreIsKept(signer, core, payType, param, sitename,
               pid, outTradeNo, Some(callbacks.notifyUrl), callbacks.returnUrl, name, money);
    ExtraLookups(core, payType, param, sitename);
    ExtrasAreKept(signer, WithExtras(core, payType, param, sitename), payType, param, sitename);
  }

  lemma ResolvedShape(req: FormRequest, config: Config, parse: UrlParser)
    requires ResolveCallbacks(req, config, parse).Ok?
    ensures var callbacks := ResolveCallbacks(req, config, parse).value;
            && FirstNonBlank(req.notifyUrl, config.notifyUrl) == Some(callbacks.notifyUrl)
            && FirstNonBlank(req.returnUrl, config.returnUrl) == callbacks.returnUrl
            && callbacks.notifyUrl != [] && NonEmptyOption(callbacks.returnUrl) == callbacks.returnUrl
  {
    if FirstNonBlank(req.notifyUrl, config.notifyUrl).Some? { ChosenIsTrimmed(req.notifyUrl, config.notifyUrl); }
    if FirstNonBlank(req.returnUrl, config.returnUrl).Some? { ChosenIsTrimmed(req.returnUrl, config.returnUrl); }
  }

  lemma NameIsNotEmpty(name: Bytes)
    requires ValidateName(name).Ok?
    ensures name != []
  {
    assert Trim([]) == [];
  }

  lemma ValidatedTexts(req: FormRequest, parse: UrlParser)
    requires ValidateRequest(req, parse).Ok?
    ensures ValidateOutTradeNo(req.outTradeNo).Ok? && ValidateName(req.name).Ok?
  {
    TextsPassed(ValidateOutTradeNo(req.outTradeNo), OverrideChecks(req, parse), ValidateName(req.name),
                OptionalChecks(req));
  }

  lemma TextsPassed(a: Result<(), ParamError>, bs: seq<Result<(), ParamError>>, c: Result<(), ParamError>,
                    ds: seq<Result<(), ParamError>>)
    requires FirstFailure([a] + bs + [c] + ds).Ok?
    ensures a.Ok? && c.Ok?
  {
    AllPassed([a] + bs + [c] + ds, 0);
    AllPassed([a] + bs + [c] + ds, |bs| + 1);
  }

  lemma PreparedIs(req: FormRequest, config: Config, parse: UrlParser)
    requires Prepare(req, config, parse).Ok?
    ensures ValidateRequest(req, parse).Ok? && Prepare(req, config, parse) == ResolveCallbacks(req, config, parse)
  {
  }

  lemma FormFieldsCarry(req: FormRequest, config: Config, callbacks: Callbacks, signer: Signer)
    requires Amounts.IsMoney(req.money) && req.outTradeNo != [] && req.name != []
    requires FirstNonBlank(req.notifyUrl, config.notifyUrl) == Some(callbacks.notifyUrl)
    requires FirstNonBlank(req.returnUrl, config.returnUrl) == callbacks.returnUrl
    requires callbacks.notifyUrl != [] && NonEmptyOption(callbacks.returnUrl) == callbacks.returnUrl
    ensures Carries(SignedFields(signer, FormFields(req, config, callbacks)), req, config)
  {
    MoneyTextIsNotEmpty(req.money);
    BlankNeverShadows(req.notifyUrl, config.notifyUrl);
    BlankNeverShadows(req.returnUrl, config.returnUrl);
    FormLookups(Numeral(config.pid), req.outTradeNo, callbacks, req.name, Amounts.ToEpayString(req.money),
                WireType(req.payType), req.param, req.sitename, signer);
  }

  lemma MoneyTextIsNotEmpty(m: Amounts.Money)
    requires Amounts.IsMoney(m)
    ensures Amounts.ToEpayString(m) != []
  {
    Amounts.PrintsFen(m);
  }

  lemma SignedFormIs(req: FormRequest, config: Config, signer: Signer, prepared: Result<Callbacks, ParamError>)
    requires Amounts.IsMoney(req.money) && SignPrepared(req, config, signer, prepared).Ok?
    ensures prepared.Ok?
    ensures SignPrepared(req, config, signer, prepared).value
         == SignedFields(signer, FormFields(req, config, prepared.value))
    ensures |Encode(SignPrepared(req, config, signer, prepared).value)| <= MAX_REQUEST_BYTES
  {
    BoundedIs(SignedFields(signer, FormFields(req, config, prepared.value)));
  }

  lemma BoundedIs(m: Fields)
    ensures Bounded(m).Ok? ==> Bounded(m).value == m && |Encode(m)| <= MAX_REQUEST_BYTES
  {
  }

  /** The receiver of a form finds in it exactly the request's values. */
  lemma FormCarriesRequest(req: FormRequest, config: Config, signer: Signer, parse: UrlParser)
    requires Amounts.IsMoney(req.money)
    ensures match SignedForm(req, config, signer, parse)
            case Err(_) => true
            case Ok(form) => Carries(form, req, config)
  {
    var prepared := Prepare(req, config, parse);
    if SignPrepared(req, config, signer, prepared).Ok? {
      SignedFormIs(req, config, signer, prepared);
      PreparedIs(req, config, parse);
      ValidatedTexts(req, parse);
      NameIsNotEmpty(req.name);
      ResolvedShape(req, config, parse);
      FormFieldsCarry(req, config, prepared.value, signer);
    }
  }
}
