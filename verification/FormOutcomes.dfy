/** Which requests give a form, and exactly which map of fields it is. */
module FormOutcomes {
  import opened Wrappers
  import opened ByteStrings
  import opened Utf8
  import opened SortedMaps
  import opened ParamMaps
  import opened Signing
  import opened Validation
  import opened FormPayments
  import Amounts

  // ---- Checks ----

  /** A list of checks passes exactly when every one of them does. */
  lemma {:induction false} FirstFailureIff(checks: seq<Result<(), ParamError>>)
    ensures FirstFailure(checks).Ok? <==> forall i :: 0 <= i < |checks| ==> checks[i].Ok?
  {
    if checks != [] {
      FirstFailureIff(checks[1..]);
      if FirstFailure(checks).Ok? {
        forall i | 0 <= i < |checks| ensures checks[i].Ok? {
          if i > 0 { assert checks[i] == checks[1..][i - 1]; }
        }
      }
    }
  }

  /** The error is that of the first check that fails. */
  lemma {:induction false} FirstFailureIs(checks: seq<Result<(), ParamError>>, i: nat)
    requires i < |checks| && checks[i].Err?
    requires forall j :: 0 <= j < i ==> checks[j].Ok?
    ensures FirstFailure(checks) == checks[i]
  {
    if i > 0 {
      assert checks[0].Ok?;
      forall j | 0 <= j < i - 1 ensures checks[1..][j].Ok? { assert checks[1..][j] == checks[j + 1]; }
      FirstFailureIs(checks[1..], i - 1);
    }
  }

  lemma SevenChecks(a: Result<(), ParamError>, b: Result<(), ParamError>, c: Result<(), ParamError>,
                    d: Result<(), ParamError>, e: Result<(), ParamError>, f: Result<(), ParamError>,
                    g: Result<(), ParamError>)
    ensures FirstFailure([a] + [b, c] + [d] + [e, f, g]).Ok? <==>
              a.Ok? && b.Ok? && c.Ok? && d.Ok? && e.Ok? && f.Ok? && g.Ok?
  {
    var checks := [a] + [b, c] + [d] + [e, f, g];
    assert checks == [a, b, c, d, e, f, g];
    FirstFailureIff(checks);
    if FirstFailure(checks).Ok? {
      assert checks[0].Ok? && checks[1].Ok? && checks[2].Ok? && checks[3].Ok? && checks[4].Ok? && checks[5].Ok?
             && checks[6].Ok?;
    }
  }

  /** The rules for the fields themselves. */
  predicate FieldsAllowed(req: FormRequest) {
    && ValidateOutTradeNo(req.outTradeNo).Ok? && ValidateName(req.name).Ok?
    && (req.payType.Some? ==> ValidatePayType(req.payType.value).Ok?)
    && (req.param.Some? ==> |req.param.value| <= 255)
    && (req.sitename.Some? ==> ValidateSitename(req.sitename.value).Ok?)
  }

  lemma RequestIff(req: FormRequest, parse: UrlParser)
    ensures ValidateRequest(req, parse).Ok? <==>
              && FieldsAllowed(req)
              && CheckOverride(req.notifyUrl, parse, InvalidNotifyUrl).Ok?
              && CheckOverride(req.returnUrl, parse, InvalidReturnUrl).Ok?
  {
    var optional := OptionalChecks(req);
    SevenChecks(ValidateOutTradeNo(req.outTradeNo),
                CheckOverride(req.notifyUrl, parse, InvalidNotifyUrl),
                CheckOverride(req.returnUrl, parse, InvalidReturnUrl),
                ValidateName(req.name), optional[0], optional[1], optional[2]);
    if req.param.Some? { OptionalTextsIff(req.param.value); }
  }

  // ---- Callbacks ----

  /** A URL that may be sent: at most 1024 bytes, well formed, and HTTPS unless plain HTTP is allowed. */
  predicate UrlAllowed(url: Bytes, parse: UrlParser, allowHttp: bool) {
    |url| <= 1024 && parse(url).Some? && (parse(url) == Some(Https) || allowHttp)
  }

  lemma PolicyIff(url: Bytes, parse: UrlParser, allowHttp: bool, invalid: ParamError, insecure: ParamError)
    requires Trim(url) == url
    ensures EnforcePolicy(url, parse, allowHttp, invalid, insecure).Ok? <==> UrlAllowed(url, parse, allowHttp)
    ensures |url| <= 1024 && parse(url) == Some(Scheme.Http) && !allowHttp ==>
              EnforcePolicy(url, parse, allowHttp, invalid, insecure) == Err(insecure)
  {
  }

  /** A URL that may be sent has passed as an override, so that check never decides. */
  lemma OverridePasses(override: Option<Bytes>, configured: Option<Bytes>, parse: UrlParser, allowHttp: bool,
                       invalid: ParamError)
    requires FirstNonBlank(override, configured).Some? ==>
               UrlAllowed(FirstNonBlank(override, configured).value, parse, allowHttp)
    ensures CheckOverride(override, parse, invalid).Ok?
  {
    if FirstNonBlank(override, None).Some? {
      ChosenIsTrimmed(override, None);
      assert FirstNonBlank(override, None) == FirstNonBlank(override, configured);
    }
  }

  /** The callbacks that are sent: override before default, and allowed by the policy. */
  predicate Sendable(callbacks: Callbacks, req: FormRequest, config: Config, parse: UrlParser) {
    && IsChosen(Some(callbacks.notifyUrl), req.notifyUrl, config.notifyUrl)
    && UrlAllowed(callbacks.notifyUrl, parse, config.allowHttp)
    && IsChosen(callbacks.returnUrl, req.returnUrl, config.returnUrl)
    && (callbacks.returnUrl.Some? ==> UrlAllowed(callbacks.returnUrl.value, parse, config.allowHttp))
  }

  lemma ChosenIff(sent: Option<Bytes>, override: Option<Bytes>, configured: Option<Bytes>)
    ensures IsChosen(sent, override, configured) <==> sent == FirstNonBlank(override, configured)
  {
    BlankNeverShadows(override, configured);
  }

  lemma ResolveIff(req: FormRequest, config: Config, parse: UrlParser, callbacks: Callbacks)
    ensures ResolveCallbacks(req, config, parse) == Ok(callbacks) <==> Sendable(callbacks, req, config, parse)
  {
    ChosenIff(Some(callbacks.notifyUrl), req.notifyUrl, config.notifyUrl);
    ChosenIff(callbacks.returnUrl, req.returnUrl, config.returnUrl);
    var notifyUrl, returnUrl :=
      FirstNonBlank(req.notifyUrl, config.notifyUrl), FirstNonBlank(req.returnUrl, config.returnUrl);
    if notifyUrl.Some? {
      ChosenIsTrimmed(req.notifyUrl, config.notifyUrl);
      PolicyIff(notifyUrl.value, parse, config.allowHttp, InvalidNotifyUrl, InsecureNotifyUrl);
    }
    if returnUrl.Some? {
      ChosenIsTrimmed(req.returnUrl, config.returnUrl);
      PolicyIff(returnUrl.value, parse, config.allowHttp, InvalidReturnUrl, InsecureReturnUrl);
    }
  }

  /** Preparation succeeds with exactly these callbacks. */
  lemma PrepareIff(req: FormRequest, config: Config, parse: UrlParser, callbacks: Callbacks)
    ensures Prepare(req, config, parse) == Ok(callbacks) <==>
              FieldsAllowed(req) && Sendable(callbacks, req, config, parse)
  {
    RequestIff(req, parse);
    ResolveIff(req, config, parse, callbacks);
    if Sendable(callbacks, req, config, parse) {
      ChosenIff(Some(callbacks.notifyUrl), req.notifyUrl, config.notifyUrl);
      ChosenIff(callbacks.returnUrl, req.returnUrl, config.returnUrl);
      OverridePasses(req.notifyUrl, config.notifyUrl, parse, config.allowHttp, InvalidNotifyUrl);
      OverridePasses(req.returnUrl, config.returnUrl, parse, config.allowHttp, InvalidReturnUrl);
    }
  }

  // ---- The map ----

  predicate IsCoreKey(key: Bytes) {
    || key == "pid" || key == "out_trade_no" || key == "notify_url" || key == "return_url" || key == "name"
    || key == "money"
  }

  predicate IsExtraKey(key: Bytes) { key == "type" || key == "param" || key == "sitename" }

  predicate OnlyFormKeys(m: Fields) {
    forall key :: key in m ==> IsCoreKey(key) || IsExtraKey(key) || IsSignatureField(key)
  }

  /** The fields of a signed form, all eleven, and nothing else. */
  predicate IsSignedForm(form: Fields, req: FormRequest, config: Config, signer: Signer, callbacks: Callbacks)
    requires Amounts.IsMoney(req.money)
  {
    && CarriesCore(form, Numeral(config.pid), req.outTradeNo, Some(callbacks.notifyUrl), callbacks.returnUrl,
                   req.name, Amounts.ToEpayString(req.money))
    && CarriesExtras(form, if req.payType.Some? then Some(req.payType.value.AsStr()) else None, req.param, req.sitename)
    && CarriesSignature(form, signer)
    && OnlyFormKeys(form)
  }

  predicate CarriesSignature(form: Fields, signer: Signer) {
    && "sign" in form && form["sign"] == HexLower(signer.md5(SignPayload(form) + signer.key))
    && "sign_type" in form && form["sign_type"] == "MD5"
  }

  lemma InsertKeepsKeys(m: Fields, key: Bytes, value: Option<Bytes>)
    requires OnlyFormKeys(m) && (IsCoreKey(key) || IsExtraKey(key) || IsSignatureField(key))
    ensures OnlyFormKeys(WithOptionalField(m, key, value))
  {
  }

  lemma CoreKeys(pid: Bytes, outTradeNo: Bytes, callbacks: Callbacks, name: Bytes, money: Bytes)
    ensures OnlyFormKeys(CoreFields(pid, outTradeNo, callbacks, name, money))
  {
    var m: Fields := map[];
    InsertKeepsKeys(m, "pid", Some(pid));
    m := WithField(m, "pid", pid);
    InsertKeepsKeys(m, "out_trade_no", Some(outTradeNo));
    m := WithField(m, "out_trade_no", outTradeNo);
    InsertKeepsKeys(m, "notify_url", Some(callbacks.notifyUrl));
    m := WithField(m, "notify_url", callbacks.notifyUrl);
    InsertKeepsKeys(m, "return_url", callbacks.returnUrl);
    m := WithOptionalField(m, "return_url", callbacks.returnUrl);
    InsertKeepsKeys(m, "name", Some(name));
    m := WithField(m, "name", name);
    InsertKeepsKeys(m, "money", Some(money));
  }

  lemma ExtraKeys(m: Fields, payType: Option<Bytes>, param: Option<Bytes>, sitename: Option<Bytes>)
    requires OnlyFormKeys(m)
    ensures OnlyFormKeys(WithExtras(m, payType, param, sitename))
  {
    InsertKeepsKeys(m, "type", payType);
    var withType := WithOptionalField(m, "type", payType);
    InsertKeepsKeys(withType, "param", param);
    InsertKeepsKeys(WithOptionalField(withType, "param", param), "sitename", sitename);
  }

  lemma SignedKeys(m: Fields, sign: Bytes, signType: Bytes)
    requires OnlyFormKeys(m)
    ensures OnlyFormKeys(WithField(WithField(m, "sign", sign), "sign_type", signType))
  {
    InsertKeepsKeys(m, "sign", Some(sign));
    InsertKeepsKeys(WithField(m, "sign", sign), "sign_type", Some(signType));
  }

  /** The form that is built is such a map. */
  lemma BuiltForm(req: FormRequest, config: Config, signer: Signer, callbacks: Callbacks)
    requires Amounts.IsMoney(req.money) && req.outTradeNo != [] && req.name != []
    requires callbacks.notifyUrl != [] && callbacks.returnUrl != Some([])
    ensures IsSignedForm(SignedFields(signer, FormFields(req, config, callbacks)), req, config, signer, callbacks)
  {
    var pid, money := Numeral(config.pid), Amounts.ToEpayString(req.money);
    var payType := WireType(req.payType);
    MoneyTextIsNotEmpty(req.money);
    FormLookups(pid, req.outTradeNo, callbacks, req.name, money, payType, req.param, req.sitename, signer);
    var fields := FormFields(req, config, callbacks);
    SignedFieldsShape(signer, fields);
    PayloadIgnoresSignature(SignedFields(signer, fields), fields);
    CoreKeys(pid, req.outTradeNo, callbacks, req.name, money);
    ExtraKeys(CoreFields(pid, req.outTradeNo, callbacks, req.name, money), payType, req.param, req.sitename);
    SignedKeys(fields, Sign(signer, fields), SIGN_TYPE_MD5);
  }

  lemma PlainFieldsDecide(f: Fields, g: Fields)
    requires OnlyFormKeys(f) && OnlyFormKeys(g)
    requires forall key :: IsCoreKey(key) || IsExtraKey(key) ==> GetField(f, key) == GetField(g, key)
    ensures Signed(f) == Signed(g)
  {
    forall key ensures GetField(Signed(f), key) == GetField(Signed(g), key) {
      if IsCoreKey(key) || IsExtraKey(key) { assert GetField(f, key) == GetField(g, key); }
    }
    SameLookups(Signed(f), Signed(g));
  }

  lemma SameLookups(f: Fields, g: Fields)
    requires forall key :: GetField(f, key) == GetField(g, key)
    ensures f == g
  {
    forall key ensures key in f <==> key in g { assert GetField(f, key) == GetField(g, key); }
    forall key | key in f ensures f[key] == g[key] { assert GetField(f, key) == GetField(g, key); }
  }

  lemma SameCore(f: Fields, g: Fields, pid: Bytes, outTradeNo: Bytes, notifyUrl: Option<Bytes>,
                 returnUrl: Option<Bytes>, name: Bytes, money: Bytes)
    requires CarriesCore(f, pid, outTradeNo, notifyUrl, returnUrl, name, money)
    requires CarriesCore(g, pid, outTradeNo, notifyUrl, returnUrl, name, money)
    ensures forall key :: IsCoreKey(key) ==> GetField(f, key) == GetField(g, key)
  {
  }

  lemma SameExtras(f: Fields, g: Fields, payType: Option<Bytes>, param: Option<Bytes>, sitename: Option<Bytes>)
    requires CarriesExtras(f, payType, param, sitename) && CarriesExtras(g, payType, param, sitename)
    ensures forall key :: IsExtraKey(key) ==> GetField(f, key) == GetField(g, key)
  {
  }

  lemma FieldsDecide(f: Fields, g: Fields)
    requires OnlyFormKeys(f) && OnlyFormKeys(g)
    requires forall key :: IsCoreKey(key) || IsExtraKey(key) ==> GetField(f, key) == GetField(g, key)
    requires GetField(f, "sign") == GetField(g, "sign") && GetField(f, "sign_type") == GetField(g, "sign_type")
    ensures f == g
  {
    forall key ensures GetField(f, key) == GetField(g, key) {
      if IsCoreKey(key) || IsExtraKey(key) {
        assert GetField(f, key) == GetField(g, key);
      } else if !IsSignatureField(key) {
        assert key !in f && key !in g;
      }
    }
    SameLookups(f, g);
  }

  lemma PlainLookupsAgree(f: Fields, g: Fields, req: FormRequest, config: Config, signer: Signer, callbacks: Callbacks)
    requires Amounts.IsMoney(req.money)
    requires IsSignedForm(f, req, config, signer, callbacks) && IsSignedForm(g, req, config, signer, callbacks)
    ensures forall key :: IsCoreKey(key) || IsExtraKey(key) ==> GetField(f, key) == GetField(g, key)
  {
    SameCore(f, g, Numeral(config.pid), req.outTradeNo, Some(callbacks.notifyUrl), callbacks.returnUrl, req.name,
             Amounts.ToEpayString(req.money));
    SameExtras(f, g, WireType(req.payType), req.param, req.sitename);
  }

  /** There is only one such map. */
  lemma OneSignedForm(f: Fields, g: Fields, req: FormRequest, config: Config, signer: Signer, callbacks: Callbacks)
    requires Amounts.IsMoney(req.money)
    requires IsSignedForm(f, req, config, signer, callbacks) && IsSignedForm(g, req, config, signer, callbacks)
    ensures f == g
  {
    PlainLookupsAgree(f, g, req, config, signer, callbacks);
    PlainFieldsDecide(f, g);
    PayloadIgnoresSignature(f, g);
    FieldsDecide(f, g);
  }

  // ---- The outcome ----

  lemma CallbacksAreText(callbacks: Callbacks, req: FormRequest, config: Config, parse: UrlParser)
    requires Sendable(callbacks, req, config, parse)
    ensures callbacks.notifyUrl != [] && callbacks.returnUrl != Some([])
  {
  }

  lemma BoundedIff(m: Fields, form: Fields)
    ensures Bounded(m) == Ok(form) <==> m == form && |Encode(form)| <= 4096
  {
  }

  lemma FormOf(req: FormRequest, config: Config, signer: Signer, parse: UrlParser, callbacks: Callbacks, form: Fields)
    requires Amounts.IsMoney(req.money) && Prepare(req, config, parse) == Ok(callbacks)
    ensures SignedForm(req, config, signer, parse) == Ok(form) <==>
              IsSignedForm(form, req, config, signer, callbacks) && |Encode(form)| <= 4096
  {
    PrepareIff(req, config, parse, callbacks);
    CallbacksAreText(callbacks, req, config, parse);
    NameIsNotEmpty(req.name);
    BuiltForm(req, config, signer, callbacks);
    var built := SignedFields(signer, FormFields(req, config, callbacks));
    BoundedIff(built, form);
    if IsSignedForm(form, req, config, signer, callbacks) {
      OneSignedForm(form, built, req, config, signer, callbacks);
    }
  }

  lemma NothingPrepared(req: FormRequest, config: Config, signer: Signer, parse: UrlParser, form: Fields)
    requires Amounts.IsMoney(req.money) && SignedForm(req, config, signer, parse) == Ok(form)
    ensures Prepare(req, config, parse).Ok?
  {
  }

  /**
    A form is produced exactly when the fields satisfy their rules, callbacks are found and allowed,
    and the signed map, which is the only one with the request's values, their signature and nothing
    else, has at most 4096 encoded bytes.
   */
  lemma FormProducedIff(req: FormRequest, config: Config, signer: Signer, parse: UrlParser, form: Fields)
    requires Amounts.IsMoney(req.money)
    ensures SignedForm(req, config, signer, parse) == Ok(form) <==>
              && FieldsAllowed(req) && |Encode(form)| <= 4096
              && exists callbacks :: Sendable(callbacks, req, config, parse)
                                     && IsSignedForm(form, req, config, signer, callbacks)
  {
    if SignedForm(req, config, signer, parse) == Ok(form) {
      NothingPrepared(req, config, signer, parse, form);
      var callbacks := Prepare(req, config, parse).value;
      PrepareIff(req, config, parse, callbacks);
      FormOf(req, config, signer, parse, callbacks, form);
    }
    if callbacks :| FieldsAllowed(req) && Sendable(callbacks, req, config, parse)
                    && IsSignedForm(form, req, config, signer, callbacks)
    {
      PrepareIff(req, config, parse, callbacks);
      FormOf(req, config, signer, parse, callbacks, form);
    }
  }

  // ---- Errors ----

  /** Why a URL is refused before the policy looks at it. */
  function TextFault(url: Bytes, parse: UrlParser, invalid: ParamError): Option<ParamError> {
    if |url| > 1024 then Some(CallbackUrlTooLong) else if parse(url).None? then Some(invalid) else None
  }

  /** Likewise for an override; a blank one is no URL. */
  function UrlFault(url: Option<Bytes>, parse: UrlParser, invalid: ParamError): Option<ParamError> {
    if url.None? || Trim(url.value) == [] then None else TextFault(Trim(url.value), parse, invalid)
  }

  function Failing(fault: Option<ParamError>): Result<(), ParamError> {
    match fault case None => Ok(()) case Some(e) => Err(e)
  }

  lemma CallbackFault(url: Bytes, parse: UrlParser, invalid: ParamError)
    requires Trim(url) == url
    ensures match TextFault(url, parse, invalid)
            case None => ParseCallback(url, parse, invalid).Ok?
            case Some(e) => ParseCallback(url, parse, invalid) == Err(e)
  {
  }

  lemma ChosenFault(url: Option<Bytes>, chosen: Bytes, parse: UrlParser, invalid: ParamError)
    requires FirstNonBlank(url, None) == Some(chosen) && Trim(chosen) == chosen
    ensures CheckOverride(url, parse, invalid) == Failing(TextFault(chosen, parse, invalid))
  {
    CallbackFault(chosen, parse, invalid);
  }

  lemma OverrideFault(url: Option<Bytes>, parse: UrlParser, invalid: ParamError)
    ensures CheckOverride(url, parse, invalid) == Failing(UrlFault(url, parse, invalid))
  {
    NonBlankIs(url);
    if url.Some? && Trim(url.value) != [] {
      TrimIdempotent(url.value);
      ChosenFault(url, Trim(url.value), parse, invalid);
    }
  }

  /**
    The rules are checked in the order of the source: order number, overrides, name, type, `param`,
    `sitename`; the first one that is broken gives the error.
   */
  lemma RequestErrors(req: FormRequest, config: Config, parse: UrlParser)
    ensures var prepared := Prepare(req, config, parse);
            var notifyFault := UrlFault(req.notifyUrl, parse, InvalidNotifyUrl);
            var returnFault := UrlFault(req.returnUrl, parse, InvalidReturnUrl);
            if ValidateOutTradeNo(req.outTradeNo).Err? then prepared == Err(ValidateOutTradeNo(req.outTradeNo).error)
            else if notifyFault.Some? then prepared == Err(notifyFault.value)
            else if returnFault.Some? then prepared == Err(returnFault.value)
            else if ValidateName(req.name).Err? then prepared == Err(ValidateName(req.name).error)
            else if req.payType.Some? && ValidatePayType(req.payType.value).Err? then prepared == Err(InvalidPayType)
            else if req.param.Some? && |req.param.value| > 255 then prepared == Err(ParamTooLong)
            else if req.sitename.Some? && ValidateSitename(req.sitename.value).Err? then
              prepared == Err(ValidateSitename(req.sitename.value).error)
            else prepared == ResolveCallbacks(req, config, parse)
  {
    var optional := OptionalChecks(req);
    OverrideFault(req.notifyUrl, parse, InvalidNotifyUrl);
    OverrideFault(req.returnUrl, parse, InvalidReturnUrl);
    FirstOfSeven(ValidateOutTradeNo(req.outTradeNo),
                 CheckOverride(req.notifyUrl, parse, InvalidNotifyUrl),
                 CheckOverride(req.returnUrl, parse, InvalidReturnUrl),
                 ValidateName(req.name), optional[0], optional[1], optional[2]);
  }

  lemma FirstOfSeven(a: Result<(), ParamError>, b: Result<(), ParamError>, c: Result<(), ParamError>,
                     d: Result<(), ParamError>, e: Result<(), ParamError>, f: Result<(), ParamError>,
                     g: Result<(), ParamError>)
    ensures FirstFailure([a] + [b, c] + [d] + [e, f, g])
         == if a.Err? then a else if b.Err? then b else if c.Err? then c else if d.Err? then d
            else if e.Err? then e else if f.Err? then f else if g.Err? then g else Ok(())
  {
    var checks := [a] + [b, c] + [d] + [e, f, g];
    assert checks == [a, b, c, d, e, f, g];
    SevenChecks(a, b, c, d, e, f, g);
    if FirstFailure(checks).Err? {
      var i := if a.Err? then 0 else if b.Err? then 1 else if c.Err? then 2 else if d.Err? then 3
               else if e.Err? then 4 else if f.Err? then 5 else 6;
      FirstFailureIs(checks, i);
    } else {
      assert FirstFailure(checks).value == ();
    }
  }

  /** Plain HTTP where it is not allowed, and a request without any URL to notify. */
  lemma CallbackErrors(req: FormRequest, config: Config, parse: UrlParser, notifyUrl: Bytes)
    ensures IsChosen(None, req.notifyUrl, config.notifyUrl) ==>
              ResolveCallbacks(req, config, parse) == Err(MissingNotifyUrl)
    ensures IsChosen(Some(notifyUrl), req.notifyUrl, config.notifyUrl) && |notifyUrl| <= 1024
            && parse(notifyUrl) == Some(Scheme.Http) && !config.allowHttp ==>
              ResolveCallbacks(req, config, parse) == Err(InsecureNotifyUrl)
  {
    ChosenIff(None, req.notifyUrl, config.notifyUrl);
    ChosenIff(Some(notifyUrl), req.notifyUrl, config.notifyUrl);
    if FirstNonBlank(req.notifyUrl, config.notifyUrl).Some? {
      ChosenIsTrimmed(req.notifyUrl, config.notifyUrl);
      PolicyIff(FirstNonBlank(req.notifyUrl, config.notifyUrl).value, parse, config.allowHttp, InvalidNotifyUrl,
                InsecureNotifyUrl);
    }
  }
}
