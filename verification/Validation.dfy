/** Field rules shared by outgoing requests and incoming notifications. */
module Validation {
  import opened Wrappers
  import opened ByteStrings

  datatype ParamError =
    | MissingOutTradeNo | InvalidOutTradeNo | InvalidTradeNo
    | MissingName | NameTooLong | NameHasControlChars
    | ParamTooLong | SitenameTooLong | SitenameHasControlChars
    | InvalidPayType | CallbackUrlTooLong | RequestTooLarge
    | MissingNotifyUrl | InvalidNotifyUrl | InsecureNotifyUrl | InvalidReturnUrl | InsecureReturnUrl
    | ClockBeforeEpoch

  const MAX_OUT_TRADE_NO_BYTES := 64
  const MAX_TRADE_NO_BYTES := 128
  const MAX_NAME_BYTES := 255
  const MAX_PARAM_BYTES := 255
  const MAX_SITENAME_BYTES := 64
  const MAX_CALLBACK_URL_BYTES := 1024
  const MAX_IDENTIFIER_BYTES := 32
  const MAX_REQUEST_BYTES := 4096

  /** A payment channel; unknown wire names are kept. */
  datatype PayType = Alipay | Wxpay | Qqpay | Other(name: Bytes) {
    function AsStr(): Bytes {
      match this
      case Alipay => "alipay"
      case Wxpay => "wxpay"
      case Qqpay => "qqpay"
      case Other(s) => s
    }

    static function From(s: Bytes): PayType {
      if s == "alipay" then Alipay
      else if s == "wxpay" then Wxpay
      else if s == "qqpay" then Qqpay
      else Other(s)
    }
  }

  predicate IsOrderNumberByte(c: Byte) {
    IsAlphanumeric(c) || c in {'.', '_', '|', '-'}
  }

  function ValidateOutTradeNo(value: Bytes): Result<(), ParamError> {
    if value == [] then Err(MissingOutTradeNo)
    else if |value| > MAX_OUT_TRADE_NO_BYTES || Trim(value) != value
            || !forall i :: 0 <= i < |value| ==> IsOrderNumberByte(value[i])
    then Err(InvalidOutTradeNo)
    else Ok(())
  }

  function ValidateTradeNo(value: Bytes): Result<(), ParamError> {
    if value == [] || |value| > MAX_TRADE_NO_BYTES || Trim(value) != value
       || !forall i :: 0 <= i < |value| ==> IsAlphanumeric(value[i])
    then Err(InvalidTradeNo)
    else Ok(())
  }

  /** U+0000-001F, U+007F and U+0080-009F. */
  predicate HasControlChars(s: Bytes) {
    if s == [] then false
    else
      || s[0] < ' ' || s[0] == '\U{7F}'
      || (|s| >= 2 && s[0] == '\U{C2}' && '\U{80}' <= s[1] <= '\U{9F}')
      || HasControlChars(s[1..])
  }

  function ValidateName(value: Bytes): Result<(), ParamError> {
    if IsBlank(value) then Err(MissingName)
    else if |value| > MAX_NAME_BYTES then Err(NameTooLong)
    else if HasControlChars(value) then Err(NameHasControlChars)
    else Ok(())
  }

  function ValidateParam(value: Bytes): Result<(), ParamError> {
    if |value| > MAX_PARAM_BYTES then Err(ParamTooLong) else Ok(())
  }

  function ValidateSitename(value: Bytes): Result<(), ParamError> {
    if |value| > MAX_SITENAME_BYTES then Err(SitenameTooLong)
    else if HasControlChars(value) then Err(SitenameHasControlChars)
    else Ok(())
  }

  function ValidatePayType(value: PayType): Result<(), ParamError> {
    var name := value.AsStr();
    if name != [] && |name| <= MAX_IDENTIFIER_BYTES
       && forall i :: 0 <= i < |name| ==> IsAlphanumeric(name[i]) || name[i] in {'_', '-'}
    then Ok(())
    else Err(InvalidPayType)
  }

  function ValidateEncodedSize(bytes: nat): Result<(), ParamError> {
    if bytes > MAX_REQUEST_BYTES then Err(RequestTooLarge) else Ok(())
  }

  /** Reading a wire name back gives the same wire name, whichever variant it came from. */
  lemma PayTypeByWire(t: PayType)
    ensures PayType.From(t.AsStr()).AsStr() == t.AsStr()
    ensures ValidatePayType(PayType.From(t.AsStr())) == ValidatePayType(t)
    ensures PayType.From(t.AsStr()) == t <==> !(t.Other? && t.name in {"alipay", "wxpay", "qqpay"})
    ensures Alipay.AsStr() == "alipay" && Wxpay.AsStr() == "wxpay" && Qqpay.AsStr() == "qqpay"
    ensures t.Other? ==> t.AsStr() == t.name
  {
  }

  predicate IsLetterOrDigit(c: Byte) {
    ('0' <= c && c <= '9') || ('a' <= c && c <= 'z') || ('A' <= c && c <= 'Z')
  }

  /** The trim test never decides: the alphabet already excludes whitespace. */
  lemma OutTradeNoIff(value: Bytes)
    ensures ValidateOutTradeNo(value).Ok? <==>
              1 <= |value| <= 64
              && forall i :: 0 <= i < |value| ==> IsLetterOrDigit(value[i]) || value[i] in {'.', '_', '|', '-'}
    ensures value == [] ==> ValidateOutTradeNo(value) == Err(MissingOutTradeNo)
    ensures value != [] && ValidateOutTradeNo(value).Err? ==> ValidateOutTradeNo(value) == Err(InvalidOutTradeNo)
  {
    if value != [] && forall i :: 0 <= i < |value| ==> IsOrderNumberByte(value[i]) {
      assert IsOrderNumberByte(value[0]) && IsOrderNumberByte(value[|value| - 1]);
      TrimPrintable(value);
    }
  }

  /** Nor does it for the gateway's numbers. */
  lemma TradeNoIff(value: Bytes)
    ensures ValidateTradeNo(value).Ok? <==>
              1 <= |value| <= 128 && forall i :: 0 <= i < |value| ==> IsLetterOrDigit(value[i])
  {
    if value != [] && forall i :: 0 <= i < |value| ==> IsAlphanumeric(value[i]) {
      assert IsAlphanumeric(value[0]) && IsAlphanumeric(value[|value| - 1]);
      TrimPrintable(value);
    }
  }

  lemma PayTypeIff(value: PayType)
    ensures ValidatePayType(value).Ok? <==>
              var name := value.AsStr();
              1 <= |name| <= 32 && forall i :: 0 <= i < |name| ==> IsLetterOrDigit(name[i]) || name[i] in {'_', '-'}
  {
  }

  /** A control character starts at position `i`: U+0000-001F, U+007F or U+0080-009F. */
  predicate ControlAt(s: Bytes, i: nat)
    requires i < |s|
  {
    || s[i] <= '\U{1F}' || s[i] == '\U{7F}'
    || (i + 1 < |s| && s[i] == '\U{C2}' && '\U{80}' <= s[i + 1] && s[i + 1] <= '\U{9F}')
  }

  lemma {:induction false} ControlCharsIff(s: Bytes)
    ensures HasControlChars(s) <==> exists i :: 0 <= i < |s| && ControlAt(s, i)
  {
    if s != [] {
      var rest := s[1..];
      ControlCharsIff(rest);
      assert HasControlChars(s) <==> ControlAt(s, 0) || HasControlChars(rest);
      forall i | 0 <= i < |rest| ensures ControlAt(rest, i) <==> ControlAt(s, i + 1) {}
      if i :| 0 <= i < |rest| && ControlAt(rest, i) {
        assert ControlAt(s, i + 1);
      }
      if i :| 0 <= i < |s| && ControlAt(s, i) {
        if i > 0 { assert ControlAt(rest, i - 1); }
      }
    }
  }

  lemma NameIff(value: Bytes)
    ensures ValidateName(value).Ok? <==>
              !IsBlank(value) && |value| <= 255 && forall i :: 0 <= i < |value| ==> !ControlAt(value, i)
    ensures IsBlank(value) ==> ValidateName(value) == Err(MissingName)
    ensures !IsBlank(value) && |value| > 255 ==> ValidateName(value) == Err(NameTooLong)
  {
    ControlCharsIff(value);
  }

  lemma OptionalTextsIff(value: Bytes)
    ensures ValidateParam(value).Ok? <==> |value| <= 255
    ensures ValidateSitename(value).Ok? <==>
              |value| <= 64 && forall i :: 0 <= i < |value| ==> !ControlAt(value, i)
  {
    ControlCharsIff(value);
  }
}
