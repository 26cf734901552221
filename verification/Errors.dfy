/** Errors that carry redacted text. */
module Errors {
  import opened ByteStrings
  import opened SecretRedaction
  import RedactionResults
  import opened Validation

  datatype Endpoint =
    | CreatePayment | QueryOrder | QueryOrders | Refund | QueryMerchant | QuerySettlements

  datatype TransportErrorKind = Timeout | Connect | Redirect | Body | Request | Other

  datatype Error =
    | Config(text: Bytes)
    | Param(reason: ParamError)
    | Notify(message: Bytes)
    | VerifyFailed
    | Api(endpoint: Endpoint, code: int, message: Bytes)
    | Transport(kind: TransportErrorKind, message: Bytes)
    | Http(status: nat, body: Bytes)
    | InvalidResponse(endpoint: Endpoint, message: Bytes)
    | ResponseTooLarge(limit: nat)
  {
    /** The request never reached the gateway's application. */
    predicate IsRetryable() {
      match this
      case Transport(kind, _) => kind.Timeout? || kind.Connect?
      case Http(status, _) => 502 <= status <= 504
      case _ => false
    }

    /** What is done to every error a transport returns. */
    function Sanitized(): Error {
      match this
      case Transport(kind, message) => Transport(kind, RedactSecrets(message))
      case Http(status, body) => Http(status, RedactSecrets(body))
      case Api(endpoint, code, message) => Api(endpoint, code, RedactSecrets(message))
      case InvalidResponse(endpoint, message) => InvalidResponse(endpoint, RedactSecrets(message))
      case Notify(message) => Notify(RedactSecrets(message))
      case other => other
    }

    /** `Error::transport`, `Error::api`, `Error::notify`, `Error::invalid_response_message`. */
    static function MakeTransport(kind: TransportErrorKind, message: Bytes): Error {
      Transport(kind, RedactSecrets(message))
    }

    static function MakeApi(endpoint: Endpoint, code: int, message: Bytes): Error {
      Api(endpoint, code, RedactSecrets(message))
    }

    static function MakeNotify(message: Bytes): Error { Notify(RedactSecrets(message)) }

    static function MakeInvalidResponse(endpoint: Endpoint, message: Bytes): Error {
      InvalidResponse(endpoint, RedactSecrets(message))
    }
  }

  lemma TextErrorsAreStable(kind: TransportErrorKind, status: nat, endpoint: Endpoint, code: int, text: Bytes)
    requires RedactSecrets(text) == text
    ensures Transport(kind, text).Sanitized() == Transport(kind, text)
    ensures Http(status, text).Sanitized() == Http(status, text)
    ensures Api(endpoint, code, text).Sanitized() == Api(endpoint, code, text)
    ensures InvalidResponse(endpoint, text).Sanitized() == InvalidResponse(endpoint, text)
    ensures Notify(text).Sanitized() == Notify(text)
  {
  }

  lemma RedactedErrorsAreStable(kind: TransportErrorKind, status: nat, endpoint: Endpoint, code: int, text: Bytes,
                                redacted: Bytes)
    requires redacted == RedactSecrets(text)
    ensures Transport(kind, redacted).Sanitized() == Transport(kind, redacted)
    ensures Http(status, redacted).Sanitized() == Http(status, redacted)
    ensures Api(endpoint, code, redacted).Sanitized() == Api(endpoint, code, redacted)
    ensures InvalidResponse(endpoint, redacted).Sanitized() == InvalidResponse(endpoint, redacted)
    ensures Notify(redacted).Sanitized() == Notify(redacted)
  {
    RedactSecretsIdempotent(text);
    TextErrorsAreStable(kind, status, endpoint, code, redacted);
  }

  /** Sanitizing an error again changes nothing, and never whether it may be retried. */
  lemma SanitizedIsStable(e: Error)
    ensures e.Sanitized().Sanitized() == e.Sanitized()
    ensures e.Sanitized().IsRetryable() == e.IsRetryable()
  {
    match e
    case Transport(kind, text) => RedactedErrorsAreStable(kind, 0, QueryOrder, 0, text, RedactSecrets(text));
    case Http(status, text) => RedactedErrorsAreStable(Timeout, status, QueryOrder, 0, text, RedactSecrets(text));
    case Api(endpoint, code, text) => RedactedErrorsAreStable(Timeout, 0, endpoint, code, text, RedactSecrets(text));
    case InvalidResponse(endpoint, text) =>
      RedactedErrorsAreStable(Timeout, 0, endpoint, 0, text, RedactSecrets(text));
    case Notify(text) => RedactedErrorsAreStable(Timeout, 0, QueryOrder, 0, text, RedactSecrets(text));
    case _ =>
  }

  /** Nor does it change an error that the constructors made. */
  lemma ConstructedIsSanitized(endpoint: Endpoint, kind: TransportErrorKind, code: int, message: Bytes)
    ensures Error.MakeTransport(kind, message).Sanitized() == Error.MakeTransport(kind, message)
    ensures Error.MakeApi(endpoint, code, message).Sanitized() == Error.MakeApi(endpoint, code, message)
    ensures Error.MakeNotify(message).Sanitized() == Error.MakeNotify(message)
    ensures Error.MakeInvalidResponse(endpoint, message).Sanitized() == Error.MakeInvalidResponse(endpoint, message)
  {
    RedactedErrorsAreStable(kind, 0, endpoint, code, message, RedactSecrets(message));
  }

  /** Sanitizing redacts the text of an error and keeps everything else; the constructors store redacted text. */
  lemma SanitizedText(kind: TransportErrorKind, status: nat, endpoint: Endpoint, code: int, text: Bytes,
                      redacted: Bytes)
    requires redacted == RedactSecrets(text)
    ensures Transport(kind, text).Sanitized() == Error.MakeTransport(kind, text) == Transport(kind, redacted)
    ensures Http(status, text).Sanitized() == Http(status, redacted)
    ensures Api(endpoint, code, text).Sanitized() == Error.MakeApi(endpoint, code, text)
         == Api(endpoint, code, redacted)
    ensures InvalidResponse(endpoint, text).Sanitized() == Error.MakeInvalidResponse(endpoint, text)
         == InvalidResponse(endpoint, redacted)
    ensures Notify(text).Sanitized() == Error.MakeNotify(text) == Notify(redacted)
  {
  }

  /** A text with a merchant key or a signature in it, as a form fragment or as a JSON member, and how it must look. */
  predicate MaskedAs(text: Bytes, masked: Bytes, front: Bytes, name: Bytes, secret: Bytes, rest: Bytes) {
    || (&& (name == "key=" || name == "sign=")
        && RedactionResults.LeadsIn(front) && RedactionResults.NoDelimiter(secret)
        && RedactionResults.EndsFragment(rest) && RedactionResults.NoMember(text)
        && text == front + (name + (secret + rest))
        && masked == front + (name + ("***" + RedactSecrets(rest))))
    || (&& front == [] && (name == "\"key\"" || name == "\"sign\"")
        && (forall i :: 0 <= i < |secret| ==> secret[i] != '"' && secret[i] != '\\')
        && text == name + (":\"" + (secret + (['"'] + rest)))
        && masked == name + (":\"***\"" + RedactSecrets(rest)))
  }

  /** No error shows it, whether it was sanitized or made by a constructor. */
  lemma SecretsAreMasked(kind: TransportErrorKind, status: nat, endpoint: Endpoint, code: int, text: Bytes,
                         masked: Bytes, front: Bytes, name: Bytes, secret: Bytes, rest: Bytes)
    requires MaskedAs(text, masked, front, name, secret, rest)
    ensures Transport(kind, text).Sanitized() == Error.MakeTransport(kind, text) == Transport(kind, masked)
    ensures Http(status, text).Sanitized() == Http(status, masked)
    ensures Api(endpoint, code, text).Sanitized() == Error.MakeApi(endpoint, code, text) == Api(endpoint, code, masked)
    ensures InvalidResponse(endpoint, text).Sanitized() == Error.MakeInvalidResponse(endpoint, text)
         == InvalidResponse(endpoint, masked)
    ensures Notify(text).Sanitized() == Error.MakeNotify(text) == Notify(masked)
  {
    SecretIsMasked(text, masked, front, name, secret, rest);
    SanitizedText(kind, status, endpoint, code, text, masked);
  }

  lemma SecretIsMasked(text: Bytes, masked: Bytes, front: Bytes, name: Bytes, secret: Bytes, rest: Bytes)
    requires MaskedAs(text, masked, front, name, secret, rest)
    ensures RedactSecrets(text) == masked
  {
    if name == "key=" || name == "sign=" {
      RedactionResults.FragmentMasked(front, name, secret, rest);
    } else {
      RedactionResults.PlainMemberMasked(name, ":\"", secret, rest);
    }
  }
}
