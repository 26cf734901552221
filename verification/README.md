# Verified model of the EPay SDK protocol core

The SDK signs payment requests for an EPay gateway, reads the gateway's payment notifications, and
calls its order API. This project models that core in Dafny and proves what it is relied on for.

A Rust string is the sequence of its UTF-8 bytes (`ByteStrings.Bytes`, one byte written as the
character with that number); well-formedness is `Utf8.ValidUtf8` (RFC 3629, sections 3 and 4). A
`BTreeMap<String, String>` is a map together with its one strictly sorted listing
(`SortedMaps.Entries`). Objects that the SDK updates in place (`Params`, the hasher, the order-number
counter, the transport's records) are classes; its loops are methods with invariants, each proved equal
to a specification function, and the properties are lemmas about those functions.

The parts, in the order in which they build on each other:

- `ByteStrings`, `Utf8`, `UnicodeText`, `SortedMaps`, `Wrappers`: text, maps, results.
- `FormCodec`, `ParamMaps`, `Payloads`: the parameter map and `application/x-www-form-urlencoded` (WHATWG URL
  Standard, sections 5.1 and 5.2).
- `Signing`: payload, digest, hexadecimal text, verification. MD5 (RFC 1321) is an arbitrary function
  from bytes to 16 bytes, so every theorem holds for any digest.
- `Notifications`, `Merging`, `Verification`: strict parsing, merging of query and form, field checks.
- `TextMaps`, `EndToEnd`: a notification from the sender's fields to the receiver's.
- `FormPayments`, `FormOutcomes`, `HtmlForms`: outgoing signed forms, when they are produced, and their HTML
  inputs.
- `JsonRedaction`, `JsonShape`, `JsonCoverage`, `FormRedaction`, `FormShape`, `FormCoverage`,
  `FormPositions`, `SecretRedaction`, `RedactedText`, `RedactionResults`, `Errors`: masking of secrets in
  error texts.
- `Retrying`, `Transports`, `Clients`, `Orders`, `Pagination`, `Gateways`: retries, back-off, bounded
  bodies, pages, and the whole client against a gateway with a fixed list.
- `Amounts`, `AmountTexts`, `OrderNumbers`, `Validation`: exact money, order numbers, field rules.

Where the code does less than its documentation says, or less than one would expect, the model follows
the code. Each difference has its exact condition and an input that shows it:

- The redactor is documented to mask form and query fragments named `key` or `sign`
  (`src/error.rs:381`). It searches for the first occurrence of each name only (`src/error.rs:415-425`),
  so the `key=` inside `monkey=1&key=...` hides the fragment behind it. `FormPositions.AllMaskedIff`
  says, by positions in the text, exactly when all fragments are masked; `FormCoverage.HiddenFragment`
  gives a family of texts that are printed with their secret, `FormCoverage.MonkeyShowsKey` one of them.
- It is documented to mask the value of every `"key"` and `"sign"` member (`src/error.rs:386`); only
  string values are masked. `JsonCoverage.EveryMemberMaskedIff` says exactly when every member comes out
  masked, `JsonCoverage.NumberIsShown` gives the texts with a number.
- Back-off is documented to double up to `max_backoff` (`src/config.rs:208-209`); the exponent stops at
  31. `Retrying.BackoffDoubles` says exactly when doubling holds, `Retrying.DoublingStops` gives a
  policy.
- Collecting all orders ends against a fixed list exactly when `max_pages` is below the largest 32-bit
  number or the list is shorter than that many pages (`Pagination.FixedListEndsIff`), because the page
  counter saturates there; `Pagination.EndsOnFullPagesIff` is the same for pages that are always full.
  `Orders.QueryAllOrders` requires no more than that its loop ends.
- Payloads are signed unencoded. Between maps without delimiters the payload decides the signed fields
  (`ParamMaps.PayloadInjective`). When values may hold an `&`, as `Params` allows, a payload belongs to
  one set of fields exactly when nothing or a single field is signed whose value cannot be split
  (`Payloads.DeterminedIff`); `ParamMaps.PayloadCollision` gives two maps with one payload.

## Model

| member | source | states |
|---|---|---|
| EndToEnd.EndToEndDelivery | src/test_util.rs:111-138 | For every fixture, any digest, any distribution of its signed pairs over query and form (overlap allowed, any order) within the limits: strict parsing and merging return the signed map, and a receiver configured for any merchant id accepts exactly the fixtures that satisfy the field rules and carry that id, and is handed the sender's fields |
| EndToEnd.QueryDelivery | src/test_util.rs:129-138 | The same for the fixture's own query string of at most 16384 bytes under the default limits |
| EndToEnd.FixtureReads | src/notify.rs:266-298 | The field checks of a receiver configured for any merchant id accept an unsigned fixture map if and only if its fields satisfy the rules and it carries that id, and return exactly its data |
| EndToEnd.UnsignedParams | src/test_util.rs:111-126 | The inserts build a fresh map with exactly the fixture's non-empty fields |
| EndToEnd.SignedQuery | src/test_util.rs:129-138 | The query is the serialized form of the signed fixture map |
| FormCodec.ValidatePercentEncoding | src/notify.rs:349-366 | The index loop accepts exactly the texts in which every `%` is followed by two hexadecimal digits |
| FormCodec.ComponentRoundTrip | src/notify.rs:340-347 | Every Rust string survives serializing and strict decoding of one component |
| FormCodec.EncodePairsSplits | src/params.rs:110-116 | A serialized list splits at `&` into exactly its encoded pairs |
| FormCodec.EncodedByteText | src/params.rs:110-116 | Letters, digits and `*-._` stay, a space becomes `+`, any other byte `%` and two upper-case digits |
| Notifications.ReadSource | src/notify.rs:308-338 | The loop over `&`-separated pieces computes the specified entries or the first error |
| Notifications.ParseRawSound | src/notify.rs:226-247 | Accepted input keeps both limits; every entry has a name and is well-formed text |
| Notifications.TooManyBytesIff | src/notify.rs:231-237 | Refused for its size if and only if query and form together exceed the limit |
| Notifications.ParsePairsIff | src/notify.rs:308-338 | Empty pieces are skipped; the others are accepted if and only if each parses and they are not too many |
| Notifications.ParseRawOfEncoded | src/notify.rs:226-247 | Serialized query and form pairs are read back in order, tagged with their origin |
| Merging.ReadRaw | src/notify.rs:226-247 | Size check, query, form: the entries, or the error of the first step that fails |
| Merging.ReadNotify | src/notify.rs:253-255 | Parsing then merging yields the specified map or error |
| Merging.FileEntries | src/notify.rs:103-120 | Every entry is filed under its source; the first repeated key of a source is reported |
| Merging.SharedFieldsAgree | src/notify.rs:121-127 | Accepts exactly the maps with equal values under all shared keys |
| Merging.Canonicalize | src/notify.rs:103-136 | The three loops compute the specified outcome: the error, or the union without empty values |
| Merging.CanonicalIff | src/notify.rs:103-136 | Merging succeeds if and only if no source repeats a key and the sources agree; the result holds exactly the non-empty fields of either source |
| Merging.CanonicalErrors | src/notify.rs:103-127 | The first repeated key is reported with its source, before any disagreement between the sources |
| Merging.CanonicalOrderIrrelevant | src/notify.rs:103-136 | Reordering the entries changes neither success nor the merged map |
| Merging.SplitRoundTrip | src/notify.rs:253-255 | However the pairs of a map are distributed over query and form, parsing returns the map |
| Merging.EncodeRoundTripIff | src/params.rs:110-116 | The serialized map reads back as itself if and only if no name is empty and both limits are kept |
| Merging.EncodeInjective | src/params.rs:110-116 | Maps with equal serialized forms are equal |
| Merging.AcceptedIsBounded | src/notify.rs:34-41 | Whatever the input, an accepted map has at most the permitted fields, all named, non-empty text |
| ParamMaps.Params.Insert | src/params.rs:25-32 | Stores the value unless it is empty, changes nothing else, keeps the map free of empty values |
| ParamMaps.Params.InsertOpt | src/params.rs:35-44 | As Insert for a present value, nothing otherwise |
| ParamMaps.Params.Remove | src/params.rs:57-59 | Removes the key only and returns what it held |
| ParamMaps.Params.Merge | src/params.rs:77-82 | The union, the other map's values winning, free of empty values |
| ParamMaps.Params.BuildPayload | src/params.rs:98-107 | The loop yields the sorted join of all fields but `sign` and `sign_type` |
| ParamMaps.Params.BuildQuery | src/params.rs:110-116 | The serializer loop yields the encoded pairs in key order |
| SortedMaps.LessIff | src/params.rs:15 | The order of the keys, by positions: a proper prefix comes first, else the smaller byte at the first difference |
| ParamMaps.FromIter | src/params.rs:190-196 | The result is all pairs inserted from left to right |
| ParamMaps.PayloadInjective | src/params.rs:98-107 | For names without `=` and `&` and values without `&`: equal payloads if and only if equal signed fields |
| ParamMaps.PayloadCollision | src/params.rs:96-107 | Two maps with different numbers of fields share a payload, with non-empty values where the pairs have them |
| Payloads.DeterminedIff | src/params.rs:96-107 | Among maps with plain names and non-empty values, a payload belongs to one set of signed fields if and only if nothing is signed, or one field whose value holds no `&` followed by a plain later name, `=` and a value |
| ParamMaps.InsertionOrderIrrelevant | src/params.rs:25-32 | Pairs with distinct keys give one map and one payload in whatever order they are inserted |
| Signing.PushHex | src/signer.rs:68-76 | The loop prints two lower-case digits for every byte |
| Signing.UnhexUndoesHex | src/signer.rs:68-76 | Hexadecimal printing is invertible |
| Signing.ComputeSign | src/signer.rs:41-47 | Feeding payload and then key to the hasher yields the hexadecimal digest of the payload followed by the key |
| Signing.SignWithParams | src/signer.rs:60-65 | Replaces whatever signature the map carried and changes nothing else |
| Signing.VerifyIff | src/signer.rs:50-57 | A text verifies if and only if, lower-cased, it is the hexadecimal digest of the payload followed by the key: the length and alphabet guards never decide |
| Signing.SignedFieldsShape | src/signer.rs:60-65 | Signing leaves the signed fields alone; `sign` is the digest of payload and key, `sign_type` is MD5, and the signature of the signed map is the one it carries |
| Signing.SignedVerifies | src/signer.rs:50-65 | A signed map verifies under exactly the letter-case variants of its signature, even when it carried a stale one |
| Signing.AcceptedTwiceIsCollision | src/signer.rs:41-57 | Two delimiter-free maps with different signed fields have different texts to digest under one key; one signature accepted for both is a digest collision between payload-then-key texts |
| Signing.TwoKeysCollide | src/signer.rs:41-57 | One text that verifies under two keys, for one map or two, is the digest of both payload-then-key texts; for one map and different keys these texts differ |
| Signing.HexDigits | src/signer.rs:68-76 | Byte i of a digest becomes digits 2i and 2i+1 of `0123456789abcdef`, high half first |
| Verification.AcceptedIff | src/notify.rs:258-298 | Acceptance is an authentic signature plus field checks that see the signed fields only |
| Verification.SignatureGate | src/notify.rs:258-265 | With an authentic signature the outcome is that of the field checks; without one nothing is accepted |
| Verification.VerifyNotifyIff | src/notify.rs:258-298 | Accepted if and only if `sign_type` is MD5 and `sign` the digest of payload and key, in any letter case, `pid` reads as the configured id, which is at least 1, and every other field is there and satisfies its rule; what is handed over is what the map holds |
| Verification.ReadFieldsIff | src/notify.rs:266-298 | The field checks alone, likewise |
| Verification.PidErrors | src/notify.rs:268-273 | An authentic notification with a missing, unreadable, zero or foreign `pid` gets the error of that check |
| Verification.SignatureErrors | src/notify.rs:258-265 | Another `sign_type` and a wrong signature get their own errors |
| Validation.OutTradeNoIff | src/validation.rs:7-20 | Accepts exactly 1 to 64 bytes of the alphabet; the trim test never decides |
| Validation.TradeNoIff | src/validation.rs:22-31 | Accepts exactly 1 to 128 letters and digits |
| Validation.NameIff | src/validation.rs:33-48 | Accepts exactly text that is not blank, has at most 255 bytes and no control character at any position |
| Validation.PayTypeByWire | src/types.rs:60-69 | Reading a wire name keeps the wire name and its validity, and the variant unless `Other` held a known name |
| FormPayments.BlankNeverShadows | src/payment.rs:58-64 | A non-blank override is used, trimmed, whatever the default; else the default, trimmed, unless it is blank; else none |
| FormPayments.FormParams | src/protocol.rs:112-129 | Validation, inserts, signing in place and the size bound compute the specified form or the first error |
| FormPayments.FormIsDelivered | src/protocol.rs:112-129 | Every produced form has at most 11 fields and 4096 encoded bytes, parses back under the default limits to the same map, and its signature verifies |
| FormPayments.FormCarriesRequest | src/protocol.rs:112-129 | Every field of a produced form equals the request's value, absent exactly when that is absent or empty; each callback URL is the trimmed override, or the trimmed default where the override is blank |
| FormOutcomes.FormProducedIff | src/protocol.rs:112-129 | A form is produced if and only if the fields satisfy their rules, callbacks are found, at most 1024 bytes, well formed and HTTPS unless plain HTTP is allowed, and the encoding has at most 4096 bytes; it is the only map with the request's eleven fields, signed, and no others |
| FormOutcomes.PrepareIff | src/payment.rs:346-353 | Preparation yields exactly these callbacks; the check of an override never decides, because an allowed URL has passed it |
| FormOutcomes.RequestErrors | src/payment.rs:330-344 | The first rule broken, in the order of the source, gives the error |
| FormOutcomes.CallbackErrors | src/payment.rs:77-94 | No URL to notify, and plain HTTP where it is not allowed, have their own errors |
| Utf8.TrimKeepsText | src/payment.rs:56-64 | Trimming well-formed text gives well-formed text |
| UnicodeText.ValidUtf8Iff | src/notify.rs:340-347 | Well-formed bytes are exactly the encodings of sequences of Unicode scalar values |
| UnicodeText.TrimText | src/payment.rs:56-64 | Trimming text removes the characters with the White_Space property from both ends and nothing else |
| HtmlForms.PushEscaped | src/payment.rs:569-582 | The loop replaces exactly the five characters by their entities |
| HtmlForms.EscapedHasNoMarkup | src/payment.rs:569-582 | Escaped text holds no `<`, `>`, quote or apostrophe |
| HtmlForms.UnescapeUndoesEscape | src/payment.rs:569-582 | Undoing the entities recovers the text |
| HtmlForms.RenderInputs | src/payment.rs:527-537 | The loop renders one input per parameter, in key order |
| HtmlForms.InputsRoundTrip | src/payment.rs:527-537 | Reading the attributes back yields the ordered list of names and values, whatever they hold |
| HtmlForms.FormDeterminesFields | src/payment.rs:527-537 | Two parameter maps rendered alike are equal |
| HtmlForms.EntityTexts | src/payment.rs:569-582 | Wherever it stands, each of the five characters becomes its own entity, and every other character stays |
| HtmlForms.InputText | src/payment.rs:527-537 | The text of one hidden input, around the escaped name and value |
| JsonRedaction.JsonStringEnd | src/error.rs:451-464 | The byte loop finds the closing quote of a string body, escapes skipped |
| JsonRedaction.FindValue | src/error.rs:393-400 | Trim, colon, trim, quote finds exactly where a string value opens |
| JsonRedaction.RedactJsonSecrets | src/error.rs:387-409 | The searching loop computes the character-by-character redaction |
| JsonShape.RedactJsonIdempotent | src/error.rs:387-409 | Redacting twice is redacting once |
| JsonShape.SecretsDoNotShow | src/error.rs:387-409 | Replacing masked bodies, and the spacing before them, by any well-formed ones leaves the output unchanged |
| JsonShape.RedactJsonShowsShape | src/error.rs:387-409 | Two texts have equal outputs if and only if they differ in masked bodies and the spacing before them only |
| JsonCoverage.EveryMemberMaskedIff | src/error.rs:386-409 | Every member name of the output that lies outside earlier members is followed by the mask if and only if every such name of the input is followed by whitespace, a colon, whitespace and a quote |
| JsonCoverage.NumberIsShown | src/error.rs:386-400 | A member with a number, and no quote behind it, is printed as it is |
| FormRedaction.RedactFormSecrets | src/error.rs:411-442 | The first-occurrence search computes the character-by-character automaton |
| FormRedaction.SearchFindsNext | src/error.rs:414-425 | The nearest boundary occurrence among the first ones is where the automaton masks next |
| FormShape.RedactFormIdempotent | src/error.rs:411-442 | Redacting twice is redacting once |
| FormShape.RedactFormShowsShape | src/error.rs:411-442 | Two texts have equal outputs if and only if they differ in masked values only |
| FormCoverage.MasksAllIff | src/error.rs:411-442 | The form pass masks every boundary fragment if and only if its search overlooks none |
| FormPositions.AllMaskedIff | src/error.rs:411-442 | The form pass masks every boundary fragment if and only if none has a value other than the mask and an earlier occurrence of its name away from a boundary with no masked fragment between |
| FormCoverage.HiddenFragment | src/error.rs:414-425 | A name inside a longer word hides the next fragment of that name; unless its value holds a boundary, the whole text is printed unchanged |
| FormCoverage.MonkeyShowsKey | src/error.rs:411-442 | `monkey=1&key=abc` is printed unchanged |
| SecretRedaction.Redact | src/error.rs:382-384 | The two passes in order: the form pass over the output of the JSON pass |
| SecretRedaction.FormKeepsStable | src/error.rs:382-442 | On text that the JSON pass leaves alone the form pass yields such text again |
| SecretRedaction.RedactSecretsIdempotent | src/error.rs:382-384 | Re-running the redactor changes nothing, nor does the JSON pass alone |
| RedactionResults.FragmentMasked | src/error.rs:382-384 | In text without JSON members a `key=` or `sign=` fragment at the front or behind a boundary comes out as its name and `***`, whatever its value, up to the next delimiter; the rest is redacted on its own |
| RedactionResults.MemberMasked | src/error.rs:382-384 | A string value of a `"key"` or `"sign"` member, escapes included, comes out as `:"***"`, whatever it is; the rest is redacted on its own |
| RedactionResults.PlainMemberMasked | src/error.rs:382-384 | In particular with and without spaces around the colon |
| RedactionResults.NothingToMask | src/error.rs:382-384 | Text in which none of the four names occurs is printed unchanged |
| RedactionResults.BothPassesDone | src/error.rs:382-384 | Neither pass changes the output of the whole redactor |
| RedactionResults.RedactSecretsShowsShape | src/error.rs:382-384 | Two texts are printed alike if and only if their outputs of the JSON pass differ in masked fragment values only |
| RedactedText.RedactKeepsText | src/error.rs:382-442 | Redacted text is well-formed UTF-8: every cut lies on a character boundary |
| Errors.SanitizedIsStable | src/error.rs:267-295 | Sanitizing twice is sanitizing once and keeps whether a retry is allowed |
| Errors.ConstructedIsSanitized | src/error.rs:217-236 | Sanitizing changes no error made by the constructors that redact a message |
| Errors.SecretsAreMasked | src/error.rs:217-295 | An error whose text holds a key or signature, as a fragment or as a member, shows `***` in its place, sanitized or made by a constructor, and is otherwise unchanged |
| Errors.SanitizedText | src/error.rs:267-295 | Sanitizing redacts the text of an error and keeps kind, status, endpoint and code |
| Retrying.BackoffExact | src/config.rs:258-263 | The delay is `min(initial * 2^min(n-1, 31), max)` in exact arithmetic, overflow included |
| Retrying.DefaultDelays | src/config.rs:222-228 | The default policy waits 0.2, 0.4, 0.8 and 1.6 seconds, then always 2 |
| Retrying.PoliciesAreValid | src/config.rs:214-240 | Every constructor keeps the initial delay at or below the maximum and both within a `Duration` |
| Retrying.BackoffDoubles | src/config.rs:208-209 | Doubling up to the cap holds if and only if the retry is before the 32nd, `initial * 2^31` reaches the cap, or the delay is zero |
| Retrying.DoublingStops | src/config.rs:258-263 | From 1 ns up to 10 s the 33rd delay equals the 32nd |
| Retrying.BackoffMonotone | src/config.rs:258-263 | Later retries never wait less |
| Retrying.WorstCaseTime | src/config.rs:277-281 | A run takes at most `(retries + 1) * timeout + retries * max_backoff` |
| Transports.ReadResponse | src/transport.rs:121-152 | The chunk loop computes the specified body or error; the largest buffer held at any time is within the limit |
| Transports.ReadBodyIff | src/transport.rs:121-152 | A body is delivered if and only if it is complete, successful and within the limit, and then it is all chunks in order |
| Transports.ReadBodyErrors | src/transport.rs:121-152 | Too long as soon as the announced or the received length exceeds the limit; before that the failure of a chunk; the status of a complete body last |
| Transports.SanitizeKeepsOutcome | src/client.rs:426-431 | Sanitizing an outcome never changes whether it is retried, and is done once for all |
| Clients.SendWithRetries | src/client.rs:423-444 | Number of calls, outcome, requests and sleeps of the retry loop, for any server |
| Clients.AttemptsIff | src/client.rs:423-444 | The number of attempts is n if and only if all but the last fail retryably and the last does not, or is the last permitted |
| Clients.BodyAfterFailures | src/client.rs:423-444 | Up to `max_retries` timeouts, connection failures or answers 502, 503 and 504 followed by a body: exactly that many calls and one more, and the body is decoded, or refused when longer than the limit |
| Clients.LastingFailureIsFinal | src/client.rs:423-444 | A failure of any other kind, at the first call or after such failures, ends the call and is returned |
| Clients.RetriesRunOut | src/client.rs:423-444 | When all permitted attempts fail so, their number is `max_retries + 1` and the last failure is returned |
| Clients.TransientIff | src/error.rs:200-211 | Exactly these failures are repeated, sanitized or not |
| Clients.FitsIff | src/validation.rs:97-103 | A request is sent exactly when its encoded query, with the form of a POST, has at most 4096 bytes |
| Clients.GetJson | src/client.rs:403-445 | Result, requests and sleeps of a GET; an oversized request is never sent |
| Clients.PostJson | src/client.rs:447-475 | Exactly one call and no sleep; an oversized request is never sent |
| Orders.ValidateList | src/order.rs:223-235 | Accepts exactly lists with a non-negative count whose rows all pass the row check for the configured merchant |
| Orders.BuildPageQuery | src/client.rs:260-272 | Inserts and merge build exactly the page query |
| Orders.PageRequestAsks | src/client.rs:260-272 | A page request is a GET of the order list with `act=orders`, the merchant's pid and key, the limit, the page and the offset `(page - 1) * limit`, and no other field |
| Orders.QueryPage | src/client.rs:254-273 | Result and requests of one page |
| Orders.PageDelivered | src/order.rs:223-235 | A page is delivered if and only if the call yields a list with a non-negative count whose rows all have valid numbers and amounts and carry the configured pid |
| Orders.CollectPages | src/client.rs:292-303 | Whenever the loop ends at all, it returns the specified collection and sends exactly the specified requests in order |
| Orders.QueryAllOrders | src/client.rs:282-303 | As CollectPages with the clamped limit; every order returned has valid numbers, the configured pid and valid money |
| Orders.DeliveredRowsAreValid | src/order.rs:176-235 | Whatever the server does, every order of a run has valid numbers and a valid amount and carries the configured pid |
| Pagination.RunIsBounded | src/client.rs:282-303 | Whatever the server does, a run sends at most `max_pages * (max_retries + 1)` requests, unless the largest page number is served full |
| Pagination.OffsetIsCollected | src/client.rs:254-272 | When no page is longer than asked for, every request of a run, retries included, asks for the offset collected so far |
| Pagination.RunIsPrefix | src/client.rs:282-303 | Against a fixed list the run ends, and a successful one returns exactly its first `min(N, limit * max_pages)` orders, in order |
| Pagination.RunSucceedsIff | src/client.rs:282-303 | Against pages delivered without failures, a run succeeds if and only if every row it covers passes the check |
| Pagination.FixedListEndsIff | src/client.rs:282-303 | Against a fixed list without failures the loop ends if and only if `max_pages` is below the largest 32-bit number or the list is shorter than that many pages |
| Pagination.EndsOnFullPagesIff | src/order.rs:214-221 | Against pages that are always full the loop ends if and only if `max_pages` is below the largest 32-bit number; which page is fetched after n others |
| Gateways.BothGatewaysAgree | src/client.rs:243-247 | A gateway that reads `page` and one that reads `offset` serve the same rows |
| Gateways.ClientCollectsPrefix | src/client.rs:282-303 | The whole client, retries and decoding included, against a gateway that may fail at any time: the run ends, and a successful one returns the first orders |
| Gateways.ClientAsksForNext | src/client.rs:254-272 | Against such a gateway every request asks for the offset collected so far |
| Gateways.ClientSucceedsIff | src/client.rs:282-303 | Against a gateway that answers every page of the run with a body of that page, the client succeeds if and only if all rows covered pass the row check, and returns all of them |
| Gateways.ShortKeysFit | src/validation.rs:97-103 | With a key of up to 200 bytes every page request is within the size bound |
| Gateways.ServersExist | src/client.rs:254-273 | For every list there is a server that answers every page of the run |
| Amounts.NewIff | src/money.rs:29-38 | Accepts exactly positive whole numbers of fen, keeps the value, agrees with rounding; which error otherwise |
| Amounts.NewRoundedIsNearest | src/money.rs:41-47 | The result is the nearest fen, halves up, refused exactly when that is below one |
| Amounts.NewSeesValue | src/money.rs:29-38 | Equal values in different representations have the same outcome |
| Amounts.NewRoundedSeesValue | src/money.rs:41-47 | Likewise for rounding |
| Amounts.ConstructorsGiveMoney | src/money.rs:29-47 | Every accepted amount is positive, fits the mantissa and has at most two decimals |
| Amounts.TryToFenIff | src/money.rs:89-94 | The conversion is exact and fails only when the fen exceed 64 signed bits |
| Amounts.FenRoundTrip | src/money.rs:62-67 | `try_to_fen` undoes `from_fen` on 1 to the largest signed 64-bit number |
| Amounts.PrintsFen | src/money.rs:97-99 | The printed form is yuan, a point and two digits, and depends on the value only |
| Amounts.PrintParseRoundTrip | src/money.rs:50-53 | The printed form parses back to the same value whenever its fen fit the mantissa |
| AmountTexts.FromYuanIff | src/money.rs:50-53 | A trimmed text is an amount only if, after an optional plus sign, it is a decimal number whose value `new` accepts; behind a minus sign it never is, and anything else is refused |
| AmountTexts.ScanIff | src/money.rs:50-53 | A text without sign is a number if and only if it is digits, `_` behind a digit and at most one point; its value is that of its digits, its scale the number of digits behind the point |
| AmountTexts.ParseSigned | src/money.rs:50-53 | A minus sign negates the value, a plus sign keeps it |
| AmountTexts.WrittenTenths | src/money.rs:50-53 | One decimal is read exactly, as in `9.9` |
| OrderNumbers.Sequence.FetchAdd | src/order.rs:249 | Draws the old counter and advances it modulo 2^32 |
| OrderNumbers.Sequence.Generate | src/order.rs:243-253 | A failing clock draws no ticket; otherwise one is drawn, even if the number is then refused |
| OrderNumbers.Sequence.GenerateAll | src/order.rs:243-253 | A caller's run returns the specified outcome for every call and leaves the counter behind the tickets drawn |
| OrderNumbers.SameDigitsIff | src/order.rs:249 | Two tickets share their last four digits if and only if their distance is a multiple of 10000, or 7296 modulo 10000 across a wrap |
| OrderNumbers.NeverRepeats | src/order.rs:238-253 | In any run calls fewer than 7296 tickets apart never return the same number, whatever prefixes and clock; fewer than 10000 without a wrap |
| OrderNumbers.RepeatsIff | src/order.rs:243-253 | With one prefix two numbers are equal if and only if the clock readings are and the tickets share their digits |
| OrderNumbers.BoundsAreSharp | src/order.rs:243-253 | Repeating a legal call under one clock reading gives its number again 10000 tickets later, and 7296 tickets later across the wrap |
| OrderNumbers.ALegalCall | src/order.rs:243-253 | Such a call exists, at every ticket |
| OrderNumbers.OutcomeIff | src/order.rs:243-253 | A number is returned if and only if the clock works and the prefix is legal and short enough; which error otherwise |
| OrderNumbers.NumberShape | src/order.rs:243-253 | A number returned is the prefix, the clock reading and the ticket modulo 10000 as four digits |

## Left out

- MD5 itself and the constant-time comparison: the digest is a parameter, timing is not a function of the input.
- The `url` crate: parsing a callback or base URL is the parameter `parse` of `FormPayments`, which yields the scheme of an acceptable URL; joining endpoint paths and rendering `action` are not part of this model.
- `rust_decimal` beyond 96 bits of mantissa or 28 decimals: the parameter `wide` of `Amounts.ParseDecimal` stands for the crate's rounding of such texts; the `f64` constructors are left out.
- Amounts.PrintParseRoundTrip: stops at amounts whose fen fit 96 bits, because beyond that the decimal crate rounds what it parses.
- AmountTexts.FromYuanIff: stops at numbers within 96 bits and 28 decimals, for the same reason.
- Orders.QueryAllOrders: says nothing of a call whose loop does not end; when that is so is in `Pagination.FixedListEndsIff` and `Pagination.EndsOnFullPagesIff`.
- Errors.ConstructedIsSanitized: leaves out the two constructors that shorten a body after redacting it.
- JSON decoding, the response-code check and the `extra` members: the parameter `decode` of `Clients.Finish`, any function from bodies to results.
- Orders.ValidateList: does not model which of the five rejection messages a bad list gets; all are one error.
- Texts of error messages: errors are constructors; `body_preview` truncation, a length cap after redaction, is the parameter `preview` of `Transports.ReadBody`.
- Clients.GetJson: does not model the per-call choice of timeout and policy, which are arguments; a transport that takes time is only counted in `Retrying.WorstCaseTime`.
- `MockTransport`: one instance of `Transports.Transport`, whose answers are an arbitrary function of position and request.
- HTML newline normalisation and the page around the inputs: `HtmlForms.ReadInputs` reads double-quoted attributes and undoes the five entities.
- The API payment (`mapi.php`), single-order, refund, merchant and settlement calls: they use the same `GetJson` and `PostJson` with shallow checks of their own.
- `exactly_one_identifier`, device and client-IP checks, status tables, `Debug` output, environment variables, builders, the axum integration and the blocking wrapper: single-branch facts or plumbing.
- The lenient `from_urlencoded` parser and redaction of whole URLs.
