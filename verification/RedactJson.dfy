/**
  Masking of `"key"` and `"sign"` members in JSON-like text.

  `RedactJson` is the simple character-by-character form; `RedactJsonSecrets` is the searching loop
  of the source.  `Scan` makes visible what the redactor copies and what it masks.
 */
module JsonRedaction {
  import opened Wrappers
  import opened ByteStrings

  const KEY_MEMBER: Bytes := "\"key\""
  const SIGN_MEMBER: Bytes := "\"sign\""
  const MASKED_VALUE: Bytes := ":\"***\""

  /** The secret member name that `s` starts with, or nothing. */
  function MemberAt(s: Bytes): (member: Bytes)
    ensures member <= s && |member| <= 6
    ensures member == [] || member == KEY_MEMBER || member == SIGN_MEMBER
  {
    if KEY_MEMBER <= s then KEY_MEMBER
    else if SIGN_MEMBER <= s then SIGN_MEMBER
    else []
  }

  function ShiftBy(at: Option<nat>, n: nat): Option<nat> {
    match at
    case None => None
    case Some(i) => Some(i + n)
  }

  /** Where a string value starts behind whitespace, a colon unless it was seen, and an opening quote. */
  function OpenFrom(s: Bytes, colonSeen: bool): (start: Option<nat>)
    ensures start.Some? ==> (if colonSeen then 1 else 2) <= start.value <= |s|
  {
    var n := SpaceLength(s);
    if n > 0 then ShiftBy(OpenFrom(s[n..], colonSeen), n)
    else if s == [] then None
    else if colonSeen then if s[0] == '"' then Some(1) else None
    else if s[0] == ':' then ShiftBy(OpenFrom(s[1..], true), 1)
    else None
  }

  function OpenValue(tail: Bytes): Option<nat> { OpenFrom(tail, false) }

  /** Index of the closing quote of a JSON string body; a backslash escapes the next byte. */
  function StringEnd(s: Bytes): (end: Option<nat>)
    ensures end.Some? ==> end.value < |s| && s[end.value] == '"'
  {
    if s == [] then None
    else if s[0] == '"' then Some(0)
    else
      var skip := if s[0] == '\\' then 2 else 1;
      if |s| < skip then None
      else
        match StringEnd(s[skip..])
        case None => None
        case Some(n) => Some(n + skip)
  }

  lemma PlainStep(s: Bytes, t: Bytes)
    requires s != [] && s[0] != '"' && s[0] != '\\' && s[1..] == t && StringEnd(t).Some?
    ensures StringEnd(s) == Some(1 + StringEnd(t).value)
  {
  }

  lemma EscapeStep(s: Bytes, t: Bytes)
    requires |s| >= 2 && s[0] == '\\' && s[2..] == t && StringEnd(t).Some?
    ensures StringEnd(s) == Some(2 + StringEnd(t).value)
  {
  }

  lemma {:induction false} PlainSkips(v: Bytes, t: Bytes)
    requires forall i :: 0 <= i < |v| ==> v[i] != '"' && v[i] != '\\'
    requires StringEnd(t).Some?
    ensures StringEnd(v + t) == Some(|v| + StringEnd(t).value)
  {
    if v == [] {
      assert v + t == t;
    } else {
      PlainSkips(v[1..], t);
      SumHead(v, t);
      PlainStep(v + t, v[1..] + t);
    }
  }

  /** A quote behind a backslash does not end the string. */
  lemma EscapedQuoteIsInside(v: Bytes, quote: Bytes, t: Bytes)
    requires forall i :: 0 <= i < |v| ==> v[i] != '"' && v[i] != '\\'
    requires quote == ['\\', '"'] && StringEnd(t).Some?
    ensures StringEnd(v + (quote + t)) == Some(|v| + (2 + StringEnd(t).value))
  {
    SumDrop(quote, t);
    EscapeStep(quote + t, t);
    PlainSkips(v, quote + t);
  }

  lemma PlainBodyEnds(v: Bytes)
    requires forall i :: 0 <= i < |v| ==> v[i] != '"' && v[i] != '\\'
    ensures StringEnd(v + ['"']) == Some(|v|)
  {
    assert StringEnd(['"']) == Some(0);
    PlainSkips(v, ['"']);
  }

  /** What remains after the closing quote; nothing if the string is cut off. */
  function AfterString(value: Bytes): (rest: Bytes)
    ensures |rest| <= |value|
  {
    match StringEnd(value)
    case None => []
    case Some(end) => value[end + 1..]
  }

  function RedactJson(s: Bytes): Bytes
    decreases |s|, 0
  {
    if s == [] then []
    else
      var member := MemberAt(s);
      if member == [] then [s[0]] + RedactJson(s[1..])
      else member + RedactTail(s[|member|..])
  }

  /** What the redactor makes of the text behind a member name. */
  function RedactTail(tail: Bytes): Bytes
    decreases |tail|, 1
  {
    match OpenValue(tail)
    case None => RedactJson(tail)
    case Some(start) => MASKED_VALUE + RedactJson(AfterString(tail[start..]))
  }

  // ---- The loops of the source ----

  /** `str::find`. */
  function Find(s: Bytes, needle: Bytes): (at: Option<nat>)
    ensures at.Some? ==> at.value <= |s| && needle <= s[at.value..]
    ensures at.Some? ==> forall j :: 0 <= j < at.value ==> !(needle <= s[j..])
    ensures at.None? ==> forall j :: 0 <= j <= |s| ==> !(needle <= s[j..])
  {
    if needle <= s then Some(0)
    else if s == [] then None
    else
      match Find(s[1..], needle)
      case None =>
        assert forall j :: 1 <= j <= |s| ==> s[j..] == s[1..][j - 1..];
        None
      case Some(i) =>
        assert forall j :: 1 <= j <= i + 1 ==> s[j..] == s[1..][j - 1..];
        Some(i + 1)
  }

  /** The nearest of the first occurrences of the two member names. */
  function FindSecretMember(s: Bytes): Option<(nat, Bytes)> {
    match (Find(s, KEY_MEMBER), Find(s, SIGN_MEMBER))
    case (None, None) => None
    case (Some(i), None) => Some((i, KEY_MEMBER))
    case (None, Some(j)) => Some((j, SIGN_MEMBER))
    case (Some(i), Some(j)) => if j < i then Some((j, SIGN_MEMBER)) else Some((i, KEY_MEMBER))
  }

  /** The closing quote when the search goes on at index `i`. */
  function StringEndFrom(s: Bytes, i: nat): Option<nat> {
    if i > |s| then None
    else match StringEnd(s[i..]) case None => None case Some(n) => Some(n + i)
  }

  lemma StringEndAt(s: Bytes, i: nat)
    requires i < |s|
    ensures StringEndFrom(s, i) == if s[i] == '"' then Some(i)
                                   else StringEndFrom(s, if s[i] == '\\' then i + 2 else i + 1)
  {
    var rest := s[i..];
    assert rest[1..] == s[i + 1..];
    if |rest| >= 2 { assert rest[2..] == s[i + 2..]; }
  }

  /** The byte loop of `json_string_end`. */
  method JsonStringEnd(s: Bytes) returns (end: Option<nat>)
    ensures end == StringEnd(s)
  {
    var i := 0;
    while i < |s|
      invariant 0 <= i <= |s| + 1
      invariant StringEnd(s) == StringEndFrom(s, i)
    {
      StringEndAt(s, i);
      if s[i] == '\\' {
        i := i + 2;
      } else if s[i] == '"' {
        return Some(i);
      } else {
        i := i + 1;
      }
    }
    end := None;
  }

  lemma CopyOne(s: Bytes)
    requires s != [] && MemberAt(s) == []
    ensures RedactJson(s) == [s[0]] + RedactJson(s[1..])
  {
  }

  lemma {:induction false} CopyUntil(s: Bytes, i: nat)
    requires i <= |s|
    requires forall j :: 0 <= j < i ==> MemberAt(s[j..]) == []
    ensures RedactJson(s) == s[..i] + RedactJson(s[i..])
  {
    if i == 0 {
      assert s[..0] + RedactJson(s[0..]) == RedactJson(s);
    } else {
      assert MemberAt(s[0..]) == [] && s[0..] == s;
      CopyOne(s);
      forall j | 0 <= j < i - 1 ensures MemberAt(s[1..][j..]) == [] {
        assert s[1..][j..] == s[j + 1..];
      }
      CopyUntil(s[1..], i - 1);
      CopiedPrefix(s, i, RedactJson(s[i..]));
    }
  }

  lemma CopiedPrefix(s: Bytes, i: nat, r: Bytes)
    requires 0 < i <= |s|
    ensures s[1..][i - 1..] == s[i..]
    ensures [s[0]] + (s[1..][..i - 1] + r) == s[..i] + r
  {
  }

  lemma OneMemberAt(s: Bytes)
    ensures !(KEY_MEMBER <= s && SIGN_MEMBER <= s)
  {
    assert KEY_MEMBER[1] != SIGN_MEMBER[1];
  }

  lemma NoMember(s: Bytes)
    requires FindSecretMember(s).None?
    ensures RedactJson(s) == s
  {
    CopyUntil(s, |s|);
    assert s[..|s|] + RedactJson(s[|s|..]) == s;
  }

  lemma FoundIsFirst(s: Bytes)
    requires FindSecretMember(s).Some?
    ensures var (i, member) := FindSecretMember(s).value;
            && i <= |s| && MemberAt(s[i..]) == member != []
            && forall j :: 0 <= j < i ==> MemberAt(s[j..]) == []
  {
    var (i, member) := FindSecretMember(s).value;
    OneMemberAt(s[i..]);
  }

  lemma MemberFound(s: Bytes)
    requires FindSecretMember(s).Some?
    ensures var (i, member) := FindSecretMember(s).value;
            i + |member| <= |s|
            && RedactJson(s) == s[..i + |member|] + RedactTail(s[i + |member|..])
  {
    var (i, member) := FindSecretMember(s).value;
    FoundIsFirst(s);
    CopyUntil(s, i);
    Regroup(s, i, member, RedactTail(s[i + |member|..]));
  }

  lemma Regroup(s: Bytes, i: nat, member: Bytes, x: Bytes)
    requires i <= |s| && member <= s[i..]
    ensures s[i..][|member|..] == s[i + |member|..]
    ensures s[..i] + (member + x) == s[..i + |member|] + x
  {
    assert s[..i + |member|] == s[..i] + member;
  }

  /** `redact_json_secrets`: search, copy up to the member, mask, go on behind the value. */
  method RedactJsonSecrets(body: Bytes) returns (out: Bytes)
    ensures out == RedactJson(body)
  {
    out := [];
    var rest := body;
    while true
      invariant out + RedactJson(rest) == RedactJson(body)
      decreases |rest|
    {
      var next := FindSecretMember(rest);
      if next.None? {
        NoMember(rest);
        break;
      }
      MemberFound(rest);
      var (idx, member) := next.value;
      var head, tail := rest[..idx + |member|], rest[idx + |member|..];
      out, rest := RedactMember(out, head, tail);
    }
    out := out + rest;
  }

  /** The body of that loop behind a member name. */
  method RedactMember(out: Bytes, head: Bytes, tail: Bytes) returns (out': Bytes, rest: Bytes)
    ensures |rest| <= |tail|
    ensures out' + RedactJson(rest) == out + (head + RedactTail(tail))
  {
    var value := FindValue(tail);
    if value.None? {
      SumAssociates(out, head, RedactJson(tail));
      return out + head, tail;
    }
    out' := out + head + MASKED_VALUE;
    rest := SkipString(value.value);
    Reassociate(out, head, MASKED_VALUE, RedactJson(rest));
  }

  /** What follows the opening quote, if a value opens. */
  function Opened(s: Bytes, start: Option<nat>): Option<Bytes>
    requires start.Some? ==> start.value <= |s|
  {
    match start
    case None => None
    case Some(n) => Some(s[n..])
  }

  /** Trim, strip the colon, trim, strip the quote. */
  method FindValue(tail: Bytes) returns (value: Option<Bytes>)
    ensures value == Opened(tail, OpenValue(tail))
  {
    OpensBehindSpace(tail, false);
    TrimStartStops(tail);
    var colon := TrimStart(tail);
    if colon == [] || colon[0] != ':' { return None; }
    var afterColon := colon[1..];
    OpensBehindSpace(afterColon, true);
    TrimStartStops(afterColon);
    OpensBehindByte(colon, OpenFrom(afterColon, true));
    var quote := TrimStart(afterColon);
    if quote == [] || quote[0] != '"' { return None; }
    value := Some(quote[1..]);
  }

  lemma OpensBehindByte(s: Bytes, start: Option<nat>)
    requires s != [] && (start.Some? ==> start.value <= |s[1..]|)
    ensures Opened(s, ShiftBy(start, 1)) == Opened(s[1..], start)
  {
  }

  lemma DropTwice(s: Bytes, n: nat, start: Option<nat>)
    requires n <= |s| && (start.Some? ==> start.value <= |s[n..]|)
    ensures Opened(s, ShiftBy(start, n)) == Opened(s[n..], start)
  {
  }

  lemma {:induction false} OpensBehindSpace(s: Bytes, colonSeen: bool)
    ensures Opened(s, OpenFrom(s, colonSeen)) == Opened(TrimStart(s), OpenFrom(TrimStart(s), colonSeen))
  {
    var n := SpaceLength(s);
    if n > 0 {
      OpensBehindSpace(s[n..], colonSeen);
      assert TrimStart(s) == TrimStart(s[n..]);
      DropTwice(s, n, OpenFrom(s[n..], colonSeen));
    }
  }

  method SkipString(value: Bytes) returns (rest: Bytes)
    ensures rest == AfterString(value)
  {
    var end := JsonStringEnd(value);
    rest := if end.Some? then value[end.value + 1..] else [];
  }

  lemma Reassociate(a: Bytes, b: Bytes, c: Bytes, d: Bytes)
    ensures (a + b + c) + d == a + (b + (c + d))
  {
  }
}
