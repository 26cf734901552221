/** What the JSON redactor keeps of its input: the shape, and nothing of the masked values. */
module JsonShape {
  import opened Wrappers
  import opened ByteStrings
  import opened JsonRedaction

  /** The steps of one redactor run over a text. */
  datatype Scan =
    | Done
    | Copy(c: Byte, next: Scan)
    /** A member name that no string value follows. */
    | Bare(name: Bytes, next: Scan)
    /** A member name, the text up to the opening quote, and the string body. */
    | Secret(name: Bytes, gap: Bytes, body: Bytes, closed: bool, next: Scan)

  function ScanOf(s: Bytes): Scan
    decreases |s|, 0
  {
    if s == [] then Done
    else
      var member := MemberAt(s);
      if member == [] then Copy(s[0], ScanOf(s[1..])) else ScanTail(member, s[|member|..])
  }

  function ScanTail(member: Bytes, tail: Bytes): Scan
    decreases |tail|, 2
  {
    match OpenValue(tail)
    case None => Bare(member, ScanOf(tail))
    case Some(start) => ScanValue(member, tail[..start], tail[start..])
  }

  function ScanValue(member: Bytes, gap: Bytes, value: Bytes): Scan
    decreases |value|, 1
  {
    match StringEnd(value)
    case None => Secret(member, gap, value, false, Done)
    case Some(end) => Secret(member, gap, value[..end], true, ScanOf(value[end + 1..]))
  }

  function Quote(closed: bool): Bytes { if closed then ['"'] else [] }

  /** The scanned text. */
  function Text(t: Scan): Bytes {
    match t
    case Done => []
    case Copy(c, next) => [c] + Text(next)
    case Bare(name, next) => name + Text(next)
    case Secret(name, gap, body, closed, next) =>
      name + (gap + (body + (Quote(closed) + Text(next))))
  }

  /** The text with every secret body, and the spacing in front of it, replaced. */
  function Masks(t: Scan): Scan {
    match t
    case Done => Done
    case Copy(c, next) => Copy(c, Masks(next))
    case Bare(name, next) => Bare(name, Masks(next))
    case Secret(name, _, _, _, next) => Secret(name, ":\"", "***", true, Masks(next))
  }

  // ---- Well-formed replacements ----

  /** Whitespace, colon, whitespace, opening quote. */
  predicate IsGap(g: Bytes) { OpenValue(g) == Some(|g|) }

  predicate IsBody(body: Bytes, closed: bool, next: Scan) {
    if closed then StringEnd(body + ['"']) == Some(|body|) else next.Done? && StringEnd(body).None?
  }

  /** Equal up to the bodies of the secrets and the gaps in front of them. */
  predicate SameShape(t: Scan, u: Scan) {
    match (t, u)
    case (Done, Done) => true
    case (Copy(c, n), Copy(d, m)) => c == d && SameShape(n, m)
    case (Bare(a, n), Bare(b, m)) => a == b && SameShape(n, m)
    case (Secret(a, _, _, _, n), Secret(b, gap, body, closed, m)) =>
      a == b && IsGap(gap) && IsBody(body, closed, m) && SameShape(n, m)
    case _ => false
  }

  // ---- Scanning loses nothing ----

  lemma {:induction false} TextOfScan(s: Bytes)
    ensures Text(ScanOf(s)) == s
    decreases |s|, 0
  {
    if s != [] {
      var member := MemberAt(s);
      if member == [] {
        TextOfScan(s[1..]);
      } else {
        TextOfTail(member, s[|member|..]);
      }
    }
  }

  lemma {:induction false} TextOfTail(member: Bytes, tail: Bytes)
    ensures Text(ScanTail(member, tail)) == member + tail
    decreases |tail|, 2
  {
    match OpenValue(tail)
    case None => TextOfScan(tail);
    case Some(start) =>
      assert tail == tail[..start] + tail[start..];
      TextOfValue(member, tail[..start], tail[start..]);
  }

  lemma {:induction false} TextOfValue(member: Bytes, gap: Bytes, value: Bytes)
    ensures Text(ScanValue(member, gap, value)) == member + (gap + value)
    decreases |value|, 1
  {
    match StringEnd(value)
    case None => TextOfSecret(member, gap, value, false, Done, value);
    case Some(end) =>
      TextOfScan(value[end + 1..]);
      CutAtQuote(value, end);
      TextOfSecret(member, gap, value[..end], true, ScanOf(value[end + 1..]), value);
  }

  lemma CutAtQuote(value: Bytes, end: nat)
    requires end < |value| && value[end] == '"'
    ensures value[..end] + (Quote(true) + value[end + 1..]) == value
  {
  }

  lemma TextOfSecret(member: Bytes, gap: Bytes, body: Bytes, closed: bool, next: Scan, value: Bytes)
    requires body + (Quote(closed) + Text(next)) == value
    ensures Text(Secret(member, gap, body, closed, next)) == member + (gap + value)
  {
  }

  /** The redactor's output is its input with the secrets replaced. */
  lemma {:induction false} RedactedIsMasked(s: Bytes)
    ensures RedactJson(s) == Text(Masks(ScanOf(s)))
    decreases |s|, 0
  {
    if s != [] {
      var member := MemberAt(s);
      if member == [] {
        RedactedIsMasked(s[1..]);
      } else {
        RedactedTailIsMasked(member, s[|member|..]);
      }
    }
  }

  lemma {:induction false} RedactedTailIsMasked(member: Bytes, tail: Bytes)
    ensures member + RedactTail(tail) == Text(Masks(ScanTail(member, tail)))
    decreases |tail|, 2
  {
    match OpenValue(tail)
    case None => RedactedIsMasked(tail);
    case Some(start) => RedactedValueIsMasked(member, tail[..start], tail[start..]);
  }

  lemma {:induction false} RedactedValueIsMasked(member: Bytes, gap: Bytes, value: Bytes)
    ensures member + (MASKED_VALUE + RedactJson(AfterString(value)))
         == Text(Masks(ScanValue(member, gap, value)))
    decreases |value|, 1
  {
    match StringEnd(value)
    case None =>
      MaskedSecret(member, gap, value, false, Done, []);
    case Some(end) =>
      var rest := value[end + 1..];
      RedactedIsMasked(rest);
      MaskedSecret(member, gap, value[..end], true, ScanOf(rest), RedactJson(rest));
  }

  lemma MaskedSecret(member: Bytes, gap: Bytes, body: Bytes, closed: bool, next: Scan, rest: Bytes)
    requires Text(Masks(next)) == rest
    ensures Text(Masks(Secret(member, gap, body, closed, next))) == member + (MASKED_VALUE + rest)
  {
    MaskedText(member, rest);
  }

  lemma MaskedText(member: Bytes, rest: Bytes)
    ensures member + (MASKED_VALUE + rest) == member + (":\"" + ("***" + (Quote(true) + rest)))
  {
    assert MASKED_VALUE + rest == ":\"" + ("***" + (Quote(true) + rest));
  }

  // ---- What decides a step lies in front of the next quote ----

  /** The bytes before the first quote, and whether there is one. */
  function Ahead(s: Bytes): (Bytes, bool) {
    if s == [] then ([], false)
    else if s[0] == '"' then ([], true)
    else ([s[0]] + Ahead(s[1..]).0, Ahead(s[1..]).1)
  }

  lemma {:induction false} AheadSplits(s: Bytes)
    ensures Ahead(s).0 <= s && '"' !in Ahead(s).0
    ensures Ahead(s).1 ==> Ahead(s).0 + ['"'] <= s
    ensures !Ahead(s).1 ==> Ahead(s).0 == s
  {
    if s != [] && s[0] != '"' { AheadSplits(s[1..]); }
  }

  lemma {:induction false} AheadOf(a: Bytes, rest: Bytes)
    requires '"' !in a
    ensures Ahead(a + ['"'] + rest) == (a, true)
  {
    if a == [] {
      assert a + ['"'] + rest == ['"'] + rest;
    } else {
      assert (a + ['"'] + rest)[1..] == a[1..] + ['"'] + rest;
      AheadOf(a[1..], rest);
      assert a == [a[0]] + a[1..];
    }
  }

  lemma {:induction false} AheadAgrees(t: Scan, u: Scan)
    requires SameShape(t, u) && Named(t)
    ensures Ahead(Text(t)) == Ahead(Text(u))
  {
    match t
    case Copy(c, next) =>
      AheadAgrees(next, u.next);
      assert Text(t)[1..] == Text(next) && Text(u)[1..] == Text(u.next);
    case Done =>
    case Bare(name, next) =>
    case Secret(name, _, _, _, next) =>
  }

  /** The names in a scan are the two member names. */
  predicate Named(t: Scan) {
    match t
    case Done => true
    case Copy(_, next) => Named(next)
    case Bare(name, next) => (name == KEY_MEMBER || name == SIGN_MEMBER) && Named(next)
    case Secret(name, _, _, _, next) => (name == KEY_MEMBER || name == SIGN_MEMBER) && Named(next)
  }

  lemma {:induction false} ScanNamed(s: Bytes)
    ensures Named(ScanOf(s))
    decreases |s|, 0
  {
    if s != [] {
      var member := MemberAt(s);
      if member == [] { ScanNamed(s[1..]); } else { ScanTailNamed(member, s[|member|..]); }
    }
  }

  lemma {:induction false} ScanTailNamed(member: Bytes, tail: Bytes)
    requires member == KEY_MEMBER || member == SIGN_MEMBER
    ensures Named(ScanTail(member, tail))
    decreases |tail|, 1
  {
    match OpenValue(tail)
    case None => ScanNamed(tail);
    case Some(start) =>
      var value := tail[start..];
      match StringEnd(value)
      case None => assert Named(Done);
      case Some(end) => ScanNamed(value[end + 1..]);
  }

  /** A member name starts at a quote whose next quote closes it. */
  lemma MemberAhead(s: Bytes, inner: Bytes)
    requires s != [] && s[0] == '"' && '"' !in inner
    ensures ['"'] + inner + ['"'] <= s <==> Ahead(s[1..]) == (inner, true)
  {
    AheadSplits(s[1..]);
    if Ahead(s[1..]) == (inner, true) {
      assert s == ['"'] + s[1..];
    }
    var member := ['"'] + inner + ['"'];
    if member <= s {
      var rest := s[|member|..];
      assert s == member + rest;
      assert s[1..] == inner + ['"'] + rest;
      AheadOf(inner, rest);
    }
  }

  lemma MemberAtAgrees(s: Bytes, r: Bytes)
    requires s != [] && r != [] && s[0] == r[0] && Ahead(s[1..]) == Ahead(r[1..])
    ensures MemberAt(s) == MemberAt(r)
  {
    if s[0] == '"' {
      assert KEY_MEMBER == ['"'] + "key" + ['"'] && SIGN_MEMBER == ['"'] + "sign" + ['"'];
      MemberAhead(s, "key");
      MemberAhead(r, "key");
      MemberAhead(s, "sign");
      MemberAhead(r, "sign");
    }
  }

  // ---- Gaps ----

  lemma SpaceLengthCut(s: Bytes, i: nat)
    requires SpaceLength(s) <= i <= |s| && i > 0 && (SpaceLength(s) == 0 ==> IsPrintable(s[0]))
    ensures SpaceLength(s[..i]) == SpaceLength(s)
  {
  }

  lemma SpaceLengthExtends(s: Bytes, value: Bytes)
    requires s != [] && (SpaceLength(s) == 0 ==> IsPrintable(s[0]))
    ensures SpaceLength(s + value) == SpaceLength(s)
  {
  }

  lemma SpaceBytes(s: Bytes)
    ensures forall i :: 0 <= i < SpaceLength(s) ==> !IsPrintable(s[i])
  {
  }

  lemma DropOfCut(s: Bytes, n: nat, k: nat)
    requires n <= k <= |s|
    ensures s[..k][n..] == s[n..][..k - n]
  {
  }

  lemma DropOfSum(s: Bytes, n: nat, value: Bytes)
    requires n <= |s|
    ensures (s + value)[n..] == s[n..] + value
  {
  }

  /** What opens a value is the text up to and including the quote. */
  lemma {:induction false} OpenCut(s: Bytes, colonSeen: bool)
    requires OpenFrom(s, colonSeen).Some?
    ensures OpenFrom(s[..OpenFrom(s, colonSeen).value], colonSeen) == OpenFrom(s, colonSeen)
  {
    var k := OpenFrom(s, colonSeen).value;
    var n := SpaceLength(s);
    SpaceLengthCut(s, k);
    if n > 0 {
      OpenCut(s[n..], colonSeen);
      DropOfCut(s, n, k);
    } else if !colonSeen {
      OpenCut(s[1..], true);
      DropOfCut(s, 1, k);
    }
  }

  lemma {:induction false} OpenExtends(s: Bytes, colonSeen: bool, value: Bytes)
    requires OpenFrom(s, colonSeen).Some?
    ensures OpenFrom(s + value, colonSeen) == OpenFrom(s, colonSeen)
  {
    var n := SpaceLength(s);
    SpaceLengthExtends(s, value);
    if n > 0 {
      OpenExtends(s[n..], colonSeen, value);
      DropOfSum(s, n, value);
    } else if !colonSeen {
      OpenExtends(s[1..], true, value);
      DropOfSum(s, 1, value);
    }
  }

  /** In front of the quote there are only whitespace and the colon. */
  predicate IsGapByte(c: Byte) { c == ':' || !IsPrintable(c) }

  lemma {:induction false} OpenBytes(s: Bytes, colonSeen: bool)
    requires OpenFrom(s, colonSeen).Some?
    ensures var k := OpenFrom(s, colonSeen).value;
            s[k - 1] == '"' && forall i :: 0 <= i < k - 1 ==> IsGapByte(s[i])
  {
    var n := SpaceLength(s);
    SpaceBytes(s);
    if n > 0 {
      OpenBytes(s[n..], colonSeen);
      BytesBehind(s, n, OpenFrom(s[n..], colonSeen).value);
    } else if !colonSeen {
      OpenBytes(s[1..], true);
      BytesBehind(s, 1, OpenFrom(s[1..], true).value);
    }
  }

  lemma BytesBehind(s: Bytes, n: nat, k: nat)
    requires n <= |s| && 1 <= k <= |s[n..]|
    requires forall i :: 0 <= i < n ==> IsGapByte(s[i])
    requires s[n..][k - 1] == '"' && forall i :: 0 <= i < k - 1 ==> IsGapByte(s[n..][i])
    ensures s[k + n - 1] == '"' && forall i :: 0 <= i < k + n - 1 ==> IsGapByte(s[i])
  {
    var rest := s[n..];
    forall i | n <= i < k + n - 1 ensures IsGapByte(s[i]) {
      assert rest[i - n] == s[i];
    }
  }

  /** A gap opens whatever follows it. */
  lemma GapExtends(gap: Bytes, value: Bytes)
    requires IsGap(gap)
    ensures OpenValue(gap + value) == Some(|gap|)
  {
    OpenExtends(gap, false, value);
  }

  /** The text in front of an opened value is a gap. */
  lemma OpenedIsGap(s: Bytes)
    requires OpenValue(s).Some?
    ensures IsGap(s[..OpenValue(s).value])
  {
    OpenCut(s, false);
  }

  /** Its only quote is its last byte. */
  lemma OpenedGap(s: Bytes) returns (front: Bytes, rest: Bytes)
    requires OpenValue(s).Some?
    ensures s == front + ['"'] + rest && |front| + 1 == OpenValue(s).value
    ensures '"' !in front && IsGap(front + ['"'])
  {
    var k := OpenValue(s).value;
    front, rest := s[..k - 1], s[k..];
    OpenedIsGap(s);
    OpenBytes(s, false);
    LastByte(s, k);
    assert forall i :: 0 <= i < |front| ==> IsGapByte(front[i]);
  }

  lemma LastByte(s: Bytes, k: nat)
    requires 1 <= k <= |s| && s[k - 1] == '"'
    ensures s[..k] == s[..k - 1] + ['"'] && s == s[..k - 1] + ['"'] + s[k..]
  {
  }

  lemma OpensAhead(s: Bytes)
    requires OpenValue(s).Some?
    ensures Ahead(s).1 && IsGap(Ahead(s).0 + ['"'])
  {
    var front, rest := OpenedGap(s);
    AheadOf(front, rest);
  }

  lemma AheadOpens(s: Bytes)
    requires Ahead(s).1 && IsGap(Ahead(s).0 + ['"'])
    ensures OpenValue(s).Some?
  {
    AheadSplits(s);
    var gap := Ahead(s).0 + ['"'];
    GapExtends(gap, s[|gap|..]);
    assert s == gap + s[|gap|..];
  }

  /** Whether a value opens is decided by the text up to the next quote. */
  lemma OpenByAhead(s: Bytes)
    ensures OpenValue(s).Some? <==> Ahead(s).1 && IsGap(Ahead(s).0 + ['"'])
  {
    if OpenValue(s).Some? { OpensAhead(s); }
    if Ahead(s).1 && IsGap(Ahead(s).0 + ['"']) { AheadOpens(s); }
  }

  lemma {:induction false} BodyEnds(body: Bytes, rest: Bytes)
    requires StringEnd(body + ['"']) == Some(|body|)
    ensures StringEnd(body + (['"'] + rest)) == Some(|body|)
  {
    if body == [] {
      assert body + (['"'] + rest) == ['"'] + rest;
    } else {
      var skip := if body[0] == '\\' then 2 else 1;
      assert (body + ['"'])[skip..] == body[skip..] + ['"'];
      assert (body + (['"'] + rest))[skip..] == body[skip..] + (['"'] + rest);
      BodyEnds(body[skip..], rest);
    }
  }

  // ---- Replacing the secrets ----

  lemma ScanAtMember(member: Bytes, tail: Bytes)
    requires member == KEY_MEMBER || member == SIGN_MEMBER
    ensures ScanOf(member + tail) == ScanTail(member, tail)
  {
    OneMemberAt(member + tail);
    assert member <= member + tail && (member + tail)[|member|..] == tail;
  }

  lemma ScanAtSecret(member: Bytes, gap: Bytes, value: Bytes)
    requires member == KEY_MEMBER || member == SIGN_MEMBER
    requires IsGap(gap)
    ensures ScanOf(member + (gap + value)) == ScanValue(member, gap, value)
  {
    ScanAtMember(member, gap + value);
    GapExtends(gap, value);
    assert (gap + value)[..|gap|] == gap && (gap + value)[|gap|..] == value;
  }

  lemma ScanAtBody(member: Bytes, gap: Bytes, body: Bytes, closed: bool, next: Scan)
    requires IsBody(body, closed, next) && ScanOf(Text(next)) == next
    ensures ScanValue(member, gap, body + (Quote(closed) + Text(next)))
         == Secret(member, gap, body, closed, next)
  {
    if closed {
      BodyEnds(body, Text(next));
      CutsBody(body, Text(next));
    } else {
      assert body + ([] + []) == body;
    }
  }

  lemma CutsBody(body: Bytes, rest: Bytes)
    ensures (body + (['"'] + rest))[..|body|] == body
    ensures (body + (['"'] + rest))[|body| + 1..] == rest
  {
  }

  /**
    Scanning a text whose secrets, and the spacing in front of them, were replaced finds exactly
    the replaced scan.
   */
  lemma {:induction false} ReplacedScan(s: Bytes, u: Scan)
    requires SameShape(ScanOf(s), u)
    ensures ScanOf(Text(u)) == u
    decreases |s|, 0
  {
    if s != [] {
      var member := MemberAt(s);
      if member == [] {
        ReplacedScan(s[1..], u.next);
        TextOfScan(s[1..]);
        ScanNamed(s[1..]);
        AheadAgrees(ScanOf(s[1..]), u.next);
        assert Text(u)[1..] == Text(u.next);
        MemberAtAgrees(s, Text(u));
      } else {
        ReplacedTail(member, s[|member|..], u);
      }
    }
  }

  lemma {:induction false} ReplacedTail(member: Bytes, tail: Bytes, u: Scan)
    requires member == KEY_MEMBER || member == SIGN_MEMBER
    requires SameShape(ScanTail(member, tail), u)
    ensures ScanOf(Text(u)) == u
    decreases |tail|, 2
  {
    match OpenValue(tail)
    case None =>
      ReplacedScan(tail, u.next);
      TextOfScan(tail);
      ScanNamed(tail);
      AheadAgrees(ScanOf(tail), u.next);
      OpenByAhead(tail);
      OpenByAhead(Text(u.next));
      ScanAtMember(member, Text(u.next));
    case Some(start) =>
      ReplacedValue(member, tail[..start], tail[start..], u);
  }

  lemma {:induction false} ReplacedValue(member: Bytes, gap: Bytes, value: Bytes, u: Scan)
    requires member == KEY_MEMBER || member == SIGN_MEMBER
    requires SameShape(ScanValue(member, gap, value), u)
    ensures ScanOf(Text(u)) == u
    decreases |value|, 1
  {
    if StringEnd(value).Some? {
      ReplacedScan(value[StringEnd(value).value + 1..], u.next);
    } else {
      assert u.next == Done;
    }
    ScanAtSecret(member, u.gap, u.body + (Quote(u.closed) + Text(u.next)));
    ScanAtBody(member, u.gap, u.body, u.closed, u.next);
  }

  lemma {:induction false} MasksSameShape(t: Scan)
    ensures SameShape(t, Masks(t))
  {
    match t
    case Done =>
    case Copy(_, next) => MasksSameShape(next);
    case Bare(_, next) => MasksSameShape(next);
    case Secret(_, _, _, _, next) =>
      MasksSameShape(next);
      MaskFits(Masks(next));
  }

  lemma MaskFits(next: Scan)
    ensures IsGap(":\"") && IsBody("***", true, next)
  {
    MaskOpens();
    MaskEnds();
    assert "***" + ['"'] == "***\"";
  }

  lemma MaskOpens()
    ensures IsGap(":\"")
  {
    var mask: Bytes := ":\"";
    assert mask[1..] == ['"'];
    assert OpenFrom(['"'], true) == Some(1);
  }

  lemma MaskEnds()
    ensures StringEnd("***\"") == Some(3)
  {
    assert "***\""[1..] == "**\"" && "**\""[1..] == "*\"" && "*\""[1..] == "\"";
    assert StringEnd("\"") == Some(0);
    assert StringEnd("*\"") == Some(1);
    assert StringEnd("**\"") == Some(2);
  }

  lemma {:induction false} SameShapeMasks(t: Scan, u: Scan)
    requires SameShape(t, u)
    ensures Masks(t) == Masks(u)
  {
    if !t.Done? { SameShapeMasks(t.next, u.next); }
  }

  /** The scan of redacted text is the scan of the original with every secret replaced. */
  lemma ScanOfRedacted(s: Bytes)
    ensures ScanOf(RedactJson(s)) == Masks(ScanOf(s))
  {
    RedactedIsMasked(s);
    MasksSameShape(ScanOf(s));
    ReplacedScan(s, Masks(ScanOf(s)));
  }

  /** Redacting twice is redacting once. */
  lemma RedactJsonIdempotent(s: Bytes)
    ensures RedactJson(RedactJson(s)) == RedactJson(s)
  {
    var t := ScanOf(s);
    ScanOfRedacted(s);
    RedactedIsMasked(s);
    RedactedIsMasked(RedactJson(s));
    MasksSameShape(t);
    SameShapeMasks(t, Masks(t));
  }

  /** Every replacement of the secrets leaves the output as it is. */
  lemma SecretsDoNotShow(s: Bytes, u: Scan)
    requires SameShape(ScanOf(s), u)
    ensures RedactJson(Text(u)) == RedactJson(s)
  {
    ReplacedScan(s, u);
    RedactedIsMasked(s);
    RedactedIsMasked(Text(u));
    SameShapeMasks(ScanOf(s), u);
  }

  lemma {:induction false} WellFormedScan(s: Bytes)
    ensures SameShape(ScanOf(s), ScanOf(s))
    decreases |s|, 0
  {
    if s != [] {
      var member := MemberAt(s);
      if member == [] { WellFormedScan(s[1..]); } else { WellFormedTail(member, s[|member|..]); }
    }
  }

  lemma {:induction false} WellFormedTail(member: Bytes, tail: Bytes)
    ensures SameShape(ScanTail(member, tail), ScanTail(member, tail))
    decreases |tail|, 2
  {
    match OpenValue(tail)
    case None => WellFormedScan(tail);
    case Some(start) =>
      OpenedIsGap(tail);
      WellFormedValue(member, tail[..start], tail[start..]);
  }

  lemma {:induction false} WellFormedValue(member: Bytes, gap: Bytes, value: Bytes)
    requires IsGap(gap)
    ensures SameShape(ScanValue(member, gap, value), ScanValue(member, gap, value))
    decreases |value|, 1
  {
    match StringEnd(value)
    case None =>
    case Some(end) =>
      WellFormedScan(value[end + 1..]);
      EndOfCut(value);
      BodyOfCut(value, end, ScanOf(value[end + 1..]));
  }

  lemma BodyOfCut(value: Bytes, end: nat, next: Scan)
    requires end <= |value| && StringEnd(value[..end] + ['"']) == Some(end)
    ensures IsBody(value[..end], true, next)
  {
  }

  lemma {:induction false} EndOfCut(value: Bytes)
    requires StringEnd(value).Some?
    ensures StringEnd(value[..StringEnd(value).value] + ['"']) == StringEnd(value)
  {
    var end := StringEnd(value).value;
    if end != 0 {
      var skip := if value[0] == '\\' then 2 else 1;
      EndOfCut(value[skip..]);
      DropOfBody(value, end, skip);
      EndStep(value[..end] + ['"'], skip, end);
    }
  }

  lemma DropOfBody(value: Bytes, end: nat, skip: nat)
    requires 0 < skip <= end <= |value|
    ensures (value[..end] + ['"'])[skip..] == value[skip..][..end - skip] + ['"']
    ensures (value[..end] + ['"'])[0] == value[0]
  {
  }

  lemma EndStep(s: Bytes, skip: nat, end: nat)
    requires s != [] && s[0] != '"' && skip == (if s[0] == '\\' then 2 else 1)
    requires skip <= end && skip <= |s| && StringEnd(s[skip..]) == Some(end - skip)
    ensures StringEnd(s) == Some(end)
  {
  }

  lemma {:induction false} EqualMasksSameShape(t: Scan, u: Scan)
    requires Masks(t) == Masks(u) && SameShape(u, u)
    ensures SameShape(t, u)
  {
    if !t.Done? { EqualMasksSameShape(t.next, u.next); }
  }

  /**
    The output shows the shape and nothing else: two texts are redacted to the same output exactly
    when they differ in the bodies of secrets and the spacing in front of them only.
   */
  lemma RedactJsonShowsShape(s: Bytes, r: Bytes)
    ensures RedactJson(s) == RedactJson(r) <==> SameShape(ScanOf(s), ScanOf(r))
  {
    if SameShape(ScanOf(s), ScanOf(r)) {
      SecretsDoNotShow(s, ScanOf(r));
      TextOfScan(r);
    }
    if RedactJson(s) == RedactJson(r) {
      ScanOfRedacted(s);
      ScanOfRedacted(r);
      WellFormedScan(r);
      EqualMasksSameShape(ScanOf(s), ScanOf(r));
    }
  }
}
