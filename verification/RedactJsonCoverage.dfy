/**
  When the JSON redactor masks every member.

  The source promises to mask the value of every `"key"` and `"sign"` member.  It masks string values
  only.  This module says for every text whether all members come out masked, by positions in the
  text: a member name counts unless it lies inside an earlier one that counts or inside its value.
 */
module JsonCoverage {
  import opened Wrappers
  import opened ByteStrings
  import opened JsonRedaction
  import opened JsonShape
  import opened SecretRedaction

  /** The text behind the member name at position `p`. */
  function Behind(s: Bytes, p: nat): Bytes
    requires p <= |s|
  {
    s[p..][|MemberAt(s[p..])|..]
  }

  /** Where the member at `p` ends: behind its string value, or behind the name if none opens. */
  function EndOf(s: Bytes, p: nat): (end: nat)
    requires p <= |s|
    ensures end <= |s|
  {
    match OpenValue(Behind(s, p))
    case None => p + |MemberAt(s[p..])|
    case Some(start) => |s| - |AfterString(Behind(s, p)[start..])|
  }

  /** The member name at `p` counts. */
  predicate IsMember(s: Bytes, p: nat)
    decreases p
  {
    && p < |s| && MemberAt(s[p..]) != []
    && forall q: nat :: q < p && IsMember(s, q) ==> EndOf(s, q) <= p
  }

  /** What stands behind every member name is good. */
  predicate EveryMember(s: Bytes, good: Bytes -> bool) {
    forall p: nat :: p < |s| && IsMember(s, p) ==> good(Behind(s, p))
  }

  /** Whitespace, a colon, whitespace and a quote: a string value. */
  predicate OpensString(tail: Bytes) { OpenValue(tail).Some? }

  predicate IsMasked(tail: Bytes) { MASKED_VALUE <= tail }

  // ---- Reading on behind a member ----

  /** No member that counts reaches beyond `a`. */
  predicate IsFresh(s: Bytes, a: nat) {
    a <= |s| && forall q: nat :: q < a && IsMember(s, q) ==> EndOf(s, q) <= a
  }

  lemma SuffixEnd(s: Bytes, a: nat, p: nat)
    requires a <= p <= |s|
    ensures s[a..][p - a..] == s[p..] && Behind(s[a..], p - a) == Behind(s, p)
    ensures EndOf(s, p) == EndOf(s[a..], p - a) + a
  {
    assert s[a..][p - a..] == s[p..];
  }

  lemma {:induction false} SuffixMember(s: Bytes, a: nat, p: nat)
    requires IsFresh(s, a) && a <= p <= |s|
    ensures IsMember(s, p) <==> IsMember(s[a..], p - a)
    decreases p
  {
    var t := s[a..];
    SuffixEnd(s, a, p);
    forall q: nat | a <= q < p
      ensures IsMember(s, q) <==> IsMember(t, q - a)
      ensures EndOf(s, q) == EndOf(t, q - a) + a
    {
      SuffixMember(s, a, q);
      SuffixEnd(s, a, q);
    }
    if IsMember(s, p) {
      forall q: nat | q < p - a && IsMember(t, q) ensures EndOf(t, q) <= p - a {
        assert IsMember(s, q + a);
      }
    }
    if IsMember(t, p - a) {
      forall q: nat | q < p && IsMember(s, q) ensures EndOf(s, q) <= p {
        if q >= a { assert IsMember(t, q - a); }
      }
    }
  }

  lemma EverySplits(s: Bytes, a: nat, good: Bytes -> bool)
    requires IsFresh(s, a)
    ensures EveryMember(s, good) <==>
              (forall p: nat :: p < a && IsMember(s, p) ==> good(Behind(s, p))) && EveryMember(s[a..], good)
  {
    var t := s[a..];
    forall p: nat | a <= p < |s|
      ensures IsMember(s, p) <==> IsMember(t, p - a)
      ensures Behind(s, p) == Behind(t, p - a)
    {
      SuffixMember(s, a, p);
      SuffixEnd(s, a, p);
    }
    if EveryMember(s, good) {
      forall p: nat | p < |t| && IsMember(t, p) ensures good(Behind(t, p)) {
        assert IsMember(s, p + a);
      }
    }
    if (forall p: nat :: p < a && IsMember(s, p) ==> good(Behind(s, p))) && EveryMember(t, good) {
      forall p: nat | p < |s| && IsMember(s, p) ensures good(Behind(s, p)) {
        if p >= a { assert IsMember(t, p - a); }
      }
    }
  }

  lemma NoMemberInFront(s: Bytes, good: Bytes -> bool)
    requires s != [] && MemberAt(s) == []
    ensures EveryMember(s, good) <==> EveryMember(s[1..], good)
  {
    assert s[0..] == s && !IsMember(s, 0);
    EverySplits(s, 1, good);
  }

  lemma MemberInFront(s: Bytes, good: Bytes -> bool)
    requires s != [] && MemberAt(s) != []
    ensures var a := EndOf(s, 0);
            EveryMember(s, good) <==> good(s[|MemberAt(s)|..]) && EveryMember(s[a..], good)
  {
    var a := EndOf(s, 0);
    assert s[0..] == s && IsMember(s, 0) && Behind(s, 0) == s[|MemberAt(s)|..];
    FrontMemberFresh(s);
    EverySplits(s, a, good);
    assert 0 < a by { FrontMemberEnds(s); }
  }

  lemma FrontMemberEnds(s: Bytes)
    requires s != [] && MemberAt(s) != []
    ensures EndOf(s, 0) >= |MemberAt(s)| > 0
  {
    assert s[0..] == s;
  }

  lemma FrontMemberFresh(s: Bytes)
    requires s != [] && MemberAt(s) != []
    ensures IsFresh(s, EndOf(s, 0))
  {
    assert s[0..] == s && IsMember(s, 0);
  }

  /** What remains behind a member and its value. */
  function Rest(tail: Bytes): (rest: Bytes)
    ensures |rest| <= |tail|
  {
    match OpenValue(tail)
    case None => tail
    case Some(start) => AfterString(tail[start..])
  }

  lemma RestIsSuffix(tail: Bytes)
    ensures Rest(tail) == tail[|tail| - |Rest(tail)|..]
  {
    if OpenValue(tail).Some? {
      var value := tail[OpenValue(tail).value..];
      AfterStringIsSuffix(value);
      SuffixOfSuffix(tail, value, AfterString(value));
    }
  }

  lemma FrontMemberRest(s: Bytes)
    requires s != [] && MemberAt(s) != []
    ensures s[EndOf(s, 0)..] == Rest(s[|MemberAt(s)|..])
  {
    var tail := s[|MemberAt(s)|..];
    assert s[0..] == s && Behind(s, 0) == tail;
    assert EndOf(s, 0) == |s| - |Rest(tail)|;
    RestIsSuffix(tail);
    SuffixOfSuffix(s, tail, Rest(tail));
  }

  lemma AfterStringIsSuffix(value: Bytes)
    ensures AfterString(value) == value[|value| - |AfterString(value)|..]
  {
  }

  lemma SuffixOfSuffix(s: Bytes, tail: Bytes, rest: Bytes)
    requires |rest| <= |tail| <= |s|
    requires tail == s[|s| - |tail|..] && rest == tail[|tail| - |rest|..]
    ensures s[|s| - |rest|..] == rest
  {
  }

  // ---- Both conditions, along the scan ----

  /** The scan found a string value behind every member. */
  predicate NoBare(t: Scan) {
    match t
    case Done => true
    case Copy(_, next) => NoBare(next)
    case Bare(_, _) => false
    case Secret(_, _, _, _, next) => NoBare(next)
  }

  lemma {:induction false} MasksNoBare(t: Scan)
    ensures NoBare(Masks(t)) <==> NoBare(t)
  {
    match t
    case Done =>
    case Copy(_, next) => MasksNoBare(next);
    case Bare(_, _) =>
    case Secret(_, _, _, _, next) => MasksNoBare(next);
  }

  lemma ValueScan(member: Bytes, gap: Bytes, value: Bytes)
    ensures NoBare(ScanValue(member, gap, value)) <==> NoBare(ScanOf(AfterString(value)))
  {
    if StringEnd(value).None? {
      assert ScanOf([]) == Done;
      assert ScanValue(member, gap, value) == Secret(member, gap, value, false, Done);
      assert NoBare(Done);
    }
  }

  lemma SecretScan(s: Bytes)
    requires s != [] && MemberAt(s) != [] && OpenValue(s[|MemberAt(s)|..]).Some?
    ensures NoBare(ScanOf(s)) <==> NoBare(ScanOf(Rest(s[|MemberAt(s)|..])))
  {
    var tail := s[|MemberAt(s)|..];
    var start := OpenValue(tail).value;
    assert ScanOf(s) == ScanTail(MemberAt(s), tail) == ScanValue(MemberAt(s), tail[..start], tail[start..]);
    ValueScan(MemberAt(s), tail[..start], tail[start..]);
  }

  lemma {:induction false} OpensIffNoBare(s: Bytes)
    ensures EveryMember(s, OpensString) <==> NoBare(ScanOf(s))
    decreases |s|
  {
    if s != [] {
      if MemberAt(s) == [] {
        NoMemberInFront(s, OpensString);
        OpensIffNoBare(s[1..]);
      } else {
        var tail := s[|MemberAt(s)|..];
        MemberInFront(s, OpensString);
        FrontMemberRest(s);
        if OpenValue(tail).Some? {
          SecretScan(s);
          OpensIffNoBare(Rest(tail));
        }
      }
    }
  }

  lemma MaskedOpens(tail: Bytes)
    requires IsMasked(tail)
    ensures OpenValue(tail).Some?
  {
    MaskedValueStays(tail[6..]);
    assert tail == MASKED_VALUE + tail[6..];
  }

  lemma StableMemberTail(s: Bytes)
    requires s != [] && Stable(s) && MemberAt(s) != [] && OpenValue(s[|MemberAt(s)|..]).Some?
    ensures var tail := s[|MemberAt(s)|..];
            IsMasked(tail) && Stable(Rest(tail))
  {
    var member, tail := MemberAt(s), s[|MemberAt(s)|..];
    assert member + tail == s;
    StableTail(member, tail);
    MaskedTail(tail);
    MaskedValueStays(tail[6..]);
  }

  /** In redacted text a value that opens is the mask. */
  lemma {:induction false} MaskedIffNoBare(s: Bytes)
    requires Stable(s)
    ensures EveryMember(s, IsMasked) <==> NoBare(ScanOf(s))
    decreases |s|
  {
    if s != [] {
      if MemberAt(s) == [] {
        StableCopy(s);
        NoMemberInFront(s, IsMasked);
        MaskedIffNoBare(s[1..]);
      } else {
        var tail := s[|MemberAt(s)|..];
        MemberInFront(s, IsMasked);
        FrontMemberRest(s);
        if OpenValue(tail).Some? {
          StableMemberTail(s);
          SecretScan(s);
          MaskedIffNoBare(Rest(tail));
        } else if IsMasked(tail) {
          MaskedOpens(tail);
        }
      }
    }
  }

  /**
    Every member of the output is masked exactly when whitespace, a colon, whitespace and a quote
    follow every member name of the input.
   */
  lemma EveryMemberMaskedIff(s: Bytes)
    ensures EveryMember(RedactJson(s), IsMasked) <==> EveryMember(s, OpensString)
  {
    RedactJsonIdempotent(s);
    ScanOfRedacted(s);
    MasksNoBare(ScanOf(s));
    OpensIffNoBare(s);
    MaskedIffNoBare(RedactJson(s));
  }

  /** A value that is not a string is printed as it is: `"key":1` and whatever follows without a quote. */
  lemma NumberIsShown(member: Bytes, digit: Byte, rest: Bytes)
    requires member == KEY_MEMBER || member == SIGN_MEMBER
    requires IsDigit(digit) && '"' !in rest
    ensures RedactJson(member + ([':', digit] + rest)) == member + ([':', digit] + rest)
    ensures !EveryMember(member + ([':', digit] + rest), OpensString)
  {
    var tail := [':', digit] + rest;
    var s := member + tail;
    NumberDoesNotOpen(digit, rest);
    PeelQuoteFree(tail, []);
    assert tail + [] == tail && tail + RedactJson([]) == tail;
    OneMemberAt(s);
    assert member <= s && s[|member|..] == tail;
    MemberInFront(s, OpensString);
  }

  lemma NumberDoesNotOpen(digit: Byte, rest: Bytes)
    requires IsDigit(digit)
    ensures OpenValue([':', digit] + rest).None?
  {
    var tail := [':', digit] + rest;
    assert tail[1..][0] == digit;
    assert OpenFrom(tail[1..], true).None?;
  }
}
