/** Hidden form inputs and their entities. */
module HtmlForms {
  import opened Wrappers
  import opened ByteStrings
  import opened SortedMaps
  import opened ParamMaps

  const AMP: Bytes := "&amp;"
  const LT: Bytes := "&lt;"
  const GT: Bytes := "&gt;"
  const QUOT: Bytes := "&quot;"
  const APOS: Bytes := "&#39;"

  function EscapeByte(c: Byte): Bytes {
    match c
    case '&' => AMP
    case '<' => LT
    case '>' => GT
    case '"' => QUOT
    case '\'' => APOS
    case _ => [c]
  }

  function HtmlEscape(s: Bytes): Bytes {
    if s == [] then [] else EscapeByte(s[0]) + HtmlEscape(s[1..])
  }

  lemma {:induction false} EscapeSnoc(s: Bytes, c: Byte)
    ensures HtmlEscape(s + [c]) == HtmlEscape(s) + EscapeByte(c)
  {
    if s == [] {
      assert s + [c] == [c];
    } else {
      assert (s + [c])[1..] == s[1..] + [c];
      EscapeSnoc(s[1..], c);
    }
  }

  /** The loop of `html_escape`. */
  method PushEscaped(s: Bytes) returns (out: Bytes)
    ensures out == HtmlEscape(s)
  {
    out := [];
    for i := 0 to |s|
      invariant out == HtmlEscape(s[..i])
    {
      EscapeSnoc(s[..i], s[i]);
      assert s[..i + 1] == s[..i] + [s[i]];
      match s[i]
      case '&' => out := out + AMP;
      case '<' => out := out + LT;
      case '>' => out := out + GT;
      case '"' => out := out + QUOT;
      case '\'' => out := out + APOS;
      case _ => out := out + [s[i]];
    }
    assert s[..|s|] == s;
  }

  predicate IsMarkup(c: Byte) { c == '<' || c == '>' || c == '"' || c == '\'' }

  /** Escaped text can neither close an attribute nor open or close a tag. */
  lemma {:induction false} EscapedHasNoMarkup(s: Bytes)
    ensures forall i :: 0 <= i < |HtmlEscape(s)| ==> !IsMarkup(HtmlEscape(s)[i])
  {
    if s != [] {
      EscapedHasNoMarkup(s[1..]);
      var head := EscapeByte(s[0]);
      assert forall i :: 0 <= i < |head| ==> !IsMarkup(head[i]);
    }
  }

  // ---- Reading back ----

  /** Length and meaning of the character reference in front of `s`, if it is one of the five. */
  function ReadEntity(s: Bytes): Option<(nat, Byte)> {
    if AMP <= s then Some((5, '&'))
    else if LT <= s then Some((4, '<'))
    else if GT <= s then Some((4, '>'))
    else if QUOT <= s then Some((6, '"'))
    else if APOS <= s then Some((5, '\''))
    else None
  }

  /** Replaces the five character references by what they stand for. */
  function Unescape(s: Bytes): Bytes {
    if s == [] then []
    else
      match ReadEntity(s)
      case Some((n, c)) => [c] + Unescape(s[n..])
      case None => [s[0]] + Unescape(s[1..])
  }

  lemma EntityInFront(c: Byte, rest: Bytes)
    requires c in {'&', '<', '>', '"', '\''}
    ensures ReadEntity(EscapeByte(c) + rest) == Some((|EscapeByte(c)|, c))
  {
    var s := EscapeByte(c) + rest;
    assert EscapeByte(c) <= s;
    assert s[1] == EscapeByte(c)[1] && s[2] == EscapeByte(c)[2];
  }

  lemma NoEntityInFront(s: Bytes)
    requires s != [] && s[0] != '&'
    ensures ReadEntity(s).None?
  {
  }

  lemma UnescapeStep(c: Byte, rest: Bytes)
    ensures Unescape(EscapeByte(c) + rest) == [c] + Unescape(rest)
  {
    var head := EscapeByte(c);
    var s := head + rest;
    assert s[|head|..] == rest;
    if c in {'&', '<', '>', '"', '\''} {
      EntityInFront(c, rest);
    } else {
      assert head == [c];
      NoEntityInFront(s);
    }
  }

  lemma {:induction false} UnescapeUndoesEscape(s: Bytes)
    ensures Unescape(HtmlEscape(s)) == s
  {
    if s != [] {
      UnescapeStep(s[0], HtmlEscape(s[1..]));
      UnescapeUndoesEscape(s[1..]);
    }
  }

  // ---- Inputs ----

  const NAME_OPENING: Bytes := "<input type=\"hidden\" name=\""
  const VALUE_OPENING: Bytes := " value=\""

  function Input(p: Pair): Bytes {
    NAME_OPENING + HtmlEscape(p.0) + ['"'] + VALUE_OPENING + HtmlEscape(p.1) + ['"', '>']
  }

  function HiddenInputs(ps: seq<Pair>): Bytes {
    if ps == [] then [] else Input(ps[0]) + HiddenInputs(ps[1..])
  }

  lemma {:induction false} InputsSnoc(ps: seq<Pair>, p: Pair)
    ensures HiddenInputs(ps + [p]) == HiddenInputs(ps) + Input(p)
  {
    if ps == [] {
      assert ps + [p] == [p];
      assert HiddenInputs([p]) == Input(p) + [];
    } else {
      assert (ps + [p])[1..] == ps[1..] + [p];
      InputsSnoc(ps[1..], p);
      SumAssociates(Input(ps[0]), HiddenInputs(ps[1..]), Input(p));
    }
  }

  method FormatInput(p: Pair) returns (input: Bytes)
    ensures input == Input(p)
  {
    var key := PushEscaped(p.0);
    var value := PushEscaped(p.1);
    input := NAME_OPENING + key + ['"'] + VALUE_OPENING + value + ['"', '>'];
  }

  /** The loop of `hidden_inputs`. */
  method PushInputs(ps: seq<Pair>) returns (fields: Bytes)
    ensures fields == HiddenInputs(ps)
  {
    fields := [];
    for i := 0 to |ps|
      invariant fields == HiddenInputs(ps[..i])
    {
      InputsSnoc(ps[..i], ps[i]);
      assert ps[..i + 1] == ps[..i] + [ps[i]];
      var input := FormatInput(ps[i]);
      fields := fields + input;
    }
    assert ps[..|ps|] == ps;
  }

  method RenderInputs(params: Params) returns (fields: Bytes)
    ensures fields == HiddenInputs(Entries(params.inner))
  {
    fields := PushInputs(Entries(params.inner));
  }

  /**
    A double-quoted attribute after the given opening: everything up to the next quote (section
    13.2.5.36 of the HTML Standard), with its character references resolved, and what follows.
   */
  function ReadAttribute(s: Bytes, opening: Bytes): (r: Option<(Bytes, Bytes)>)
    ensures r.Some? ==> |r.value.1| < |s|
  {
    if !(opening <= s) || '"' !in s[|opening|..] then None
    else
      SplitOnceShrinks(s[|opening|..], '"');
      var (raw, rest) := SplitOnce(s[|opening|..], '"');
      Some((Unescape(raw), rest))
  }

  lemma {:induction false} SplitOnceShrinks(s: Bytes, sep: Byte)
    requires sep in s
    ensures |SplitOnce(s, sep).1| < |s|
  {
    if s[0] != sep { SplitOnceShrinks(s[1..], sep); }
  }

  function ReadInput(s: Bytes): (r: Option<(Pair, Bytes)>)
    ensures r.Some? ==> |r.value.1| < |s|
  {
    match ReadAttribute(s, NAME_OPENING)
    case None => None
    case Some((key, rest)) =>
      match ReadAttribute(rest, VALUE_OPENING)
      case None => None
      case Some((value, tail)) =>
        if tail != [] && tail[0] == '>' then Some(((key, value), tail[1..])) else None
  }

  /** All inputs of a form body, in document order; `None` when there is anything else in it. */
  function ReadInputs(s: Bytes): Option<seq<Pair>>
    decreases |s|
  {
    if s == [] then Some([])
    else
      match ReadInput(s)
      case None => None
      case Some((p, rest)) =>
        match ReadInputs(rest)
        case None => None
        case Some(ps) => Some([p] + ps)
  }

  lemma AttributeReads(opening: Bytes, text: Bytes, rest: Bytes)
    ensures ReadAttribute(opening + HtmlEscape(text) + ['"'] + rest, opening) == Some((text, rest))
  {
    var raw := HtmlEscape(text);
    var s := opening + raw + ['"'] + rest;
    assert s[|opening|..] == raw + ['"'] + rest;
    assert (raw + ['"'] + rest)[|raw|] == '"';
    EscapedHasNoMarkup(text);
    SplitOnceAt(raw, rest, '"');
    UnescapeUndoesEscape(text);
  }

  lemma InputSplits(key: Bytes, value: Bytes, rest: Bytes)
    ensures NAME_OPENING + key + ['"'] + VALUE_OPENING + value + ['"', '>'] + rest
         == NAME_OPENING + key + ['"'] + (VALUE_OPENING + value + ['"'] + (['>'] + rest))
  {
    assert ['"', '>'] == ['"'] + ['>'];
  }

  lemma InputReads(p: Pair, rest: Bytes)
    ensures ReadInput(Input(p) + rest) == Some((p, rest))
  {
    var tail := ['>'] + rest;
    var middle := VALUE_OPENING + HtmlEscape(p.1) + ['"'] + tail;
    InputSplits(HtmlEscape(p.0), HtmlEscape(p.1), rest);
    AttributeReads(NAME_OPENING, p.0, middle);
    AttributeReads(VALUE_OPENING, p.1, tail);
    assert tail[1..] == rest;
  }

  lemma InputIsText(p: Pair, rest: Bytes)
    ensures Input(p) + rest != []
  {
    assert |Input(p)| >= |NAME_OPENING|;
  }

  lemma InputsReadOn(p: Pair, rest: Bytes)
    requires ReadInputs(rest).Some?
    ensures ReadInputs(Input(p) + rest) == Some([p] + ReadInputs(rest).value)
  {
    InputReads(p, rest);
    InputIsText(p, rest);
  }

  /** A browser recovers the ordered list of names and values, whatever characters they hold. */
  lemma {:induction false} InputsRoundTrip(ps: seq<Pair>)
    ensures ReadInputs(HiddenInputs(ps)) == Some(ps)
  {
    if ps != [] {
      InputsRoundTrip(ps[1..]);
      InputsReadOn(ps[0], HiddenInputs(ps[1..]));
      assert [ps[0]] + ps[1..] == ps;
    }
  }

  /** Two parameter maps are rendered alike only if they are equal. */
  lemma FormDeterminesFields(m: Fields, n: Fields)
    requires HiddenInputs(Entries(m)) == HiddenInputs(Entries(n))
    ensures m == n
  {
    InputsRoundTrip(Entries(m));
    InputsRoundTrip(Entries(n));
    EntriesList(m);
    EntriesList(n);
    ListsUnique(Entries(m), m, n);
  }

  // ---- The texts themselves ----

  /** Each of the five characters becomes its entity, wherever it stands, and every other stays as it is. */
  lemma EntityTexts(front: Bytes, c: Byte, rest: Bytes)
    ensures c == '&' ==> HtmlEscape(front + ([c] + rest)) == HtmlEscape(front) + ("&amp;" + HtmlEscape(rest))
    ensures c == '<' ==> HtmlEscape(front + ([c] + rest)) == HtmlEscape(front) + ("&lt;" + HtmlEscape(rest))
    ensures c == '>' ==> HtmlEscape(front + ([c] + rest)) == HtmlEscape(front) + ("&gt;" + HtmlEscape(rest))
    ensures c == '"' ==> HtmlEscape(front + ([c] + rest)) == HtmlEscape(front) + ("&quot;" + HtmlEscape(rest))
    ensures c == '\'' ==> HtmlEscape(front + ([c] + rest)) == HtmlEscape(front) + ("&#39;" + HtmlEscape(rest))
    ensures c !in {'&', '<', '>', '"', '\''} ==>
              HtmlEscape(front + ([c] + rest)) == HtmlEscape(front) + ([c] + HtmlEscape(rest))
  {
    EscapeSum(front, [c] + rest);
    assert ([c] + rest)[1..] == rest;
  }

  lemma {:induction false} EscapeSum(a: Bytes, b: Bytes)
    ensures HtmlEscape(a + b) == HtmlEscape(a) + HtmlEscape(b)
  {
    if a == [] {
      assert a + b == b;
    } else {
      SumHead(a, b);
      EscapeSum(a[1..], b);
    }
  }

  /** One input: name and value escaped between double quotes. */
  lemma InputText(p: Pair)
    ensures Input(p) == "<input type=\"hidden\" name=\"" + HtmlEscape(p.0) + "\" value=\"" + HtmlEscape(p.1) + "\">"
  {
    var name, value := HtmlEscape(p.0), HtmlEscape(p.1);
    InputRegroups(NAME_OPENING, name, ['"'], VALUE_OPENING, value, "\">");
    assert "\" value=\"" == ['"'] + VALUE_OPENING;
  }

  lemma InputRegroups(a: Bytes, b: Bytes, c: Bytes, d: Bytes, e: Bytes, f: Bytes)
    ensures a + b + c + d + e + f == a + b + (c + d) + e + f
  {
  }
}
