/**
 * The field pattern of `read_csv` (dataframe.py:74-86) and the loop that
 * turns its matches into values (dataframe.py:95-100), written as a
 * left-to-right scanner instead of a regular-expression engine.
 *
 * The pattern is `\s* (?: "((?:[^"]|"")*)" | ([^",]*) ) \s* (?:,|$)`, and
 * `finditer` searches it repeatedly. Worked out case by case, a match that
 * starts where the scan stands exists as follows:
 *  - after the leading whitespace the line ends: an (empty) unquoted field;
 *  - a double quote follows: the body runs over ordinary characters and
 *    doubled quotes up to a single quote; only whitespace may follow it
 *    before a comma or the end of the line, or there is no match here;
 *  - anything else: the unquoted run stops at the first quote or comma; a
 *    quote there means no match here.
 * Where no match starts, the search moves on by one character. The only
 * empty match is the one at the very end of the line, which Python 3.7 and
 * later report after a match that reached the end; so every line ends with
 * one more, empty, field.
 */
module Tokenizer {
  import opened Wrappers
  import opened Values
  import opened Seqs

  /** A match found where the scan stands: how far it reaches and the text of its group. */
  datatype Match = Match(end: nat, text: string)

  /**
   * Just after an opening quote: the index of the closing quote, passing over
   * ordinary characters and doubled quotes; None when the line ends first.
   */
  function ClosingQuote(s: string): (r: Option<nat>)
    ensures r.Some? ==> r.value < |s| && s[r.value] == '"'
    ensures r.Some? ==> r.value + 1 == |s| || s[r.value + 1] != '"'
  {
    if s == [] then None
    else if s[0] != '"' then Shift(ClosingQuote(s[1..]), 1)
    else if |s| >= 2 && s[1] == '"' then Shift(ClosingQuote(s[2..]), 2)
    else Some(0)
  }

  function Shift(r: Option<nat>, d: nat): (r': Option<nat>)
    ensures r'.Some? <==> r.Some?
    ensures r.Some? ==> r'.value == r.value + d
  {
    match r
    case None => None
    case Some(k) => Some(k + d)
  }

  /**
   * A quoted field at the start of `t`: the body up to the closing quote,
   * then whitespace, then a comma or the end of the line.
   */
  function QuotedField(t: string): (m: Option<Match>)
    requires t != [] && t[0] == '"'
    ensures m.Some? ==> 0 < m.value.end <= |t|
  {
    match ClosingQuote(t[1..])
    case None => None
    case Some(c) =>
      var after := t[c + 2..];
      var w := LeadingSpace(after);
      if w == |after| then Some(Match(|t|, t[1..c + 1]))
      else if after[w] == ',' then Some(Match(c + w + 3, t[1..c + 1]))
      else None
  }

  /** An unquoted field at the start of `t`: the run up to a comma or the end of the line, but not up to a quote. */
  function UnquotedField(t: string): (m: Option<Match>)
    requires t != []
    ensures m.Some? ==> 0 < m.value.end <= |t|
  {
    var r := IndexOfEither(t, '"', ',');
    if r == |t| then Some(Match(|t|, t))
    else if t[r] == ',' then Some(Match(r + 1, t[..r]))
    else None
  }

  /** The match that starts right at a field (after the leading whitespace): the end of the line, a quoted or an unquoted field. */
  function FieldAt(t: string): (m: Option<Match>)
    ensures m.Some? ==> m.value.end <= |t|
    ensures m.Some? && t != [] ==> m.value.end > 0
  {
    if t == [] then Some(Match(0, "")) else if t[0] == '"' then QuotedField(t) else UnquotedField(t)
  }

  /** The match of the field pattern at the start of `s`, if there is one. */
  function MatchAt(s: string): (m: Option<Match>)
    ensures m.Some? ==> m.value.end <= |s|
    ensures m.Some? && s != [] ==> m.value.end > 0
  {
    var q := LeadingSpace(s);
    match FieldAt(s[q..])
    case None => None
    case Some(f) => Some(Match(q + f.end, f.text))
  }

  /**
   * The group texts `finditer` yields over `s`, in order. The last one is
   * always the empty match at the end of the line.
   */
  function Scan(s: string): (fields: seq<string>)
    ensures |fields| >= 1 && fields[|fields| - 1] == ""
    decreases |s|
  {
    if s == [] then [""]
    else
      match MatchAt(s)
      case Some(m) => [m.text] + Scan(s[m.end..])
      case None => Scan(s[1..])
  }

  /** Python's `s.replace('""', '"')`: doubled quotes collapsed, left to right. */
  function Collapse(s: string): string {
    if |s| >= 2 && s[0] == '"' && s[1] == '"' then ['"'] + Collapse(s[2..])
    else if s == [] then []
    else [s[0]] + Collapse(s[1..])
  }

  /** The text of one field: doubled quotes collapsed, then surrounding whitespace removed (dataframe.py:98). */
  function Clean(raw: string): string {
    Strip(Collapse(raw))
  }

  /** The field texts of one line. */
  function Fields(line: string): seq<string> {
    Map(Clean, Scan(line))
  }

  /** The values of one line: each field text through `convert_value` (dataframe.py:96-100). */
  function LineValues(line: string): seq<Value> {
    Map(ConvertValue, Fields(line))
  }

  /** A match where the scan stands gives the next value of the line. */
  lemma LineValuesMatch(s: string, m: Match)
    requires s != [] && MatchAt(s) == Some(m)
    ensures LineValues(s) == [ConvertValue(Clean(m.text))] + LineValues(s[m.end..])
  {
    ScanMatch(s, m);
    MapCons(Clean, m.text, Scan(s[m.end..]));
    MapCons(ConvertValue, Clean(m.text), Fields(s[m.end..]));
  }

  /** The scan takes the match where it stands and goes on after it. */
  lemma ScanMatch(s: string, m: Match)
    requires s != [] && MatchAt(s).Some? && MatchAt(s).value.end == m.end && MatchAt(s).value.text == m.text
    ensures Scan(s) == [m.text] + Scan(s[m.end..])
  {
  }

  /** Where no match starts, the search moves on by one character. */
  lemma LineValuesNoMatch(s: string)
    requires s != [] && MatchAt(s) == None
    ensures LineValues(s) == LineValues(s[1..])
  {
    assert Scan(s) == Scan(s[1..]);
  }

  /** The method that `read_csv` runs over one line: `for m in pattern.finditer(line)`. */
  method SplitLine(line: string) returns (values: seq<Value>)
    ensures values == LineValues(line)
  {
    values := [];
    var rest := line;
    while rest != []
      invariant values + LineValues(rest) == LineValues(line)
      decreases |rest|
    {
      match MatchAt(rest)
      case Some(m) =>
        LineValuesMatch(rest, m);
        values := values + [ConvertValue(Clean(m.text))];
        rest := rest[m.end..];
      case None =>
        LineValuesNoMatch(rest);
        rest := rest[1..];
    }
    // the empty match at the end of the line
    assert Scan(rest) == [""];
    assert LineValues(rest) == [ConvertValue(Clean(""))];
    values := values + [ConvertValue(Clean(""))];
  }

  // ---------------------------------------------------------------------
  // Quoted fields: writing a field the way the pattern reads it back.

  /** Every double quote doubled. */
  function Escape(s: string): string {
    if s == [] then []
    else (if s[0] == '"' then ['"', '"'] else [s[0]]) + Escape(s[1..])
  }

  /** A field written as a quoted field. */
  function Quote(s: string): string {
    ['"'] + Escape(s) + ['"']
  }

  /** Quoted fields joined with commas. */
  function JoinQuoted(fs: seq<string>): string
    requires |fs| > 0
  {
    if |fs| == 1 then Quote(fs[0]) else Quote(fs[0]) + [','] + JoinQuoted(fs[1..])
  }

  /** Collapsing undoes escaping. */
  lemma {:induction false} CollapseEscape(s: string)
    ensures Collapse(Escape(s)) == s
  {
    if s != [] {
      CollapseEscape(s[1..]);
      if s[0] == '"' {
        assert Escape(s) == ['"', '"'] + Escape(s[1..]);
      } else {
        assert Escape(s) == [s[0]] + Escape(s[1..]);
      }
    }
  }

  lemma EscapeCons(s: string)
    requires s != []
    ensures Escape(s) == (if s[0] == '"' then ['"', '"'] else [s[0]]) + Escape(s[1..])
  {
  }

  lemma ClosingQuoteOrdinary(c: char, y: string)
    requires c != '"'
    ensures ClosingQuote([c] + y) == Shift(ClosingQuote(y), 1)
  {
    assert ([c] + y)[1..] == y;
  }

  lemma ClosingQuoteDoubled(y: string)
    ensures ClosingQuote(['"', '"'] + y) == Shift(ClosingQuote(y), 2)
  {
    assert (['"', '"'] + y)[2..] == y;
  }

  lemma ClosingQuoteLone(y: string)
    requires y == [] || y[0] != '"'
    ensures ClosingQuote(['"'] + y) == Some(0)
  {
  }

  /** The closing quote of an escaped body is the one right after it. */
  lemma {:induction false} ClosingQuoteEscape(s: string, rest: string)
    requires rest == [] || rest[0] != '"'
    ensures ClosingQuote(Escape(s) + ['"'] + rest) == Some(|Escape(s)|)
  {
    if s == [] {
      ClosingQuoteEscapeEmpty(s, rest);
    } else {
      ClosingQuoteEscape(s[1..], rest);
      ClosingQuoteEscapeStep(s, rest);
    }
  }

  lemma ClosingQuoteEscapeEmpty(s: string, rest: string)
    requires s == [] && (rest == [] || rest[0] != '"')
    ensures ClosingQuote(Escape(s) + ['"'] + rest) == Some(|Escape(s)|)
  {
    assert Escape(s) + ['"'] + rest == ['"'] + rest;
    ClosingQuoteLone(rest);
  }

  lemma ClosingQuoteEscapeStep(s: string, rest: string)
    requires s != []
    requires ClosingQuote(Escape(s[1..]) + ['"'] + rest) == Some(|Escape(s[1..])|)
    ensures ClosingQuote(Escape(s) + ['"'] + rest) == Some(|Escape(s)|)
  {
    EscapeQuoteRest(s, rest);
    if s[0] == '"' {
      ClosingQuoteDoubled(Escape(s[1..]) + ['"'] + rest);
    } else {
      ClosingQuoteOrdinary(s[0], Escape(s[1..]) + ['"'] + rest);
    }
  }

  lemma EscapeQuoteRest(s: string, rest: string)
    requires s != []
    ensures Escape(s) + ['"'] + rest == (if s[0] == '"' then ['"', '"'] else [s[0]]) + (Escape(s[1..]) + ['"'] + rest)
  {
    EscapeCons(s);
  }

  /**
   * What `ClosingQuote` finds: it finds nothing exactly when the whole text is
   * a well-formed escaped body (escaping its collapse gives it back), and
   * what lies before the quote it finds is always such a body.
   */
  lemma {:induction false} ClosingQuoteSpec(s: string)
    ensures ClosingQuote(s).None? <==> Escape(Collapse(s)) == s
    ensures ClosingQuote(s).Some? ==> Escape(Collapse(s[..ClosingQuote(s).value])) == s[..ClosingQuote(s).value]
    decreases |s|
  {
    if s == [] {
    } else if s[0] != '"' || (|s| >= 2 && s[1] == '"') {
      var k := if s[0] != '"' then 1 else 2;
      ClosingQuoteSpec(s[k..]);
      ClosingQuoteSpecNone(s, k);
      ClosingQuoteSpecSome(s, k);
    } else {
      EscapeCollapseLone(s);
      assert Escape(Collapse(s))[1] == '"';
      assert s[..0] == [];
    }
  }

  /** Past an ordinary character or a doubled quote, no closing quote still means an escaped body. */
  lemma ClosingQuoteSpecNone(s: string, k: nat)
    requires (k == 1 && s != [] && s[0] != '"') || (k == 2 && |s| >= 2 && s[0] == '"' && s[1] == '"')
    requires ClosingQuote(s[k..]).None? <==> Escape(Collapse(s[k..])) == s[k..]
    ensures ClosingQuote(s).None? <==> Escape(Collapse(s)) == s
  {
    ClosingQuoteShift(s, k);
    ClosingQuoteSpecWhole(s, k);
  }

  /** Past an ordinary character or a doubled quote, the body before the closing quote is still escaped. */
  lemma ClosingQuoteSpecSome(s: string, k: nat)
    requires (k == 1 && s != [] && s[0] != '"') || (k == 2 && |s| >= 2 && s[0] == '"' && s[1] == '"')
    requires ClosingQuote(s[k..]).Some? ==> Escape(Collapse(s[k..][..ClosingQuote(s[k..]).value])) == s[k..][..ClosingQuote(s[k..]).value]
    ensures ClosingQuote(s).Some? ==> Escape(Collapse(s[..ClosingQuote(s).value])) == s[..ClosingQuote(s).value]
  {
    ClosingQuoteShift(s, k);
    match ClosingQuote(s[k..])
    case None =>
    case Some(c) => ClosingQuoteSpecPrefix(s, k, c);
  }

  /** The whole text is an escaped body exactly when the text after its head is one. */
  lemma ClosingQuoteSpecWhole(s: string, k: nat)
    requires (k == 1 && s != [] && s[0] != '"') || (k == 2 && |s| >= 2 && s[0] == '"' && s[1] == '"')
    ensures Escape(Collapse(s)) == s <==> Escape(Collapse(s[k..])) == s[k..]
  {
    EscapeCollapseHead(s, k);
    ConcatHead(s, k, Escape(Collapse(s[k..])));
  }

  /** Past an ordinary character or a doubled quote, the search for the closing quote goes on `k` characters later. */
  lemma ClosingQuoteShift(s: string, k: nat)
    requires (k == 1 && s != [] && s[0] != '"') || (k == 2 && |s| >= 2 && s[0] == '"' && s[1] == '"')
    ensures ClosingQuote(s) == Shift(ClosingQuote(s[k..]), k)
  {
  }

  /** The body before the closing quote, one head longer. */
  lemma ClosingQuoteSpecPrefix(s: string, k: nat, c: nat)
    requires (k == 1 && s != [] && s[0] != '"') || (k == 2 && |s| >= 2 && s[0] == '"' && s[1] == '"')
    requires c <= |s| - k
    requires Escape(Collapse(s[k..][..c])) == s[k..][..c]
    ensures Escape(Collapse(s[..c + k])) == s[..c + k]
  {
    var p := s[..c + k];
    assert p[k..] == s[k..][..c];
    assert p[..k] == s[..k];
    EscapeCollapseHead(p, k);
    assert p == p[..k] + p[k..];
  }

  /** Collapsing and escaping go head first: one ordinary character, or one doubled quote, comes back as it was. */
  lemma EscapeCollapseHead(s: string, k: nat)
    requires (k == 1 && s != [] && s[0] != '"') || (k == 2 && |s| >= 2 && s[0] == '"' && s[1] == '"')
    ensures Escape(Collapse(s)) == s[..k] + Escape(Collapse(s[k..]))
  {
    if k == 1 {
      EscapeCollapseOrdinary(s);
    } else {
      EscapeCollapseDoubled(s);
    }
  }

  lemma EscapeCollapseOrdinary(s: string)
    requires s != [] && s[0] != '"'
    ensures Escape(Collapse(s)) == s[..1] + Escape(Collapse(s[1..]))
  {
    assert Collapse(s) == [s[0]] + Collapse(s[1..]);
    EscapeOrdinary(s[0], Collapse(s[1..]));
    assert s[..1] == [s[0]];
  }

  lemma EscapeOrdinary(x: char, y: string)
    requires x != '"'
    ensures Escape([x] + y) == [x] + Escape(y)
  {
    assert ([x] + y)[1..] == y;
  }

  lemma EscapeCollapseDoubled(s: string)
    requires |s| >= 2 && s[0] == '"' && s[1] == '"'
    ensures Escape(Collapse(s)) == s[..2] + Escape(Collapse(s[2..]))
  {
    var c := Collapse(s);
    assert c == ['"'] + Collapse(s[2..]);
    EscapeCons(c);
    assert c[1..] == Collapse(s[2..]);
    assert s[..2] == ['"', '"'];
  }

  /** A lone quote comes back doubled. */
  lemma EscapeCollapseLone(s: string)
    requires s != [] && s[0] == '"' && (|s| == 1 || s[1] != '"')
    ensures Escape(Collapse(s)) == ['"', '"'] + Escape(Collapse(s[1..]))
  {
    var c := Collapse(s);
    assert c == [s[0]] + Collapse(s[1..]);
    EscapeCons(c);
    assert c[1..] == Collapse(s[1..]);
  }

  /** A text equals its first `k` characters followed by `t` exactly when the rest is `t`. */
  lemma ConcatHead(s: string, k: nat, t: string)
    requires k <= |s|
    ensures s[..k] + t == s <==> t == s[k..]
  {
    if s[..k] + t == s {
      assert t == (s[..k] + t)[k..];
    }
  }

  /** At a quote, the pattern can only take the quoted branch. */
  lemma MatchAtQuote(s: string)
    requires s != [] && s[0] == '"'
    ensures MatchAt(s).Some? <==> QuotedField(s).Some?
    ensures MatchAt(s).Some? ==> MatchAt(s).value.end == QuotedField(s).value.end && MatchAt(s).value.text == QuotedField(s).value.text
  {
    assert LeadingSpace(s) == 0;
    assert s[0..] == s;
    assert FieldAt(s) == QuotedField(s);
  }

  /** A quoted field whose closing quote is followed right away by a comma or by the end of the line. */
  lemma QuotedFieldEnd(t: string, c: nat)
    requires t != [] && t[0] == '"' && ClosingQuote(t[1..]) == Some(c)
    requires c + 2 == |t| || t[c + 2] == ','
    ensures QuotedField(t).Some?
    ensures QuotedField(t).value.end == (if c + 2 == |t| then |t| else c + 3)
    ensures QuotedField(t).value.text == t[1..c + 1]
  {
    assert LeadingSpace(t[c + 2..]) == 0;
  }

  /** A quoted field followed by a comma or by the end of the line is matched whole. */
  lemma QuotedMatch(f: string, rest: string)
    requires rest == [] || rest[0] == ','
    ensures MatchAt(Quote(f) + rest).Some?
    ensures MatchAt(Quote(f) + rest).value.end == if rest == [] then |Quote(f)| else |Quote(f)| + 1
    ensures MatchAt(Quote(f) + rest).value.text == Escape(f)
  {
    ClosingQuoteEscape(f, rest);
    assert Quote(f) + rest == ['"'] + Escape(f) + ['"'] + rest;
    QuotedMatchBody(Quote(f) + rest, Escape(f), rest);
  }

  /** The same, for any body whose closing quote is the one right after it. */
  lemma QuotedMatchBody(s: string, e: string, rest: string)
    requires s == ['"'] + e + ['"'] + rest
    requires ClosingQuote(e + ['"'] + rest) == Some(|e|)
    requires rest == [] || rest[0] == ','
    ensures MatchAt(s).Some?
    ensures MatchAt(s).value.end == if rest == [] then |e| + 2 else |e| + 3
    ensures MatchAt(s).value.text == e
  {
    MatchAtQuote(s);
    QuotedBodySlices(s, e, rest);
    QuotedFieldEnd(s, |e|);
  }

  lemma QuotedBodySlices(s: string, e: string, rest: string)
    requires s == ['"'] + e + ['"'] + rest
    requires rest == [] || rest[0] == ','
    ensures s != [] && s[0] == '"'
    ensures s[1..] == e + ['"'] + rest
    ensures s[1..|e| + 1] == e
    ensures |e| + 2 == |s| || s[|e| + 2] == ','
  {
  }

  /** Every field written as a quoted field: the bodies the pattern should capture. */
  function EscapeAll(fs: seq<string>): seq<string> {
    Map(Escape, fs)
  }

  lemma EscapeAllCons(fs: seq<string>)
    requires |fs| > 0
    ensures EscapeAll(fs) == [Escape(fs[0])] + EscapeAll(fs[1..])
  {
    assert fs == [fs[0]] + fs[1..];
    MapCons(Escape, fs[0], fs[1..]);
  }

  /** A quoted field, then a comma: the scan reads the body and goes on after the comma. */
  lemma ScanQuotedThen(f: string, tail: string)
    ensures Scan(Quote(f) + [','] + tail) == [Escape(f)] + Scan(tail)
  {
    var s := Quote(f) + [','] + tail;
    assert s == Quote(f) + ([','] + tail);
    QuotedMatch(f, [','] + tail);
    ScanMatch(s, Match(|Quote(f)| + 1, Escape(f)));
    assert s[|Quote(f)| + 1..] == tail;
  }

  /** A quoted field at the end of the line: its body, then the empty match at the end. */
  lemma ScanQuotedLast(f: string)
    ensures Scan(Quote(f)) == [Escape(f), ""]
  {
    var s := Quote(f);
    QuotedMatch(f, []);
    assert s + [] == s;
    ScanMatch(s, Match(|s|, Escape(f)));
    assert s[|s|..] == [];
  }

  /** Reading back quoted fields yields their escaped bodies, then the empty field at the end of the line. */
  lemma {:induction false} ScanJoinQuoted(fs: seq<string>)
    requires |fs| > 0
    ensures Scan(JoinQuoted(fs)) == EscapeAll(fs) + [""]
  {
    if |fs| == 1 {
      ScanQuotedLast(fs[0]);
      assert EscapeAll(fs) == [Escape(fs[0])];
    } else {
      ScanJoinQuoted(fs[1..]);
      ScanJoinQuotedStep(fs);
    }
  }

  lemma ScanJoinQuotedStep(fs: seq<string>)
    requires |fs| > 1
    requires Scan(JoinQuoted(fs[1..])) == EscapeAll(fs[1..]) + [""]
    ensures Scan(JoinQuoted(fs)) == EscapeAll(fs) + [""]
  {
    var j, e0, es := JoinQuoted(fs[1..]), Escape(fs[0]), EscapeAll(fs[1..]);
    assert JoinQuoted(fs) == Quote(fs[0]) + [','] + j;
    ScanQuotedThen(fs[0], j);
    EscapeAllCons(fs);
    ConcatAssoc([e0], es, [""]);
  }

  /** An escaped field comes back from cleaning stripped. */
  lemma CleanEscape(f: string)
    ensures Clean(Escape(f)) == Strip(f)
  {
    CollapseEscape(f);
  }

  /**
   * Round trip: fields written as quoted fields and joined by commas come
   * back stripped, followed by the empty end-of-line field.
   */
  lemma FieldsJoinQuoted(fs: seq<string>)
    requires |fs| > 0
    ensures Fields(JoinQuoted(fs)) == Map(Strip, fs) + [""]
  {
    ScanJoinQuoted(fs);
    MapConcat(Clean, EscapeAll(fs), [""]);
    var a := Map(Clean, EscapeAll(fs));
    forall i | 0 <= i < |fs|
      ensures a[i] == Map(Strip, fs)[i]
    {
      CleanEscape(fs[i]);
    }
    Pointwise(a, Map(Strip, fs));
    CleanEmptyField([""]);
  }

  /** Fields without surrounding whitespace come back unchanged. */
  lemma FieldsJoinQuotedTrimmed(fs: seq<string>)
    requires |fs| > 0
    requires forall i :: 0 <= i < |fs| ==> Trimmed(fs[i])
    ensures Fields(JoinQuoted(fs)) == fs + [""]
  {
    FieldsJoinQuoted(fs);
    forall i | 0 <= i < |fs|
      ensures Map(Strip, fs)[i] == fs[i]
    {
      StripUnchanged(fs[i]);
    }
    Pointwise(Map(Strip, fs), fs);
  }

  // ---------------------------------------------------------------------
  // Unquoted fields: a line without double quotes.

  /** The pieces of `s` between commas, as `str.split(',')` gives them. */
  function SplitCommas(s: string): (ps: seq<string>)
    ensures |ps| > 0
    decreases |s|
  {
    var i := IndexOfEither(s, ',', ',');
    if i == |s| then [s] else [s[..i]] + SplitCommas(s[i + 1..])
  }

  function CountCommas(s: string): nat {
    if s == [] then 0 else (if s[0] == ',' then 1 else 0) + CountCommas(s[1..])
  }

  predicate QuoteFree(s: string) {
    forall i :: 0 <= i < |s| ==> s[i] != '"'
  }

  lemma {:induction false} CollapseQuoteFree(s: string)
    requires QuoteFree(s)
    ensures Collapse(s) == s
  {
    if s != [] {
      CollapseQuoteFree(s[1..]);
    }
  }

  /** Where the first comma is, in a line and in that line without its leading whitespace. */
  lemma FirstComma(s: string)
    requires QuoteFree(s)
    ensures var q, i := LeadingSpace(s), IndexOfEither(s, ',', ',');
      && q <= i
      && IndexOfEither(s[q..], '"', ',') == i - q
      && LeadingSpace(s[..i]) == q
  {
    var q, i := LeadingSpace(s), IndexOfEither(s, ',', ',');
    LeadingSpaceAll(s);
    assert q <= i;
    FirstCommaAfterSpace(s, q, i);
    LeadingSpacePrefix(s, i);
  }

  lemma FirstCommaAfterSpace(s: string, q: nat, i: nat)
    requires QuoteFree(s) && q <= i && q <= |s| && i == IndexOfEither(s, ',', ',')
    ensures IndexOfEither(s[q..], '"', ',') == i - q
  {
    var t := s[q..];
    var k := IndexOfEither(t, '"', ',');
    IndexOfEitherFirst(s, ',', ',');
    IndexOfEitherFirst(t, '"', ',');
    if k < |t| {
      assert s[q + k] == t[k];
    }
    if i < |s| {
      assert t[i - q] == s[i];
    }
  }

  /** Cutting a line after its leading whitespace leaves that whitespace as it is. */
  lemma {:induction false} LeadingSpacePrefix(s: string, i: nat)
    requires LeadingSpace(s) <= i <= |s|
    ensures LeadingSpace(s[..i]) == LeadingSpace(s)
  {
    if s != [] && i > 0 && IsSpace(s[0]) {
      LeadingSpacePrefix(s[1..], i - 1);
      assert s[..i][1..] == s[1..][..i - 1];
    }
  }

  /** After leading whitespace and anything but a quote, the pattern can only take the unquoted branch. */
  lemma MatchAtUnquoted(s: string)
    requires LeadingSpace(s) < |s| && s[LeadingSpace(s)] != '"'
    ensures var q, f := LeadingSpace(s), UnquotedField(s[LeadingSpace(s)..]);
      && (MatchAt(s).Some? <==> f.Some?)
      && (f.Some? ==> MatchAt(s).value.end == q + f.value.end && MatchAt(s).value.text == f.value.text)
  {
    FieldAtUnquoted(s[LeadingSpace(s)..]);
  }

  lemma FieldAtUnquoted(t: string)
    requires t != [] && t[0] != '"'
    ensures FieldAt(t) == UnquotedField(t)
  {
  }

  /** The unquoted branch when the run ends at a comma or at the end of the line. */
  lemma UnquotedFieldRun(t: string, k: nat)
    requires t != [] && k == IndexOfEither(t, '"', ',') && (k < |t| ==> t[k] == ',')
    ensures UnquotedField(t).Some?
    ensures UnquotedField(t).value.end == if k == |t| then |t| else k + 1
    ensures UnquotedField(t).value.text == t[..k]
  {
    assert t[..|t|] == t;
  }

  /** The first match over a line without quotes that is all whitespace. */
  lemma PlainMatchBlank(s: string)
    requires s != [] && QuoteFree(s) && LeadingSpace(s) == |s|
    ensures var i := IndexOfEither(s, ',', ',');
      && MatchAt(s).Some?
      && MatchAt(s).value.end == (if i == |s| then |s| else i + 1)
      && MatchAt(s).value.text == LStrip(s[..i])
  {
    FirstComma(s);
    assert s[|s|..] == [];
    assert FieldAt(s[|s|..]) == Some(Match(0, ""));
    assert s[..IndexOfEither(s, ',', ',')] == s;
  }

  /** The first match over a line without quotes that has a character other than whitespace. */
  lemma PlainMatchRun(s: string)
    requires s != [] && QuoteFree(s) && LeadingSpace(s) < |s|
    ensures var i := IndexOfEither(s, ',', ',');
      && MatchAt(s).Some?
      && MatchAt(s).value.end == (if i == |s| then |s| else i + 1)
      && MatchAt(s).value.text == LStrip(s[..i])
  {
    FirstComma(s);
    var q, i := LeadingSpace(s), IndexOfEither(s, ',', ',');
    var t := s[q..];
    assert i < |s| ==> t[i - q] == ',';
    UnquotedFieldRun(t, i - q);
    MatchAtUnquoted(s);
    LStripPrefix(s, i);
  }

  lemma LStripPrefix(s: string, i: nat)
    requires LeadingSpace(s) <= i <= |s| && LeadingSpace(s[..i]) == LeadingSpace(s)
    ensures LStrip(s[..i]) == s[LeadingSpace(s)..][..i - LeadingSpace(s)]
  {
    var q := LeadingSpace(s);
    assert s[..i][q..] == s[q..][..i - q];
  }

  lemma QuoteFreeSuffix(s: string, k: nat)
    requires QuoteFree(s) && k <= |s|
    ensures QuoteFree(s[k..])
  {
    forall j | 0 <= j < |s| - k
      ensures s[k..][j] != '"'
    {
      assert s[k..][j] == s[k + j];
    }
  }

  /** One step of the scan over a line without quotes: the first piece without its leading whitespace. */
  lemma ScanPlainStep(s: string)
    requires s != [] && QuoteFree(s)
    ensures var i := IndexOfEither(s, ',', ',');
      Scan(s) == [LStrip(s[..i])] + (if i == |s| then [""] else Scan(s[i + 1..]))
  {
    var i := IndexOfEither(s, ',', ',');
    if LeadingSpace(s) == |s| {
      PlainMatchBlank(s);
    } else {
      PlainMatchRun(s);
    }
    ScanMatch(s, Match(if i == |s| then |s| else i + 1, LStrip(s[..i])));
    assert i == |s| ==> s[|s|..] == [];
  }


  /**
   * What the scan yields over a line without quotes, cut into the pieces
   * `ps`: each piece without its leading whitespace, then the end-of-line
   * empty field, which merges with the last piece when that piece is empty.
   */
  function PlainScan(ps: seq<string>): seq<string>
    requires |ps| > 0
  {
    Map(LStrip, ps) + (if ps[|ps| - 1] == [] then [] else [""])
  }

  lemma PlainScanOne(p: string)
    ensures PlainScan([p]) == [LStrip(p)] + (if p == [] then [] else [""])
  {
    assert Map(LStrip, [p]) == [LStrip(p)];
  }

  lemma PlainScanCons(p: string, ps: seq<string>)
    requires |ps| > 0
    ensures PlainScan([p] + ps) == [LStrip(p)] + PlainScan(ps)
  {
    MapCons(LStrip, p, ps);
    ConcatIndex([p], ps, |ps|);
    ConcatAssoc([LStrip(p)], Map(LStrip, ps), if ps[|ps| - 1] == [] then [] else [""]);
  }

  /** Over a line without double quotes, the scan yields the comma-separated pieces without their leading whitespace. */
  lemma {:induction false} ScanPlain(s: string)
    requires QuoteFree(s)
    ensures Scan(s) == PlainScan(SplitCommas(s))
    decreases |s|
  {
    if s == [] {
      PlainScanOne(s);
    } else {
      ScanPlainStep(s);
      var i := IndexOfEither(s, ',', ',');
      if i == |s| {
        assert s[..i] == s;
        PlainScanOne(s);
      } else {
        QuoteFreeSuffix(s, i + 1);
        ScanPlain(s[i + 1..]);
        PlainScanCons(s[..i], SplitCommas(s[i + 1..]));
      }
    }
  }


  /** Cleaning a quote-free piece without its leading whitespace is stripping it. */
  lemma CleanPlain(p: string)
    requires QuoteFree(p)
    ensures Clean(LStrip(p)) == Strip(p)
  {
    QuoteFreeSuffix(p, LeadingSpace(p));
    CollapseQuoteFree(LStrip(p));
    StripLStrip(p);
  }

  /**
   * The field texts of a line without double quotes: each comma-separated
   * piece stripped, plus one empty field unless the line ends in a comma or
   * is empty. So there are one or two fields more than commas.
   */
  lemma FieldsPlain(s: string)
    requires QuoteFree(s)
    ensures var ps := SplitCommas(s);
      Fields(s) == Map(Strip, ps) + (if ps[|ps| - 1] == [] then [] else [""])
  {
    var ps := SplitCommas(s);
    var tail: seq<string> := if ps[|ps| - 1] == [] then [] else [""];
    ScanPlain(s);
    MapConcat(Clean, Map(LStrip, ps), tail);
    SplitCommasQuoteFree(s);
    CleanPlainAll(ps);
    CleanEmptyField(tail);
  }

  lemma CleanPlainAll(ps: seq<string>)
    requires forall j :: 0 <= j < |ps| ==> QuoteFree(ps[j])
    ensures Map(Clean, Map(LStrip, ps)) == Map(Strip, ps)
  {
    var a := Map(Clean, Map(LStrip, ps));
    forall j | 0 <= j < |ps|
      ensures a[j] == Map(Strip, ps)[j]
    {
      CleanPlain(ps[j]);
    }
    Pointwise(a, Map(Strip, ps));
  }

  lemma CleanEmptyField(tail: seq<string>)
    requires tail == [] || tail == [""]
    ensures Map(Clean, tail) == tail
  {
    assert Clean("") == "";
  }

  /** A line without double quotes has one or two fields more than commas: two unless it ends in a comma or is empty. */
  lemma FieldsPlainCount(s: string)
    requires QuoteFree(s)
    ensures |Fields(s)| == CountCommas(s) + (if s == [] || s[|s| - 1] == ',' then 1 else 2)
  {
    FieldsPlain(s);
    SplitCommasCount(s);
    SplitCommasLast(s);
  }

  /** There is one more piece than commas. */
  lemma {:induction false} SplitCommasCount(s: string)
    ensures |SplitCommas(s)| == CountCommas(s) + 1
    decreases |s|
  {
    var i := IndexOfEither(s, ',', ',');
    CountCommasSplit(s, i);
    if i < |s| {
      SplitCommasCount(s[i + 1..]);
    }
  }

  /** The last piece is empty exactly when the line is empty or ends with a comma. */
  lemma {:induction false} SplitCommasLast(s: string)
    ensures var ps := SplitCommas(s);
      ps[|ps| - 1] == [] <==> s == [] || s[|s| - 1] == ','
    decreases |s|
  {
    var i := IndexOfEither(s, ',', ',');
    if i == |s| {
      IndexOfEitherFirst(s, ',', ',');
    } else {
      var rest := s[i + 1..];
      SplitCommasLast(rest);
      if rest != [] {
        assert rest[|rest| - 1] == s[|s| - 1];
      }
    }
  }

  /** The pieces of a quote-free line are quote-free. */
  lemma {:induction false} SplitCommasQuoteFree(s: string)
    requires QuoteFree(s)
    ensures forall j :: 0 <= j < |SplitCommas(s)| ==> QuoteFree(SplitCommas(s)[j])
    decreases |s|
  {
    var i := IndexOfEither(s, ',', ',');
    if i < |s| {
      var rest := s[i + 1..];
      QuoteFreeSuffix(s, i + 1);
      SplitCommasQuoteFree(rest);
      var ps, qs := SplitCommas(s), SplitCommas(rest);
      assert ps == [s[..i]] + qs;
      assert QuoteFree(s[..i]);
      forall j | 0 <= j < |ps|
        ensures QuoteFree(ps[j])
      {
        ConcatIndex([s[..i]], qs, j);
        if j > 0 {
          assert QuoteFree(qs[j - 1]);
        }
      }
    }
  }

  /** Commas counted up to the first comma and after it. */
  lemma {:induction false} CountCommasSplit(s: string, i: nat)
    requires i == IndexOfEither(s, ',', ',')
    ensures i == |s| ==> CountCommas(s) == 0
    ensures i < |s| ==> CountCommas(s) == 1 + CountCommas(s[i + 1..])
  {
    if s != [] && s[0] != ',' {
      CountCommasSplit(s[1..], i - 1);
      if i < |s| {
        assert s[1..][i..] == s[i + 1..];
      }
    }
  }

  // ---------------------------------------------------------------------
  // Lines that mix unquoted and quoted fields.

  /** A field as written in a line: unquoted as it stands, or quoted with its quotes doubled. */
  datatype RawField = Plain(text: string) | Quoted(text: string)

  predicate CommaFree(s: string) {
    forall i :: 0 <= i < |s| ==> s[i] != ','
  }

  /** A field that can be written: an unquoted field holds no quote and no comma. */
  predicate Writable(f: RawField) {
    f.Plain? ==> QuoteFree(f.text) && CommaFree(f.text)
  }

  function Render(f: RawField): string {
    match f
    case Plain(p) => p
    case Quoted(q) => Quote(q)
  }

  /** Fields written out and joined with commas. */
  function Join(fs: seq<RawField>): string
    requires |fs| > 0
  {
    if |fs| == 1 then Render(fs[0]) else Render(fs[0]) + [','] + Join(fs[1..])
  }

  /** What the pattern captures for a field: an unquoted one without its leading whitespace, a quoted one's body. */
  function Captured(f: RawField): string {
    match f
    case Plain(p) => LStrip(p)
    case Quoted(q) => Escape(q)
  }

  /** The text a field reads back as: its text, stripped. */
  function FieldText(f: RawField): string {
    Strip(f.text)
  }

  /** The first character after a run of whitespace that is not whitespace ends the run. */
  lemma {:induction false} LeadingSpaceAppend(p: string, x: string)
    requires x != [] && !IsSpace(x[0])
    ensures LeadingSpace(p + x) == if LeadingSpace(p) < |p| then LeadingSpace(p) else |p|
  {
    if p != [] && IsSpace(p[0]) {
      LeadingSpaceAppend(p[1..], x);
      assert (p + x)[1..] == p[1..] + x;
    }
  }

  /** An unquoted field followed by a comma is matched up to and including the comma. */
  lemma PlainThenMatch(p: string, tail: string)
    requires QuoteFree(p) && CommaFree(p)
    ensures MatchAt(p + [','] + tail) == Some(Match(|p| + 1, LStrip(p)))
  {
    var s := p + [','] + tail;
    var q := LeadingSpace(p);
    PlainLeadingSpace(p, tail);
    var t := s[q..];
    assert t == p[q..] + [','] + tail;
    PlainRunEnd(p[q..], tail);
    UnquotedFieldRun(t, |p| - q);
    assert t[..|p| - q] == p[q..];
    MatchAtUnquoted(s);
  }

  /** The leading whitespace of an unquoted field followed by a comma is the field's own. */
  lemma PlainLeadingSpace(p: string, tail: string)
    ensures LeadingSpace(p + [','] + tail) == LeadingSpace(p)
  {
    assert p + [','] + tail == p + ([','] + tail);
    LeadingSpaceAppend(p, [','] + tail);
  }

  /** The unquoted run of a field without quotes or commas stops at the comma after it. */
  lemma PlainRunEnd(r: string, tail: string)
    requires QuoteFree(r) && CommaFree(r)
    ensures IndexOfEither(r + [','] + tail, '"', ',') == |r|
  {
    var t := r + [','] + tail;
    assert t[|r|] == ',';
    assert forall i :: 0 <= i < |r| ==> t[i] == r[i];
    IndexOfEitherAt(t, '"', ',', |r|);
  }

  /** An unquoted field, then a comma: the scan reads the field and goes on after the comma. */
  lemma ScanPlainThen(p: string, tail: string)
    requires QuoteFree(p) && CommaFree(p)
    ensures Scan(p + [','] + tail) == [LStrip(p)] + Scan(tail)
  {
    var s := p + [','] + tail;
    PlainThenMatch(p, tail);
    ScanMatch(s, Match(|p| + 1, LStrip(p)));
    assert s[|p| + 1..] == tail;
  }

  /** An unquoted field at the end of the line: the field, then the empty match unless the field is empty. */
  lemma ScanPlainLast(p: string)
    requires QuoteFree(p) && CommaFree(p)
    ensures Scan(p) == [LStrip(p)] + (if p == [] then [] else [""])
  {
    IndexOfEitherAt(p, ',', ',', |p|);
    ScanPlain(p);
    PlainScanOne(p);
  }

  /** One field, then a comma: the scan reads what the pattern captures for it and goes on after the comma. */
  lemma ScanFieldThen(f: RawField, tail: string)
    requires Writable(f)
    ensures Scan(Render(f) + [','] + tail) == [Captured(f)] + Scan(tail)
  {
    match f
    case Plain(p) => ScanPlainThen(p, tail);
    case Quoted(q) => ScanQuotedThen(q, tail);
  }

  /** The empty match at the end of a line, unless the last field is an empty unquoted one. */
  function EndField(fs: seq<RawField>): seq<string>
    requires |fs| > 0
  {
    if fs[|fs| - 1] == Plain([]) then [] else [""]
  }

  /**
   * Any line of writable fields, unquoted and quoted mixed: the scan yields
   * what the pattern captures for each field, then the empty end-of-line
   * match, which an empty last unquoted field already is.
   */
  lemma {:induction false} ScanJoin(fs: seq<RawField>)
    requires |fs| > 0
    requires forall i :: 0 <= i < |fs| ==> Writable(fs[i])
    ensures Scan(Join(fs)) == Map(Captured, fs) + EndField(fs)
  {
    if |fs| == 1 {
      ScanFieldLast(fs[0]);
      assert Map(Captured, fs) == [Captured(fs[0])];
    } else {
      assert Writable(fs[0]);
      ScanJoin(fs[1..]);
      ScanJoinStep(fs);
    }
  }

  /** One field alone on a line. */
  lemma ScanFieldLast(f: RawField)
    requires Writable(f)
    ensures Scan(Render(f)) == [Captured(f)] + EndField([f])
  {
    match f
    case Plain(p) => ScanPlainLast(p);
    case Quoted(q) => ScanQuotedLast(q);
  }

  lemma ScanJoinStep(fs: seq<RawField>)
    requires |fs| > 1 && Writable(fs[0])
    requires Scan(Join(fs[1..])) == Map(Captured, fs[1..]) + EndField(fs[1..])
    ensures Scan(Join(fs)) == Map(Captured, fs) + EndField(fs)
  {
    var c, cs, e := Captured(fs[0]), Map(Captured, fs[1..]), EndField(fs[1..]);
    JoinCons(fs);
    ScanFieldThen(fs[0], Join(fs[1..]));
    CapturedCons(fs);
    ConcatAssoc([c], cs, e);
  }

  lemma JoinCons(fs: seq<RawField>)
    requires |fs| > 1
    ensures Join(fs) == Render(fs[0]) + [','] + Join(fs[1..])
  {
  }

  lemma CapturedCons(fs: seq<RawField>)
    requires |fs| > 1
    ensures Map(Captured, fs) == [Captured(fs[0])] + Map(Captured, fs[1..])
    ensures EndField(fs) == EndField(fs[1..])
  {
    assert fs == [fs[0]] + fs[1..];
    MapCons(Captured, fs[0], fs[1..]);
  }

  /** Cleaning what the pattern captures for a field gives its text, stripped. */
  lemma CleanCaptured(f: RawField)
    requires Writable(f)
    ensures Clean(Captured(f)) == FieldText(f)
  {
    match f
    case Plain(p) => CleanPlain(p);
    case Quoted(q) => CleanEscape(q);
  }

  /**
   * Round trip for any line of writable fields, unquoted and quoted mixed:
   * each field reads back as its text, stripped, followed by the empty
   * end-of-line field unless the last field is an empty unquoted one.
   */
  lemma FieldsJoin(fs: seq<RawField>)
    requires |fs| > 0
    requires forall i :: 0 <= i < |fs| ==> Writable(fs[i])
    ensures Fields(Join(fs)) == Map(FieldText, fs) + EndField(fs)
  {
    ScanJoin(fs);
    MapConcat(Clean, Map(Captured, fs), EndField(fs));
    var a := Map(Clean, Map(Captured, fs));
    forall i | 0 <= i < |fs|
      ensures a[i] == Map(FieldText, fs)[i]
    {
      CleanCaptured(fs[i]);
    }
    Pointwise(a, Map(FieldText, fs));
    CleanEmptyField(EndField(fs));
  }

  /** The line `hello,"wor""ld"`: an unquoted field and a quoted one with a doubled quote. */
  lemma FieldsExample()
    ensures Fields("hello,\"wor\"\"ld\"") == ["hello", "wor\"ld", ""]
  {
    var fs := [Plain("hello"), Quoted("wor\"ld")];
    ExampleLine(fs);
    ExampleTexts(fs);
    FieldsJoin(fs);
  }

  lemma ExampleLine(fs: seq<RawField>)
    requires fs == [Plain("hello"), Quoted("wor\"ld")]
    ensures forall i :: 0 <= i < |fs| ==> Writable(fs[i])
    ensures Join(fs) == "hello,\"wor\"\"ld\""
    ensures EndField(fs) == [""]
  {
    ExampleWritable(fs);
    ExampleJoin(fs);
    ExampleConcat();
  }

  lemma ExampleJoin(fs: seq<RawField>)
    requires fs == [Plain("hello"), Quoted("wor\"ld")]
    ensures Join(fs) == "hello" + [','] + Quote("wor\"ld")
  {
    assert fs[1..] == [Quoted("wor\"ld")];
  }

  lemma ExampleConcat()
    ensures "hello" + [','] + Quote("wor\"ld") == "hello,\"wor\"\"ld\""
  {
    ExampleQuote();
  }

  lemma ExampleWritable(fs: seq<RawField>)
    requires fs == [Plain("hello"), Quoted("wor\"ld")]
    ensures forall i :: 0 <= i < |fs| ==> Writable(fs[i])
  {
    assert QuoteFree("hello") && CommaFree("hello");
  }

  lemma ExampleQuote()
    ensures Quote("wor\"ld") == "\"wor\"\"ld\""
  {
    EscapeExample();
  }

  lemma ExampleTexts(fs: seq<RawField>)
    requires fs == [Plain("hello"), Quoted("wor\"ld")]
    ensures Map(FieldText, fs) == ["hello", "wor\"ld"]
  {
    StripUnchanged("hello");
    StripUnchanged("wor\"ld");
    Pointwise(Map(FieldText, fs), ["hello", "wor\"ld"]);
  }

  lemma EscapeExample()
    ensures Escape("wor\"ld") == "wor\"\"ld"
  {
    assert Escape("d") == "d";
    assert Escape("ld") == "ld";
    assert Escape("\"ld") == "\"\"ld";
    assert Escape("r\"ld") == "r\"\"ld";
    assert Escape("or\"ld") == "or\"\"ld";
  }
}
