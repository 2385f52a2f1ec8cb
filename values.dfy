/**
 * Cell values and `convert_value` (dataframe.py:57-69): a raw field text is
 * turned into an int when Python's `int()` accepts it, into a float when
 * `float()` accepts it, and is kept as text otherwise.
 */
module Values {
  import opened Wrappers

  /** A cell: a Python int, float or str. A float keeps the text `float()` was given. */
  datatype Value = Int(n: int) | Float(text: string) | Text(s: string)

  /**
   * Python's `str.isspace()`. The same set decides what `\s` matches in a str
   * pattern, what `str.strip()` removes and what `int()` and `float()` skip.
   */
  predicate IsSpace(c: char) {
    || ('\t' <= c <= '\r')
    || ('\U{1c}' <= c <= ' ')
    || c == '\U{85}' || c == '\U{a0}' || c == '\U{1680}'
    || ('\U{2000}' <= c <= '\U{200a}')
    || c == '\U{2028}' || c == '\U{2029}' || c == '\U{202f}' || c == '\U{205f}' || c == '\U{3000}'
  }

  /** Length of the longest run of whitespace that starts `s`. */
  function LeadingSpace(s: string): (k: nat)
    ensures k <= |s|
    ensures k < |s| ==> !IsSpace(s[k])
  {
    if s == [] || !IsSpace(s[0]) then 0 else 1 + LeadingSpace(s[1..])
  }

  /** The run that `LeadingSpace` measures is all whitespace. */
  lemma {:induction false} LeadingSpaceAll(s: string)
    ensures forall i :: 0 <= i < LeadingSpace(s) ==> IsSpace(s[i])
  {
    if s != [] && IsSpace(s[0]) {
      LeadingSpaceAll(s[1..]);
      forall i | 1 <= i < LeadingSpace(s)
        ensures IsSpace(s[i])
      {
        assert s[i] == s[1..][i - 1];
      }
    }
  }

  /** Length of the longest run of whitespace that ends `s`. */
  function TrailingSpace(s: string): (k: nat)
    ensures k <= |s|
    ensures k < |s| ==> !IsSpace(s[|s| - 1 - k])
  {
    if s == [] || !IsSpace(s[|s| - 1]) then 0 else 1 + TrailingSpace(s[..|s| - 1])
  }

  /** The run that `TrailingSpace` measures is all whitespace. */
  lemma {:induction false} TrailingSpaceAll(s: string)
    ensures forall i :: |s| - TrailingSpace(s) <= i < |s| ==> IsSpace(s[i])
  {
    if s != [] && IsSpace(s[|s| - 1]) {
      TrailingSpaceAll(s[..|s| - 1]);
    }
  }

  /** `s` without its leading whitespace. */
  function LStrip(s: string): string {
    s[LeadingSpace(s)..]
  }

  /** Python's `str.strip()`: the longest middle part of `s` that neither starts nor ends with whitespace. */
  function Strip(s: string): (r: string)
    ensures Trimmed(r)
    ensures LeadingSpace(s) + |r| <= |s| && r == s[LeadingSpace(s)..LeadingSpace(s) + |r|]
    ensures forall i :: LeadingSpace(s) + |r| <= i < |s| ==> IsSpace(s[i])
  {
    var a := LeadingSpace(s);
    var t := s[a..];
    var r := t[..|t| - TrailingSpace(t)];
    TrailingSpaceAll(t);
    assert forall i :: a + |r| <= i < |s| ==> s[i] == t[i - a];
    assert r == s[a..a + |r|];
    r
  }

  /** `s` neither starts nor ends with whitespace. */
  predicate Trimmed(s: string) {
    s != [] ==> !IsSpace(s[0]) && !IsSpace(s[|s| - 1])
  }

  /** Stripping leaves a text that has no surrounding whitespace unchanged. */
  lemma StripUnchanged(s: string)
    requires Trimmed(s)
    ensures Strip(s) == s
  {
  }

  /** Stripping what was already stripped on the left changes nothing more. */
  lemma StripLStrip(s: string)
    ensures Strip(LStrip(s)) == Strip(s)
  {
    var a := LeadingSpace(s);
    assert LeadingSpace(s[a..]) == 0;
  }

  predicate IsDigit(c: char) {
    '0' <= c <= '9'
  }

  /**
   * Python's `digitpart`: ASCII digits, with a single underscore allowed
   * between two digits.
   */
  predicate DigitPart(s: string) {
    && |s| > 0 && IsDigit(s[0]) && IsDigit(s[|s| - 1])
    && (forall i :: 0 <= i < |s| ==> IsDigit(s[i]) || s[i] == '_')
    && (forall i :: 0 <= i < |s| - 1 && s[i] == '_' ==> IsDigit(s[i + 1]))
  }

  /** The number the digits of `s` spell, in base 10, skipping underscores. */
  function DigitsValue(s: string): nat {
    if s == [] then 0
    else if IsDigit(s[|s| - 1]) then 10 * DigitsValue(s[..|s| - 1]) + (s[|s| - 1] as int - '0' as int)
    else DigitsValue(s[..|s| - 1])
  }

  /** An optional leading sign, split off: the factor it stands for and the rest. */
  function SplitSign(s: string): (int, string) {
    if |s| > 0 && s[0] == '-' then (-1, s[1..])
    else if |s| > 0 && s[0] == '+' then (1, s[1..])
    else (1, s)
  }

  /**
   * Python's `int(s)` in base 10: surrounding whitespace, an optional sign and
   * a digit part. None stands for the ValueError it raises otherwise.
   */
  function ParseInt(s: string): Option<int> {
    var (sign, digits) := SplitSign(Strip(s));
    if DigitPart(digits) then Some(sign * DigitsValue(digits)) else None
  }

  /** Index of the first character of `s` equal to `c` or `d`, or |s|. */
  function IndexOfEither(s: string, c: char, d: char): (k: nat)
    ensures k <= |s|
    ensures k < |s| ==> s[k] == c || s[k] == d
  {
    if s == [] || s[0] == c || s[0] == d then 0 else 1 + IndexOfEither(s[1..], c, d)
  }

  /** No character before the one `IndexOfEither` finds is `c` or `d`. */
  lemma {:induction false} IndexOfEitherFirst(s: string, c: char, d: char)
    ensures forall i :: 0 <= i < IndexOfEither(s, c, d) ==> s[i] != c && s[i] != d
  {
    if s != [] && s[0] != c && s[0] != d {
      IndexOfEitherFirst(s[1..], c, d);
      forall i | 1 <= i < IndexOfEither(s, c, d)
        ensures s[i] != c && s[i] != d
      {
        assert s[i] == s[1..][i - 1];
      }
    }
  }

  /** Python's float `number`: `[digitpart] "." digitpart | digitpart ["."]`. */
  predicate Mantissa(m: string) {
    var d := IndexOfEither(m, '.', '.');
    if d == |m| then DigitPart(m)
    else (d == 0 || DigitPart(m[..d])) && (DigitPart(m[d + 1..]) || (d > 0 && d + 1 == |m|))
  }

  /** Python's `floatnumber`: a mantissa and an optional exponent `("e" | "E") [sign] digitpart`. */
  predicate FloatNumber(s: string) {
    var e := IndexOfEither(s, 'e', 'E');
    Mantissa(s[..e]) && (e == |s| || DigitPart(SplitSign(s[e + 1..]).1))
  }

  function Lower(c: char): char {
    if 'A' <= c <= 'Z' then (c as int + 32) as char else c
  }

  /** `s` spells the lower-case ASCII `word` when case is ignored. */
  predicate SpellsIgnoringCase(s: string, word: string) {
    |s| == |word| && forall i :: 0 <= i < |s| ==> Lower(s[i]) == word[i]
  }

  /**
   * Python's `float(s)` accepts `s`: surrounding whitespace, an optional sign,
   * then a float number, `inf`, `infinity` or `nan` in any case.
   */
  predicate IsFloatLiteral(s: string) {
    var body := SplitSign(Strip(s)).1;
    || SpellsIgnoringCase(body, "inf")
    || SpellsIgnoringCase(body, "infinity")
    || SpellsIgnoringCase(body, "nan")
    || FloatNumber(body)
  }

  /** One leading and one trailing double quote removed, when both are there. */
  function Unquote(s: string): (r: string)
    ensures |s| >= 2 && s[0] == '"' && s[|s| - 1] == '"' ==> ['"'] + r + ['"'] == s
    ensures !(|s| >= 2 && s[0] == '"' && s[|s| - 1] == '"') ==> r == s
  {
    if |s| >= 2 && s[0] == '"' && s[|s| - 1] == '"' then s[1..|s| - 1] else s
  }

  /**
   * `convert_value`: the empty text stays text; otherwise, without one pair
   * of enclosing quotes, the text becomes an int exactly when `int()`
   * accepts it, a float exactly when `int()` refuses and `float()` accepts
   * it, and stays text when both refuse.
   */
  function ConvertValue(s: string): (v: Value)
    ensures s == "" ==> v == Text("")
    ensures s != "" ==> (v.Int? <==> ParseInt(Unquote(s)).Some?)
    ensures s != "" && v.Int? ==> Some(v.n) == ParseInt(Unquote(s))
    ensures s != "" ==> (v.Float? <==> ParseInt(Unquote(s)) == None && IsFloatLiteral(Unquote(s)))
    ensures v.Float? ==> v.text == Unquote(s)
    ensures s != "" && v.Text? ==> v.s == Unquote(s) && !IsFloatLiteral(Unquote(s))
  {
    if s == "" then Text(s)
    else
      var u := Unquote(s);
      match ParseInt(u)
      case Some(n) => Int(n)
      case None => if IsFloatLiteral(u) then Float(u) else Text(u)
  }

  /** Whitespace around a text makes no difference to `int()`. */
  lemma ParseIntStrip(s: string)
    ensures ParseInt(s) == ParseInt(Strip(s))
  {
    StripUnchanged(Strip(s));
  }

  /**
   * What `int()` accepts, once stripped: an optional sign and then only
   * digits and underscores, ending in a digit; only a leading minus gives a
   * negative number.
   */
  lemma ParseIntShape(s: string)
    requires ParseInt(s).Some?
    ensures var t := Strip(s);
      && t != [] && IsDigit(t[|t| - 1])
      && (IsDigit(t[0]) || t[0] == '+' || t[0] == '-')
      && (forall i :: 0 < i < |t| ==> IsDigit(t[i]) || t[i] == '_')
    ensures ParseInt(s).value < 0 ==> Strip(s)[0] == '-'
  {
    var t := Strip(s);
    if t != [] && (t[0] == '-' || t[0] == '+') {
      var d := t[1..];
      assert DigitPart(d);
      forall i | 0 < i < |t|
        ensures IsDigit(t[i]) || t[i] == '_'
      {
        assert t[i] == d[i - 1];
      }
    }
  }

  /** `float()` accepts a decimal point with digits on either side or on both. */
  lemma FloatLiteralDecimal(a: string, b: string)
    requires DigitPart(a) && DigitPart(b)
    ensures IsFloatLiteral(a + "." + b)
    ensures IsFloatLiteral(a + ".")
    ensures IsFloatLiteral("." + b)
  {
    DecimalMantissa(a, b);
    DecimalMantissa(a, "");
    assert a + "." + "" == a + ".";
    DecimalMantissa("", b);
    assert "" + "." + b == "." + b;
  }

  /** The first `c` or `d` of `s` is at `k` when none comes earlier. */
  lemma {:induction false} IndexOfEitherAt(s: string, c: char, d: char, k: nat)
    requires k <= |s| && (k < |s| ==> s[k] == c || s[k] == d)
    requires forall i :: 0 <= i < k ==> s[i] != c && s[i] != d
    ensures IndexOfEither(s, c, d) == k
  {
    if k > 0 {
      IndexOfEitherAt(s[1..], c, d, k - 1);
    }
  }

  /** Digits, a point and digits, with at least one digit, form a float literal. */
  lemma DecimalMantissa(a: string, b: string)
    requires a == "" || DigitPart(a)
    requires b == "" || DigitPart(b)
    requires a != "" || b != ""
    ensures IsFloatLiteral(a + "." + b)
  {
    var s := a + "." + b;
    assert s[..|a|] == a && s[|a|] == '.' && s[|a| + 1..] == b;
    forall i | 0 <= i < |s|
      ensures IsDigit(s[i]) || s[i] == '_' || s[i] == '.'
    {
      if i < |a| {
        assert s[i] == s[..|a|][i];
      } else if i > |a| {
        assert s[i] == s[|a| + 1..][i - |a| - 1];
      }
    }
    forall i | 0 <= i < |a|
      ensures s[i] != '.'
    {
      assert s[i] == s[..|a|][i];
    }
    IndexOfEitherAt(s, '.', '.', |a|);
    PlainFloatLiteral(s);
  }

  /** A mantissa without exponent or sign, with no surrounding whitespace, is a float literal. */
  lemma PlainFloatLiteral(s: string)
    requires Mantissa(s) && s != []
    requires forall i :: 0 <= i < |s| ==> IsDigit(s[i]) || s[i] == '_' || s[i] == '.'
    ensures IsFloatLiteral(s)
  {
    StripUnchanged(s);
    assert SplitSign(Strip(s)).1 == s;
    IndexOfEitherAt(s, 'e', 'E', |s|);
    assert s[..|s|] == s;
  }

  /** `float()` refuses a lone decimal point. */
  lemma FloatLiteralPoint()
    ensures !IsFloatLiteral(".")
  {
    StripUnchanged(".");
    assert IndexOfEither(".", 'e', 'E') == 1;
    assert IndexOfEither(".", '.', '.') == 0;
  }

  /** Every text `int()` accepts is also accepted by `float()`, so the float branch never shadows an int. */
  lemma IntLiteralIsFloatLiteral(s: string)
    requires ParseInt(s).Some?
    ensures IsFloatLiteral(s)
  {
    var body := SplitSign(Strip(s)).1;
    assert IndexOfEither(body, '.', '.') == |body|;
    assert IndexOfEither(body, 'e', 'E') == |body|;
  }

  function DigitChar(d: nat): char
    requires d < 10
  {
    ('0' as int + d) as char
  }

  /** The decimal rendering of a natural number, without leading zeros. */
  function NatToString(n: nat): (s: string)
    ensures |s| > 0 && IsDigit(s[0]) && IsDigit(s[|s| - 1])
    ensures forall i :: 0 <= i < |s| ==> IsDigit(s[i])
  {
    if n < 10 then [DigitChar(n)] else NatToString(n / 10) + [DigitChar(n % 10)]
  }

  /** Python's `str(n)` for an int. */
  function IntToString(n: int): string {
    if n < 0 then "-" + NatToString(-n) else NatToString(n)
  }

  lemma {:induction false} NatToStringValue(n: nat)
    ensures DigitsValue(NatToString(n)) == n
  {
    if n >= 10 {
      var s := NatToString(n);
      assert s[..|s| - 1] == NatToString(n / 10);
      NatToStringValue(n / 10);
    }
  }

  lemma NatToStringDigitPart(n: nat)
    ensures DigitPart(NatToString(n))
  {
  }

  /** `int()` reads back every int that `str()` renders. */
  lemma ParseIntToString(n: int)
    ensures ParseInt(IntToString(n)) == Some(n)
  {
    if n < 0 {
      assert IntToString(n) == "-" + NatToString(-n);
      ParseNegative(-n);
    } else {
      assert IntToString(n) == NatToString(n);
      ParseNatural(n);
    }
  }

  lemma ParseNatural(n: nat)
    ensures ParseInt(NatToString(n)) == Some(n)
  {
    var s := NatToString(n);
    assert Trimmed(s);
    assert SplitSign(s) == (1, s);
    NatToStringDigitPart(n);
    NatToStringValue(n);
    ParseIntTrimmed(s, 1, s);
  }

  lemma ParseNegative(n: nat)
    requires n > 0
    ensures ParseInt("-" + NatToString(n)) == Some(-(n as int))
  {
    var d := NatToString(n);
    var s := "-" + d;
    assert Trimmed(s);
    assert s[1..] == d;
    assert SplitSign(s) == (-1, d);
    NatToStringDigitPart(n);
    NatToStringValue(n);
    ParseIntTrimmed(s, -1, d);
  }

  /** `int()` of a text without surrounding whitespace, once its sign is split off. */
  lemma ParseIntTrimmed(s: string, sign: int, digits: string)
    requires Trimmed(s) && SplitSign(s) == (sign, digits) && DigitPart(digits)
    ensures ParseInt(s) == Some(sign * DigitsValue(digits))
  {
    StripUnchanged(s);
  }

  /** Round trip: a rendered int, bare or in one pair of quotes, converts back to that int. */
  lemma ConvertIntToString(n: int)
    ensures ConvertValue(IntToString(n)) == Int(n)
    ensures ConvertValue("\"" + IntToString(n) + "\"") == Int(n)
  {
    ParseIntToString(n);
    var q := "\"" + IntToString(n) + "\"";
    assert Unquote(q) == IntToString(n);
  }
}
