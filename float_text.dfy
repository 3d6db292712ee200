/**
 * Python's `float` values and the text `float(s)` accepts: the literal
 * grammar of the Python language reference (`floatvalue`), with ASCII
 * digits, single underscores between digits, an optional exponent, and the
 * words `inf`, `infinity` and `nan` in any case.
 */
module FloatText {
  import opened Wrappers
  import opened Text

  /**
   * A Python `float`. A finite value is kept exact: rounding to the nearest
   * double is not modelled, overflow to an infinity is.
   */
  datatype Float = Finite(x: real) | Infinity(negative: bool) | NaN

  /**
   * The least magnitude that rounds to infinity, (2^54 - 1) * 2^970: halfway
   * between the largest finite double, (2^53 - 1) * 2^971, and 2^1024.
   * Rounding half to even goes up there, because the largest double has an
   * odd last digit.
   */
  const Overflow: nat :=
    0xFFFFFFFFFFFFFC00_0000000000000000_0000000000000000_0000000000000000_0000000000000000_0000000000000000_0000000000000000_0000000000000000_0000000000000000_0000000000000000_0000000000000000_0000000000000000_0000000000000000_0000000000000000_0000000000000000_0000000000000000

  /** `v` is closer to zero than the overflow bound. */
  predicate BelowOverflow(v: real) {
    -(Overflow as real) < v < Overflow as real
  }

  /** The double `v` rounds to: itself below the overflow bound, an infinity of its sign from there on. */
  function Round(v: real): (f: Float)
    ensures f.Finite? <==> BelowOverflow(v)
    ensures f.Finite? ==> f.x == v
    ensures f.Infinity? ==> f.negative == (v < 0.0)
    ensures f != NaN
  {
    if v >= Overflow as real then Infinity(false)
    else if v <= -(Overflow as real) then Infinity(true)
    else Finite(v)
  }

  /** `-f`. */
  function Negate(f: Float): Float {
    match f
    case Finite(x) => Finite(-x)
    case Infinity(negative) => Infinity(!negative)
    case NaN => NaN
  }

  // The whitespace `float(s)` strips. CPython turns every non-ASCII
  // whitespace character into a space and then strips ASCII whitespace only,
  // so the separators U+001C to U+001F, which `str.strip()` removes, stay.

  /** A character `float(s)` strips from either end of its text. */
  predicate IsFloatSpace(c: char) {
    IsSpace(c) && !IsSeparator(c)
  }

  /** The file, group, record and unit separators. */
  predicate IsSeparator(c: char) {
    '\U{1C}' <= c <= '\U{1F}'
  }

  ghost predicate AllFloatSpace(s: string) {
    forall i :: 0 <= i < |s| ==> IsFloatSpace(s[i])
  }

  lemma FloatSpaceConcat(a: string, b: string)
    requires AllFloatSpace(a) && AllFloatSpace(b)
    ensures AllFloatSpace(a + b)
  {
    forall i | 0 <= i < |a + b| ensures IsFloatSpace((a + b)[i]) {
      if i < |a| {
        assert (a + b)[i] == a[i];
      } else {
        assert (a + b)[i] == b[i - |a|];
      }
    }
  }

  /** A suffix of `s[1..]` after whitespace is a suffix of `s` after whitespace, when `s[0]` is whitespace too. */
  lemma SpaceBeforeSuffix(s: string, r: string)
    requires s != [] && IsFloatSpace(s[0])
    requires |r| <= |s| - 1 && r == s[1..][|s| - 1 - |r|..] && AllFloatSpace(s[1..][..|s| - 1 - |r|])
    ensures r == s[|s| - |r|..] && AllFloatSpace(s[..|s| - |r|])
  {
    assert s[..|s| - |r|] == [s[0]] + s[1..][..|s| - 1 - |r|];
    FloatSpaceConcat([s[0]], s[1..][..|s| - 1 - |r|]);
  }

  /** The mirror image of `SpaceBeforeSuffix` at the end of `s`. */
  lemma SpaceAfterPrefix(s: string, r: string)
    requires s != [] && IsFloatSpace(s[|s| - 1])
    requires |r| <= |s| - 1 && r == s[..|s| - 1][..|r|] && AllFloatSpace(s[..|s| - 1][|r|..])
    ensures r == s[..|r|] && AllFloatSpace(s[|r|..])
  {
    assert s[|r|..] == s[..|s| - 1][|r|..] + [s[|s| - 1]];
    FloatSpaceConcat(s[..|s| - 1][|r|..], [s[|s| - 1]]);
  }

  /** Drops the leading whitespace `float(s)` strips. */
  function FloatTrimStart(s: string): (r: string)
    ensures |r| <= |s| && r == s[|s| - |r|..]
    ensures AllFloatSpace(s[..|s| - |r|])
    ensures r == [] || !IsFloatSpace(r[0])
  {
    if s != [] && IsFloatSpace(s[0]) then
      var r := FloatTrimStart(s[1..]);
      SpaceBeforeSuffix(s, r);
      r
    else
      assert s[..0] == [];
      s
  }

  /** Drops the trailing whitespace `float(s)` strips. */
  function FloatTrimEnd(s: string): (r: string)
    ensures |r| <= |s| && r == s[..|r|]
    ensures AllFloatSpace(s[|r|..])
    ensures r == [] || !IsFloatSpace(r[|r| - 1])
  {
    if s != [] && IsFloatSpace(s[|s| - 1]) then
      var r := FloatTrimEnd(s[..|s| - 1]);
      SpaceAfterPrefix(s, r);
      r
    else
      assert s[|s|..] == [];
      s
  }

  /** The text `float(s)` reads: `s` without the whitespace it strips at either end. */
  function FloatStrip(s: string): (r: string)
    ensures |r| <= |s|
    ensures r == [] || (!IsFloatSpace(r[0]) && !IsFloatSpace(r[|r| - 1]))
  {
    var t := FloatTrimStart(s);
    var r := FloatTrimEnd(t);
    assert r != [] ==> r[0] == t[0];
    r
  }

  /** What `float(s)` reads is `s` with a run of its whitespace cut from each end. */
  lemma FloatStripIsMiddle(s: string)
    ensures exists i, j :: 0 <= i <= j <= |s| && FloatStrip(s) == s[i..j] && AllFloatSpace(s[..i]) && AllFloatSpace(s[j..])
  {
    var t := FloatTrimStart(s);
    var r := FloatTrimEnd(t);
    MiddleOf(s, t, r);
    var i, j := |s| - |t|, |s| - |t| + |r|;
    assert FloatStrip(s) == s[i..j] && AllFloatSpace(s[..i]) && AllFloatSpace(s[j..]);
  }

  lemma MiddleOf(s: string, t: string, r: string)
    requires |t| <= |s| && t == s[|s| - |t|..]
    requires |r| <= |t| && r == t[..|r|] && AllFloatSpace(t[|r|..])
    ensures r == s[|s| - |t|..|s| - |t| + |r|] && AllFloatSpace(s[|s| - |t| + |r|..])
  {
    assert t[|r|..] == s[|s| - |t| + |r|..];
  }

  lemma {:induction false} FloatTrimStartSkips(p: string, s: string)
    requires AllFloatSpace(p)
    ensures FloatTrimStart(p + s) == FloatTrimStart(s)
  {
    if p != [] {
      assert (p + s)[0] == p[0] && IsFloatSpace(p[0]);
      assert (p + s)[1..] == p[1..] + s;
      FloatTrimStartSkips(p[1..], s);
    } else {
      assert p + s == s;
    }
  }

  lemma {:induction false} FloatTrimEndSkips(s: string, q: string)
    requires AllFloatSpace(q)
    ensures FloatTrimEnd(s + q) == FloatTrimEnd(s)
  {
    if q != [] {
      assert (s + q)[|s + q| - 1] == q[|q| - 1] && IsFloatSpace(q[|q| - 1]);
      assert (s + q)[..|s + q| - 1] == s + q[..|q| - 1];
      FloatTrimEndSkips(s, q[..|q| - 1]);
    } else {
      assert s + q == s;
    }
  }

  /**
   * The middle is unique: whenever `s` is float whitespace, then text with
   * none at either end, then float whitespace, `float(s)` reads that text.
   */
  lemma FloatStripUnique(p: string, t: string, q: string)
    requires AllFloatSpace(p) && AllFloatSpace(q)
    requires t == [] || (!IsFloatSpace(t[0]) && !IsFloatSpace(t[|t| - 1]))
    ensures FloatStrip(p + t + q) == t
  {
    assert p + t + q == p + (t + q);
    FloatTrimStartSkips(p, t + q);
    if t == [] {
      assert t + q == [] + q;
      FloatTrimStartSkips(q, []);
      assert q + [] == q;
    } else {
      assert FloatTrimStart(t + q) == t + q;
      FloatTrimEndSkips(t, q);
      assert FloatTrimEnd(t) == t;
    }
  }

  /** Text that `str.strip()` leaves alone is read as it stands. */
  lemma FloatStripTrimmed(t: string)
    requires Trimmed(t)
    ensures FloatStrip(t) == t
  {
    FloatStripKeeps(t);
  }

  /** Text with no stripped whitespace at either end is read as it stands. */
  lemma FloatStripKeeps(t: string)
    requires t == [] || (!IsFloatSpace(t[0]) && !IsFloatSpace(t[|t| - 1]))
    ensures FloatStrip(t) == t
  {
  }

  /** Without separators in the text, `float(s)` strips exactly what `str.strip()` does. */
  lemma FloatStripAsStrip(s: string)
    requires forall i :: 0 <= i < |s| ==> !IsSeparator(s[i])
    ensures FloatStrip(s) == Strip(s)
  {
    FloatTrimStartAsTrimStart(s);
    var t := TrimStart(s);
    assert forall i :: 0 <= i < |t| ==> t[i] == s[|s| - |t| + i];
    FloatTrimEndAsTrimEnd(t);
  }

  lemma {:induction false} FloatTrimStartAsTrimStart(s: string)
    requires forall i :: 0 <= i < |s| ==> !IsSeparator(s[i])
    ensures FloatTrimStart(s) == TrimStart(s)
  {
    if s != [] && IsSpace(s[0]) {
      assert forall i :: 0 <= i < |s[1..]| ==> s[1..][i] == s[i + 1];
      FloatTrimStartAsTrimStart(s[1..]);
    }
  }

  lemma {:induction false} FloatTrimEndAsTrimEnd(s: string)
    requires forall i :: 0 <= i < |s| ==> !IsSeparator(s[i])
    ensures FloatTrimEnd(s) == TrimEnd(s)
  {
    if s != [] && IsSpace(s[|s| - 1]) {
      assert forall i :: 0 <= i < |s| - 1 ==> s[..|s| - 1][i] == s[i];
      FloatTrimEndAsTrimEnd(s[..|s| - 1]);
    }
  }

  /** A leading separator stays in what `float(s)` reads, though `str.strip()` removes it. */
  lemma SeparatorKept()
    ensures FloatStrip("\U{1C}1") == "\U{1C}1"
    ensures Strip("\U{1C}1") == "1"
  {
    FloatStripKeeps("\U{1C}1");
    SeparatorStripped();
  }

  lemma SeparatorStripped()
    ensures Strip("\U{1C}1") == "1"
  {
    SpaceThenText('\U{1C}', '1');
  }

  /** `str.strip()` drops one whitespace character in front of a non-whitespace one. */
  lemma SpaceThenText(c: char, d: char)
    requires IsSpace(c) && !IsSpace(d)
    ensures Strip([c, d]) == [d]
  {
    var p, t, q: string := [c], [d], [];
    assert AllSpace(p) && Trimmed(t) && AllSpace(q);
    StripUnique(p, t, q);
    assert p + t + q == [c, d];
  }

  predicate DigitsOrUnderscores(s: string) {
    forall i :: 0 <= i < |s| ==> IsDigit(s[i]) || s[i] == '_'
  }

  /** `digitpart ::= digit (["_"] digit)*`: ASCII digits, a single underscore allowed between two of them. */
  predicate IsDigitPart(s: string)
    decreases |s|
  {
    && s != [] && IsDigit(s[0])
    && (|s| == 1 || IsDigitPart(s[1..]) || (s[1] == '_' && IsDigitPart(s[2..])))
  }

  /** A digit part holds digits and underscores only. */
  lemma {:induction false} DigitPartChars(s: string)
    requires IsDigitPart(s)
    ensures DigitsOrUnderscores(s)
  {
    if |s| > 1 {
      if IsDigitPart(s[1..]) {
        DigitPartChars(s[1..]);
        assert forall i :: 1 <= i < |s| ==> s[i] == s[1..][i - 1];
      } else {
        DigitPartChars(s[2..]);
        assert forall i :: 2 <= i < |s| ==> s[i] == s[2..][i - 2];
      }
    }
  }

  /** The digits of `s` in their order, underscores dropped. */
  function DropUnderscores(s: string): (r: string)
    ensures DigitsOrUnderscores(s) ==> AllDigits(r)
    ensures AllDigits(s) ==> r == s
  {
    if s == [] then []
    else
      var rest := DropUnderscores(s[1..]);
      assert DigitsOrUnderscores(s) ==> DigitsOrUnderscores(s[1..]);
      if s[0] == '_' then rest else [s[0]] + rest
  }

  /** The number an optional digit part spells, 0 when it is absent. */
  function PartValue(p: string): nat
    requires p == [] || IsDigitPart(p)
  {
    assert DigitsOrUnderscores(p) by {
      if p != [] { DigitPartChars(p); }
    }
    DigitsValue(DropUnderscores(p))
  }

  /** Index of the first character of `s` in `cs`, or `|s|` when there is none. */
  function FirstOf(s: string, cs: set<char>): (k: nat)
    ensures k <= |s|
    ensures forall i :: 0 <= i < k ==> s[i] !in cs
    ensures k < |s| ==> s[k] in cs
  {
    if s == [] || s[0] in cs then 0 else 1 + FirstOf(s[1..], cs)
  }

  /** `v * 10 ** k` for any integer `k`: the decimal point moved `k` places to the right. */
  function Shift(v: real, k: int): (r: real)
    requires v >= 0.0
    ensures r >= 0.0
    decreases if k < 0 then -k else k
  {
    if k == 0 then v else if k > 0 then Shift(v, k - 1) * 10.0 else Shift(v, k + 1) / 10.0
  }

  /** The value of the digits after a point: `p` read as a decimal fraction. */
  function FractionValue(p: string): (r: real)
    requires p == [] || IsDigitPart(p)
    ensures r >= 0.0
  {
    Shift(PartValue(p) as real, -|DropUnderscores(p)|)
  }

  /**
   * `[digitpart] "." digitpart | digitpart ["."]`: the value of the digits
   * before the point plus the fraction after it.
   */
  function ParseMantissa(m: string): (r: Option<real>)
    ensures r.Some? ==> m != [] && r.value >= 0.0
  {
    var dot := FirstOf(m, {'.'});
    if dot < |m| then MantissaValue(m[..dot], m[dot + 1..]) else MantissaValue(m, [])
  }

  /** The digits around the point, each side a digit part or absent, not both absent. */
  function MantissaValue(whole: string, fraction: string): (r: Option<real>)
    ensures r.Some? ==> (whole != [] || fraction != []) && r.value >= 0.0
  {
    if (whole == [] || IsDigitPart(whole)) && (fraction == [] || IsDigitPart(fraction)) && (whole != [] || fraction != []) then
      Some(PartValue(whole) as real + FractionValue(fraction))
    else
      None
  }

  /** `[sign] digitpart`, the text after the `e` of an exponent. */
  function ParseExponent(x: string): Option<int> {
    var digits := if x != [] && (x[0] == '-' || x[0] == '+') then x[1..] else x;
    if IsDigitPart(digits) then
      var n: int := PartValue(digits);
      Some(if x[0] == '-' then -n else n)
    else
      None
  }

  /** `floatnumber ::= number [exponent]`: the exact, unsigned value. */
  function ParseNumber(b: string): (r: Option<real>)
    ensures r.Some? ==> b != [] && r.value >= 0.0
  {
    var e := FirstOf(b, {'e', 'E'});
    match ParseMantissa(b[..e])
    case None => None
    case Some(m) =>
      if e == |b| then Some(m)
      else
        match ParseExponent(b[e + 1..])
        case None => None
        case Some(k) => Some(Shift(m, k))
  }

  /** ASCII `c.lower()`. */
  function LowerAscii(c: char): char {
    if 'A' <= c <= 'Z' then (c as int + 32) as char else c
  }

  /** `s.lower() == word` over ASCII letters. */
  predicate EqualsIgnoringCase(s: string, word: string) {
    |s| == |word| && forall i :: 0 <= i < |s| ==> LowerAscii(s[i]) == word[i]
  }

  /** `infinity ::= "Infinity" | "inf"` and `nan ::= "nan"`, in any case. */
  predicate IsSpecialWord(s: string) {
    EqualsIgnoringCase(s, "inf") || EqualsIgnoringCase(s, "infinity") || EqualsIgnoringCase(s, "nan")
  }

  /** `t` without its leading sign. */
  function Unsigned(t: string): string {
    if t != [] && (t[0] == '-' || t[0] == '+') then t[1..] else t
  }

  /** The float a sign-free `body` spells, negated when `negative`. */
  function ParseBody(body: string, negative: bool): (r: Option<Float>)
    ensures r.Some? && r.value.Infinity? ==> r.value.negative == negative
    ensures r == Some(NaN) <==> EqualsIgnoringCase(body, "nan")
  {
    assert EqualsIgnoringCase(body, "nan") ==> LowerAscii(body[0]) == 'n';
    if EqualsIgnoringCase(body, "inf") || EqualsIgnoringCase(body, "infinity") then
      Some(Infinity(negative))
    else if EqualsIgnoringCase(body, "nan") then
      Some(NaN)
    else
      match ParseNumber(body)
      case Some(v) => Some(Round(if negative then -v else v))
      case None => None
  }

  /**
   * `float(t)` for a string that is already stripped. `None` stands for the
   * `ValueError` raised on text that is not a float literal.
   */
  function ParseFloat(t: string): (r: Option<Float>)
    ensures r == Some(NaN) <==> EqualsIgnoringCase(Unsigned(t), "nan")
    ensures r.Some? && r.value.Infinity? ==> r.value.negative == (t != [] && t[0] == '-')
  {
    ParseBody(Unsigned(t), t != [] && t[0] == '-')
  }

  // The grammar of the language reference, written out as an independent
  // definition of the text `ParseFloat` accepts.

  /** Where the point of `[digitpart] "." digitpart | digitpart "."` may stand. */
  predicate PointSplit(m: string, j: nat)
    requires j < |m|
  {
    || ((j == 0 || IsDigitPart(m[..j])) && IsDigitPart(m[j + 1..]))
    || (IsDigitPart(m[..j]) && j == |m| - 1)
  }

  /** `number ::= [digitpart] "." digitpart | digitpart ["."]`. */
  ghost predicate IsNumberText(m: string) {
    || IsDigitPart(m)
    || exists j: nat :: j < |m| && m[j] == '.' && PointSplit(m, j)
  }

  /** `exponent ::= ("e" | "E") [sign] digitpart`. */
  predicate IsExponentText(x: string) {
    && |x| >= 2 && (x[0] == 'e' || x[0] == 'E')
    && (IsDigitPart(x[1..]) || ((x[1] == '+' || x[1] == '-') && IsDigitPart(x[2..])))
  }

  /** `floatnumber ::= number [exponent]`. */
  ghost predicate IsFloatNumberText(b: string) {
    exists e: nat :: e <= |b| && IsNumberText(b[..e]) && (e == |b| || IsExponentText(b[e..]))
  }

  /** `floatvalue ::= [sign] (floatnumber | infinity | nan)`. */
  ghost predicate IsFloatValueText(t: string) {
    || IsSpecialWord(t)
    || IsFloatNumberText(t)
    || (t != [] && (t[0] == '+' || t[0] == '-') && (IsSpecialWord(t[1..]) || IsFloatNumberText(t[1..])))
  }

  /** The first index of a character from `cs` is the one before which none occurs and at which one does. */
  lemma FirstOfIs(s: string, cs: set<char>, k: nat)
    requires k <= |s| && (k < |s| ==> s[k] in cs)
    requires forall i :: 0 <= i < k ==> s[i] !in cs
    ensures FirstOf(s, cs) == k
  {
  }

  /** A number is non-empty and made of digits, underscores and at most a point. */
  lemma NumberTextChars(m: string)
    ensures IsNumberText(m) ==> m != []
    ensures IsNumberText(m) ==> forall i :: 0 <= i < |m| ==> IsDigit(m[i]) || m[i] == '_' || m[i] == '.'
  {
    if !IsNumberText(m) {
    } else if IsDigitPart(m) {
      DigitPartChars(m);
    } else {
      var j: nat :| j < |m| && m[j] == '.' && PointSplit(m, j);
      var whole, fraction := m[..j], m[j + 1..];
      if whole != [] { DigitPartChars(whole); }
      if fraction != [] { DigitPartChars(fraction); }
      forall i | 0 <= i < |m| ensures IsDigit(m[i]) || m[i] == '_' || m[i] == '.' {
        if i < j {
          assert m[i] == whole[i];
        } else if i > j {
          assert m[i] == fraction[i - j - 1];
        }
      }
    }
  }

  /** `ParseMantissa` accepts exactly the `number` texts. */
  lemma MantissaGrammar(m: string)
    ensures ParseMantissa(m).Some? <==> IsNumberText(m)
  {
    if ParseMantissa(m).Some? {
      MantissaIsNumber(m);
    }
    if IsNumberText(m) {
      if IsDigitPart(m) {
        DigitPartIsMantissa(m);
      } else {
        var j: nat :| j < |m| && m[j] == '.' && PointSplit(m, j);
        PointSplitIsMantissa(m, j);
      }
    }
  }

  lemma MantissaIsNumber(m: string)
    requires ParseMantissa(m).Some?
    ensures IsNumberText(m)
  {
    var dot := FirstOf(m, {'.'});
    if dot == |m| {
      assert m[..dot] == m;
    } else {
      assert PointSplit(m, dot);
    }
  }

  lemma DigitPartIsMantissa(m: string)
    requires IsDigitPart(m)
    ensures ParseMantissa(m).Some?
  {
    DigitPartChars(m);
    FirstOfIs(m, {'.'}, |m|);
    assert m[..|m|] == m;
  }

  lemma PointSplitIsMantissa(m: string, j: nat)
    requires j < |m| && m[j] == '.' && PointSplit(m, j)
    ensures ParseMantissa(m).Some?
  {
    if j > 0 {
      DigitPartChars(m[..j]);
    }
    forall i | 0 <= i < j ensures m[i] !in {'.'} {
      assert m[i] == m[..j][i];
    }
    FirstOfIs(m, {'.'}, j);
  }

  /** `ParseExponent` accepts what follows the letter of an `exponent`. */
  lemma ExponentGrammar(x: string)
    requires x != [] && (x[0] == 'e' || x[0] == 'E')
    ensures ParseExponent(x[1..]).Some? <==> IsExponentText(x)
  {
    if |x| >= 2 {
      assert x[1..][1..] == x[2..];
    }
  }

  /** `ParseNumber` accepts exactly the `floatnumber` texts. */
  lemma NumberGrammar(b: string)
    ensures ParseNumber(b).Some? <==> IsFloatNumberText(b)
  {
    if ParseNumber(b).Some? {
      ParsedIsFloatNumber(b);
    }
    if IsFloatNumberText(b) {
      var k: nat :| k <= |b| && IsNumberText(b[..k]) && (k == |b| || IsExponentText(b[k..]));
      SplitIsParsed(b, k);
    }
  }

  lemma ParsedIsFloatNumber(b: string)
    requires ParseNumber(b).Some?
    ensures IsFloatNumberText(b)
  {
    var e := FirstOf(b, {'e', 'E'});
    assert ParseMantissa(b[..e]).Some?;
    MantissaGrammar(b[..e]);
    if e < |b| {
      assert b[e..][1..] == b[e + 1..];
      assert ParseExponent(b[e + 1..]).Some?;
      ExponentGrammar(b[e..]);
    }
    assert IsNumberText(b[..e]) && (e == |b| || IsExponentText(b[e..]));
  }

  lemma SplitIsParsed(b: string, k: nat)
    requires k <= |b| && IsNumberText(b[..k]) && (k == |b| || IsExponentText(b[k..]))
    ensures ParseNumber(b).Some?
  {
    NumberTextChars(b[..k]);
    forall i | 0 <= i < k ensures b[i] !in {'e', 'E'} {
      assert b[i] == b[..k][i];
    }
    FirstOfIs(b, {'e', 'E'}, k);
    MantissaGrammar(b[..k]);
    if k < |b| {
      assert b[k..][1..] == b[k + 1..];
      ExponentGrammar(b[k..]);
    }
  }

  /** A text that starts with a sign is neither a bare number nor a bare word. */
  lemma SignedIsNotBare(t: string)
    requires t != [] && (t[0] == '+' || t[0] == '-')
    ensures !IsFloatNumberText(t) && !IsSpecialWord(t)
  {
    forall k: nat | k <= |t| ensures !IsNumberText(t[..k]) {
      NumberTextChars(t[..k]);
      if k > 0 {
        assert t[..k][0] == t[0];
      }
    }
    assert LowerAscii(t[0]) == t[0];
  }

  /** `float()` accepts a stripped text exactly when the language reference's grammar derives it. */
  lemma ParseFloatGrammar(t: string)
    ensures ParseFloat(t).Some? <==> IsFloatValueText(t)
  {
    var body := Unsigned(t);
    NumberGrammar(body);
    if t != [] && (t[0] == '-' || t[0] == '+') {
      SignedIsNotBare(t);
    }
  }

  /** A plain run of digits is a number worth what the digits spell, and not a word. */
  lemma DigitsNumber(s: string)
    requires s != [] && AllDigits(s)
    ensures ParseNumber(s) == Some(DigitsValue(s) as real)
    ensures !IsSpecialWord(s)
  {
    PlainNumber(s);
    DigitsValueMantissa(s);
    assert LowerAscii(s[0]) == s[0];
  }

  lemma DigitsMantissa(s: string)
    requires s != [] && AllDigits(s)
    ensures ParseMantissa(s) == Some(DigitsValue(s) as real)
  {
    NoPointMantissa(s);
    DigitsValueMantissa(s);
  }

  lemma NoPointMantissa(s: string)
    requires s != [] && AllDigits(s)
    ensures ParseMantissa(s) == MantissaValue(s, [])
  {
    FirstOfIs(s, {'.'}, |s|);
  }

  lemma DigitsValueMantissa(s: string)
    requires s != [] && AllDigits(s)
    ensures MantissaValue(s, []) == Some(DigitsValue(s) as real)
  {
    DigitsArePart(s);
    NoFraction();
    var v := PartValue(s) as real + FractionValue([]);
    assert v == DigitsValue(s) as real;
  }

  lemma {:induction false} DigitsArePart(s: string)
    requires s != [] && AllDigits(s)
    ensures IsDigitPart(s) && PartValue(s) == DigitsValue(s)
  {
    if |s| > 1 {
      assert AllDigits(s[1..]);
      DigitsArePart(s[1..]);
    }
  }

  lemma NoFraction()
    ensures FractionValue([]) == 0.0
  {
    assert PartValue([]) == 0;
  }

  /** `-r` on a conversion result. */
  function NegateResult(r: Option<Float>): Option<Float> {
    match r
    case Some(f) => Some(Negate(f))
    case None => None
  }

  /** Reading a body as negative negates what it is worth. */
  lemma NegatedBody(body: string)
    ensures ParseBody(body, true) == NegateResult(ParseBody(body, false))
  {
    if !IsSpecialWord(body) && ParseNumber(body).Some? {
      var v := ParseNumber(body).value;
      assert Round(-v) == Negate(Round(v));
    }
  }

  /** A leading `-` negates what the rest of the text is worth, and a leading `+` changes nothing. */
  lemma SignedText(t: string)
    requires t == [] || (t[0] != '-' && t[0] != '+')
    ensures ParseFloat("-" + t) == NegateResult(ParseFloat(t))
    ensures ParseFloat("+" + t) == ParseFloat(t)
  {
    assert Unsigned("-" + t) == t by { assert ("-" + t)[1..] == t; }
    assert Unsigned("+" + t) == t by { assert ("+" + t)[1..] == t; }
    NegatedBody(t);
  }

  /** `float("1e3")` is 1000: an exponent scales the digits. */
  lemma ExponentLiteral()
    ensures ParseFloat("1e3") == Some(Finite(1000.0))
  {
    ExponentNumber();
    assert LowerAscii("1e3"[0]) == '1';
    assert Round(1000.0) == Finite(1000.0);
  }

  lemma ExponentNumber()
    ensures ParseNumber("1e3") == Some(1000.0)
  {
    var t := "1e3";
    FirstOfIs(t, {'e', 'E'}, 1);
    assert t[..1] == "1" && t[2..] == "3";
    assert DigitsValue("1") == 1 by { assert "1"[..0] == ""; }
    DigitsMantissa("1");
    assert DigitsValue("3") == 3 by { assert "3"[..0] == ""; }
    assert ParseExponent("3") == Some(3);
    assert Shift(1.0, 3) == 1000.0;
  }

  /** `float("1_000")` is 1000: an underscore between digits is dropped. */
  lemma UnderscoreLiteral()
    ensures ParseFloat("1_000") == Some(Finite(1000.0))
  {
    UnderscoreNumber();
    assert LowerAscii("1_000"[0]) == '1';
    assert Round(1000.0) == Finite(1000.0);
  }

  lemma UnderscoreNumber()
    ensures ParseNumber("1_000") == Some(1000.0)
  {
    PlainNumber("1_000");
    UnderscoreDigits();
    NoFraction();
  }

  lemma UnderscoreDigits()
    ensures IsDigitPart("1_000") && PartValue("1_000") == 1000
  {
    var t := "1_000";
    assert t[1..] == "_000" && t[2..] == "000";
    assert DropUnderscores(t) == "1000" by {
      assert t[1..][1..] == "000";
    }
    ThousandDigits();
  }

  lemma ThousandDigits()
    ensures DigitsValue("1000") == 1000
  {
    assert DigitsValue("10") == 10 by { assert "10"[..1] == "1" && "1"[..0] == ""; }
    assert "1000"[..3] == "100" && "100"[..2] == "10";
  }

  /** Text with neither a point nor an exponent is read as a whole number. */
  lemma PlainNumber(s: string)
    requires forall i :: 0 <= i < |s| ==> s[i] != '.' && s[i] != 'e' && s[i] != 'E'
    ensures ParseNumber(s) == MantissaValue(s, [])
  {
    FirstOfIs(s, {'e', 'E'}, |s|);
    assert s[..|s|] == s;
    FirstOfIs(s, {'.'}, |s|);
  }

  /** The words `inf`, `infinity` and `nan` are read in any case, with an optional sign. */
  lemma SpecialWords()
    ensures ParseFloat("inf") == Some(Infinity(false))
    ensures ParseFloat("-Infinity") == Some(Infinity(true))
    ensures ParseFloat("nan") == Some(NaN)
  {
    InfinityWord();
  }

  lemma InfinityWord()
    ensures ParseFloat("-Infinity") == Some(Infinity(true))
  {
    assert Unsigned("-Infinity") == "Infinity";
    assert EqualsIgnoringCase("Infinity", "infinity");
  }

  /** Two underscores in a row, an exponent without digits and a bare point are refused. */
  lemma MalformedLiterals()
    ensures ParseFloat("1__0") == None
    ensures ParseFloat("1e") == None
    ensures ParseFloat(".") == None
  {
    DoubleUnderscore();
    EmptyExponent();
    BarePoint();
  }

  lemma DoubleUnderscore()
    ensures ParseFloat("1__0") == None
  {
    assert !IsDigitPart("1__0") by { assert "1__0"[1..] == "__0" && "1__0"[2..] == "_0"; }
    PlainNumber("1__0");
    assert LowerAscii("1__0"[0]) == '1';
  }

  lemma EmptyExponent()
    ensures ParseFloat("1e") == None
  {
    FirstOfIs("1e", {'e', 'E'}, 1);
    assert "1e"[2..] == [];
    assert LowerAscii("1e"[0]) == '1';
  }

  lemma BarePoint()
    ensures ParseFloat(".") == None
  {
    FirstOfIs(".", {'e', 'E'}, 1);
    FirstOfIs(".", {'.'}, 0);
    assert "."[1..] == [];
    assert LowerAscii("."[0]) == '.';
  }
}
