/**
 * The Python objects a request payload can carry into the core, their truth
 * value (`not v`) and the built-in `float(v)` that the amount goes through.
 */
module PythonValues {
  import opened Wrappers
  import opened Text
  import opened Calendar
  import opened FloatText

  /**
   * A Python object as the core sees it. JSON gives `None`, booleans, ints,
   * floats, strings, lists and dicts (only their length matters here);
   * `PyDate` is a `datetime.date` handed over by Python code.
   */
  datatype Value =
    | PyNone
    | PyBool(b: bool)
    | PyInt(i: int)
    | PyFloat(f: Float)
    | PyStr(s: string)
    | PyDate(d: Date)
    | PyList(length: nat)
    | PyDict(length: nat)

  /** The type name Python prints in its error messages. */
  function TypeName(v: Value): string {
    match v
    case PyNone => "NoneType"
    case PyBool(_) => "bool"
    case PyInt(_) => "int"
    case PyFloat(_) => "float"
    case PyStr(_) => "str"
    case PyDate(_) => "datetime.date"
    case PyList(_) => "list"
    case PyDict(_) => "dict"
  }

  /** The falsy objects of Python: `None`, `False`, zero and the empty string, list and dict. */
  const Falsy: set<Value> := {PyNone, PyBool(false), PyInt(0), PyFloat(Finite(0.0)), PyStr(""), PyList(0), PyDict(0)}

  /** `bool(v)`. */
  predicate Truthy(v: Value): (b: bool)
    ensures b <==> v !in Falsy
  {
    match v
    case PyNone => false
    case PyBool(b) => b
    case PyInt(i) => i != 0
    case PyFloat(f) => f != Finite(0.0)
    case PyStr(s) => s != []
    case PyDate(_) => true
    case PyList(n) => n > 0
    case PyDict(n) => n > 0
  }

  /**
   * `float(v)`: `None` stands for the exception it raises, a `TypeError`
   * for objects that are not numbers or strings, an `OverflowError` for an
   * int too large for a double, a `ValueError` for text that is not a float
   * literal. Booleans count as 1 and 0; strings are stripped and then read.
   */
  function ToFloat(v: Value): (r: Option<Float>)
    ensures v.PyInt? ==> (r.Some? <==> BelowOverflow(v.i as real))
    ensures v.PyInt? && r.Some? ==> r.value == Finite(v.i as real)
    ensures v.PyFloat? ==> r == Some(v.f)
    ensures v.PyNone? || v.PyDate? || v.PyList? || v.PyDict? ==> r == None
  {
    match v
    case PyNone => None
    case PyBool(b) => Some(Finite(if b then 1.0 else 0.0))
    case PyInt(i) => if BelowOverflow(i as real) then Some(Finite(i as real)) else None
    case PyFloat(f) => Some(f)
    case PyStr(s) => ParseFloat(FloatStrip(s))
    case PyDate(_) => None
    case PyList(_) => None
    case PyDict(_) => None
  }

  /**
   * `float(s)` accepts a string exactly when the text it reads, `s` without
   * the whitespace `float` strips, is a float literal.
   */
  lemma StringToFloat(s: string)
    ensures ToFloat(PyStr(s)).Some? <==> IsFloatValueText(FloatStrip(s))
  {
    StringToFloatIs(s);
    ParseFloatGrammar(FloatStrip(s));
  }

  /**
   * A leading unit separator makes `float()` raise, although `str.strip()`
   * would remove it: the two strip different sets of characters.
   */
  lemma SeparatorRefused()
    ensures ToFloat(PyStr("\U{1C}1")) == None
  {
    SeparatorKept();
    StringToFloatIs("\U{1C}1");
    SeparatorText();
  }

  lemma SeparatorText()
    ensures ParseFloat("\U{1C}1") == None
  {
    var t := "\U{1C}1";
    FirstOfIs(t, {'e', 'E'}, 2);
    FirstOfIs(t, {'.'}, 2);
    assert t[..2] == t;
    assert !IsDigitPart(t);
  }

  /** The decimal text of `n`: a minus sign when it is negative, then its digits. */
  function IntText(n: int): (s: string)
    ensures s != [] && Trimmed(s)
  {
    if n < 0 then "-" + NatText(-n) else NatText(n)
  }

  /** Reading the decimal text of `n` gives `n`, rounded: an infinity when it is beyond the range of a double. */
  lemma IntTextParse(n: int)
    ensures ParseFloat(IntText(n)) == Some(Round(n as real))
  {
    if n < 0 {
      NegativeTextParse(n);
    } else {
      NatTextValue(n);
      DigitsNumber(NatText(n));
    }
  }

  lemma NegativeTextParse(n: int)
    requires n < 0
    ensures ParseFloat(IntText(n)) == Some(Round(n as real))
  {
    var m: nat := -n;
    NatTextValue(m);
    assert IntText(n) == "-" + NatText(m);
    MinusDigits(NatText(m));
  }

  lemma MinusDigits(digits: string)
    requires digits != [] && AllDigits(digits)
    ensures ParseFloat("-" + digits) == Some(Round(-(DigitsValue(digits) as real)))
  {
    assert ("-" + digits)[1..] == digits;
    MinusSign("-" + digits);
    NegatedDigits(digits);
  }

  lemma MinusSign(t: string)
    requires t != [] && t[0] == '-'
    ensures ParseFloat(t) == ParseBody(t[1..], true)
  {
  }

  lemma NegatedDigits(digits: string)
    requires digits != [] && AllDigits(digits)
    ensures ParseBody(digits, true) == Some(Round(-(DigitsValue(digits) as real)))
  {
    PlainDigits(digits);
    NegatedBody(digits);
    var v := DigitsValue(digits) as real;
    assert Negate(Round(v)) == Round(-v);
  }

  lemma PlainDigits(digits: string)
    requires digits != [] && AllDigits(digits)
    ensures ParseBody(digits, false) == Some(Round(DigitsValue(digits) as real))
  {
    DigitsNumber(digits);
  }

  /**
   * `float()` of the decimal text of `n` never raises, unlike `float(n)` for a huge `n`, and is
   * worth `n` whenever `float(n)` is.
   */
  lemma IntTextToFloat(n: int)
    ensures ToFloat(PyStr(IntText(n))) == Some(Round(n as real))
    ensures ToFloat(PyInt(n)).Some? ==> ToFloat(PyStr(IntText(n))) == ToFloat(PyInt(n))
  {
    TrimmedToFloat(IntText(n));
    IntTextParse(n);
  }

  /** Text without surrounding whitespace is read as it stands. */
  lemma TrimmedToFloat(t: string)
    requires Trimmed(t)
    ensures ToFloat(PyStr(t)) == ParseFloat(t)
  {
    FloatStripTrimmed(t);
  }

  /** A decimal string with surrounding blanks converts to its value. */
  lemma PaddedDecimalToFloat()
    ensures ToFloat(PyStr(" 4.5 ")) == Some(Finite(4.5))
  {
    PaddedDecimalStrips();
    StringToFloatIs(" 4.5 ");
    DecimalFractionParses();
  }

  lemma StringToFloatIs(s: string)
    ensures ToFloat(PyStr(s)) == ParseFloat(FloatStrip(s))
  {
  }

  lemma PaddedDecimalStrips()
    ensures FloatStrip(" 4.5 ") == "4.5"
  {
    assert AllSpace(" ") by { assert " "[0] == ' '; }
    assert Trimmed("4.5") by { assert "4.5"[0] == '4' && "4.5"[2] == '5'; }
    StripUnique(" ", "4.5", " ");
    assert " " + "4.5" + " " == " 4.5 ";
    FloatStripAsStrip(" 4.5 ");
  }

  lemma DecimalFractionParses()
    ensures ParseFloat("4.5") == Some(Finite(4.5))
  {
    DecimalNumber();
    assert LowerAscii("4.5"[0]) == '4';
    assert Round(4.5) == Finite(4.5);
  }

  lemma DecimalNumber()
    ensures ParseNumber("4.5") == Some(4.5)
  {
    var t := "4.5";
    FirstOfIs(t, {'e', 'E'}, 3);
    assert t[..3] == t;
    FirstOfIs(t, {'.'}, 1);
    assert t[..1] == "4" && t[2..] == "5";
    DigitsAndFraction();
  }

  lemma DigitsAndFraction()
    ensures MantissaValue("4", "5") == Some(4.5)
  {
    DigitsArePart("4");
    DigitsArePart("5");
    assert DigitsValue("4") == 4 by { assert "4"[..0] == ""; }
    assert DigitsValue("5") == 5 by { assert "5"[..0] == ""; }
    assert AllDigits("5") && AllDigits("4");
    assert DropUnderscores("5") == "5";
    assert PartValue("5") == 5 && PartValue("4") == 4;
    assert Shift(5.0, -1) == Shift(5.0, 0) / 10.0;
    assert FractionValue("5") == 0.5;
  }
}
