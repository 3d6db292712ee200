/**
 * The value objects of a finance entry: each constructor either keeps one
 * normalised field value or raises.
 */
module ValueObjects {
  import opened Wrappers
  import opened Text
  import opened Calendar
  import opened FloatText
  import opened PythonValues

  const DescriptionEmpty := "Description cannot be empty"
  const AmountInvalid := "Amount must be a valid number"
  const CategoryEmpty := "Category cannot be empty"
  const DateFormatInvalid := "Invalid date format (use YYYY-MM-DD)"
  const DateTypeInvalid := "Date must be a string or a datetime.date instance"

  datatype Description = Description(value: string)

  datatype Amount = Amount(value: Float)

  datatype Category = Category(value: string)

  datatype EntryDate = EntryDate(value: Date) {
    /** `str(entry_date)`: ISO text that `date.fromisoformat` reads back as the same date. */
    function ToString(): (s: string)
      ensures |s| == 10 && FromIsoFormat(s) == Some(value)
    {
      IsoFormatRoundTrip(value);
      IsoFormat(value)
    }
  }

  /** Some character of `s` is not whitespace. */
  ghost predicate HasNonSpace(s: string) {
    exists i :: 0 <= i < |s| && !IsSpace(s[i])
  }

  /** What Python says when `v.strip` is looked up on an object that is not a string. */
  function NoStripMessage(v: Value): string {
    "'" + TypeName(v) + "' object has no attribute 'strip'"
  }

  /**
   * The check Description and Category share: `not value` or
   * `not value.strip()` raises ValueError with `emptyMessage`, a truthy
   * non-string raises AttributeError on `strip`, otherwise the stripped text.
   */
  function StrippedText(v: Value, emptyMessage: string): (r: Result<string>)
    ensures r.Ok? <==> v.PyStr? && HasNonSpace(v.s)
    ensures r.Ok? ==> r.value == Strip(v.s) && r.value != [] && Trimmed(r.value)
    ensures r.Err? ==> r.error == if v.PyStr? || !Truthy(v) then ValueError(emptyMessage) else AttributeError(NoStripMessage(v))
  {
    if !Truthy(v) then
      Err(ValueError(emptyMessage))
    else if !v.PyStr? then
      Err(AttributeError(NoStripMessage(v)))
    else
      StripEmptyIff(v.s);
      if Strip(v.s) == [] then Err(ValueError(emptyMessage)) else Ok(Strip(v.s))
  }

  /** `Description(value)`. */
  function NewDescription(v: Value): (r: Result<Description>)
    ensures r.Ok? <==> v.PyStr? && HasNonSpace(v.s)
    ensures r.Ok? ==> r.value.value == Strip(v.s) && r.value.value != [] && Trimmed(r.value.value)
    ensures r.Err? && (v.PyStr? || !Truthy(v)) ==> r.error == ValueError(DescriptionEmpty)
    ensures r.Err? && !v.PyStr? && Truthy(v) ==> r.error == AttributeError(NoStripMessage(v))
  {
    match StrippedText(v, DescriptionEmpty)
    case Ok(t) => Ok(Description(t))
    case Err(e) => Err(e)
  }

  /** `Category(value)`. */
  function NewCategory(v: Value): (r: Result<Category>)
    ensures r.Ok? <==> v.PyStr? && HasNonSpace(v.s)
    ensures r.Ok? ==> r.value.value == Strip(v.s) && r.value.value != [] && Trimmed(r.value.value)
    ensures r.Err? && (v.PyStr? || !Truthy(v)) ==> r.error == ValueError(CategoryEmpty)
    ensures r.Err? && !v.PyStr? && Truthy(v) ==> r.error == AttributeError(NoStripMessage(v))
  {
    match StrippedText(v, CategoryEmpty)
    case Ok(t) => Ok(Category(t))
    case Err(e) => Err(e)
  }

  /** Building a Description from the value of another one gives it back unchanged. */
  lemma DescriptionStable(v: Value)
    requires NewDescription(v).Ok?
    ensures NewDescription(PyStr(NewDescription(v).value.value)) == NewDescription(v)
  {
    var t := NewDescription(v).value.value;
    StripIdempotent(v.s);
    assert !IsSpace(t[0]);
  }

  /** Category accepts and trims exactly as Description does; only the message differs. */
  lemma CategoryAsDescription(v: Value)
    ensures NewCategory(v).Ok? <==> NewDescription(v).Ok?
    ensures NewCategory(v).Ok? ==> NewCategory(v).value.value == NewDescription(v).value.value
    ensures NewCategory(v).Err? ==>
      (NewCategory(v).error == ValueError(CategoryEmpty) <==> NewDescription(v).error == ValueError(DescriptionEmpty))
  {
  }

  /** `Amount(value)`: whatever `float(value)` gives, with no sign or range rule. */
  function NewAmount(v: Value): (r: Result<Amount>)
    ensures r.Ok? <==> ToFloat(v).Some?
    ensures r.Ok? ==> r.value.value == ToFloat(v).value
    ensures r.Err? ==> r.error == ValueError(AmountInvalid)
  {
    match ToFloat(v)
    case Some(x) => Ok(Amount(x))
    case None => Err(ValueError(AmountInvalid))
  }

  /**
   * An integer is an amount, negative or zero included: there is no sign
   * rule. Its text is always accepted; the int itself only within the range
   * of a double, since beyond it `float(n)` raises OverflowError.
   */
  lemma AmountOfInteger(n: int)
    ensures NewAmount(PyStr(IntText(n))) == Ok(Amount(Round(n as real)))
    ensures NewAmount(PyInt(n)).Ok? <==> BelowOverflow(n as real)
    ensures BelowOverflow(n as real) ==> NewAmount(PyInt(n)) == NewAmount(PyStr(IntText(n))) == Ok(Amount(Finite(n as real)))
  {
    IntTextToFloat(n);
  }

  /**
   * A leading unit separator is stripped from a description but makes the
   * amount invalid, because `float()` strips fewer characters than `str.strip()`.
   */
  lemma SeparatorAmountRejected()
    ensures NewAmount(PyStr("\U{1C}1")) == Err(ValueError(AmountInvalid))
    ensures NewDescription(PyStr("\U{1C}1")) == Ok(Description("1"))
  {
    SeparatorRefused();
    SeparatorStripped();
    assert !IsSpace("\U{1C}1"[1]);
  }

  /**
   * `EntryDate(value)`: a string must be a `YYYY-MM-DD` calendar date, a
   * date object is kept as it is, anything else is refused.
   */
  function NewEntryDate(v: Value): (r: Result<EntryDate>)
    ensures v.PyDate? ==> r == Ok(EntryDate(v.d))
    ensures !v.PyStr? && !v.PyDate? ==> r == Err(ValueError(DateTypeInvalid))
    ensures v.PyStr? ==> (r.Ok? <==> IsIsoShaped(v.s) && IsCalendarDate(IsoFields(v.s)))
    ensures v.PyStr? && r.Ok? ==> r.value.ToString() == v.s
    ensures v.PyStr? && r.Err? ==> r.error == ValueError(DateFormatInvalid)
  {
    match v
    case PyStr(s) =>
      (match FromIsoFormat(s)
       case Some(d) => FromIsoFormatCanonical(s); Ok(EntryDate(d))
       case None => Err(ValueError(DateFormatInvalid)))
    case PyDate(d) => Ok(EntryDate(d))
    case _ => Err(ValueError(DateTypeInvalid))
  }

  /** `EntryDate(str(EntryDate(d))).value == d` for every date. */
  lemma EntryDateRoundTrip(d: Date)
    ensures NewEntryDate(PyDate(d)) == Ok(EntryDate(d))
    ensures NewEntryDate(PyStr(EntryDate(d).ToString())) == Ok(EntryDate(d))
  {
    IsoFormatRoundTrip(d);
  }

  /** The two malformed dates: a 29 February outside a leap year, and day-first order. */
  lemma MalformedDatesRejected()
    ensures NewEntryDate(PyStr("2023-02-29")) == Err(ValueError(DateFormatInvalid))
    ensures NewEntryDate(PyStr("10-01-2024")) == Err(ValueError(DateFormatInvalid))
  {
    NoLeapDayIn2023();
    DayFirstRefused();
  }
}
