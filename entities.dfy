/**
 * The FinanceEntry aggregate: a mutable record of an optional id and four
 * fields, and its dictionary form for serialisation.
 */
module Entities {
  import opened Wrappers
  import opened Calendar
  import opened FloatText
  import opened PythonValues

  /** The four data fields, by the attribute names the code uses for them. */
  datatype EntryField = DescriptionField | AmountField | CategoryField | DateField {
    function Name(): string {
      match this
      case DescriptionField => "description"
      case AmountField => "amount"
      case CategoryField => "category"
      case DateField => "date"
    }
  }

  /** The four fields, in the order the code lists them. */
  const EntryFields: seq<EntryField> := [DescriptionField, AmountField, CategoryField, DateField]

  /** The data of an entry without its id: one stored row. */
  datatype Row = Row(description: string, amount: Float, category: string, date: Date)

  /** The keys of `as_dict()`. */
  const DictKeys: set<string> := {"id", "description", "amount", "category", "date"}

  class FinanceEntry {
    /** `None` until the entry is stored. */
    var id: Option<int>
    var description: string
    var amount: Float
    var category: string
    var date: Date

    /** Stores its arguments as they are; nothing is validated here. */
    constructor (id: Option<int>, description: string, amount: Float, category: string, entryDate: Date)
      ensures this.id == id && this.description == description && this.amount == amount
      ensures this.category == category && this.date == entryDate
    {
      this.id := id;
      this.description := description;
      this.amount := amount;
      this.category := category;
      this.date := entryDate;
    }

    /** The four data fields as a row. */
    function Columns(): Row
      reads this
    {
      Row(description, amount, category, date)
    }

    /**
     * `as_dict()`: exactly the five keys; id, description, amount and category
     * copied, the date as ISO text that parses back to the same date.
     */
    function AsDict(): (d: map<string, Value>)
      reads this
      ensures d.Keys == DictKeys
      ensures d["id"] == (if id.Some? then PyInt(id.value) else PyNone)
      ensures d["description"] == PyStr(description) && d["category"] == PyStr(category)
      ensures d["amount"] == PyFloat(amount)
      ensures d["date"].PyStr? && FromIsoFormat(d["date"].s) == Some(date)
    {
      IsoFormatRoundTrip(date);
      map[
        "id" := (match id case Some(n) => PyInt(n) case None => PyNone),
        "description" := PyStr(description),
        "amount" := PyFloat(amount),
        "category" := PyStr(category),
        "date" := PyStr(IsoFormat(date))
      ]
    }
  }
}
