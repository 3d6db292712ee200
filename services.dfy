/**
 * `validate_entry_data`: the domain-level check of a request payload before
 * an entry is created (all four fields) or updated (at least one of them).
 */
module DomainServices {
  import opened Wrappers
  import opened PythonValues
  import opened ValueObjects
  import opened Entities

  type Payload = map<string, Value>

  /** The entry fields, in the order every check visits them. */
  const RequiredFields: seq<string> := ["description", "amount", "category", "date"]

  const UpdateNeedsAField := "At least one field (description, amount, category, date) required for update"

  /** `a` is `b` with some elements left out, the rest in their order. */
  ghost predicate IsSubsequence(a: seq<string>, b: seq<string>)
    decreases |b|
  {
    a == [] || (b != [] && (if a[0] == b[0] then IsSubsequence(a[1..], b[1..]) else IsSubsequence(a, b[1..])))
  }

  /** `[f for f in fields if f not in data]`. */
  function MissingFields(data: Payload, fields: seq<string>): (r: seq<string>)
    ensures forall f :: f in r <==> f in fields && f !in data
    ensures IsSubsequence(r, fields)
  {
    if fields == [] then []
    else if fields[0] in data then MissingFields(data, fields[1..])
    else [fields[0]] + MissingFields(data, fields[1..])
  }

  /**
   * `sep.join(parts)`: the parts one after the other with `sep` between two
   * of them; `JoinPlacesParts` says where each one stands.
   */
  function Join(parts: seq<string>, sep: string): (r: string)
    ensures parts == [] ==> r == []
    ensures parts != [] ==> |r| == JoinOffset(parts, sep, |parts| - 1) + |Last(parts)|
  {
    if parts == [] then "" else if |parts| == 1 then parts[0] else parts[0] + sep + Join(parts[1..], sep)
  }

  function Last(parts: seq<string>): string
    requires parts != []
  {
    parts[|parts| - 1]
  }

  const MissingPrefix := "Missing fields: "

  /** `f"Missing fields: {', '.join(missing)}"`: the prefix, then the first missing field, ending with the last. */
  function MissingMessage(missing: seq<string>): (r: string)
    ensures StandsAt(r, 0, MissingPrefix)
    ensures missing != [] ==> StandsAt(r, |MissingPrefix|, missing[0])
    ensures missing != [] ==> |Last(missing)| <= |r| && StandsAt(r, |r| - |Last(missing)|, Last(missing))
  {
    JoinedEnds(MissingPrefix, missing, ", ");
    MissingPrefix + Join(missing, ", ")
  }

  /** Text put before a join is followed by the first part, and the join still ends with the last part. */
  lemma JoinedEnds(prefix: string, parts: seq<string>, sep: string)
    ensures StandsAt(prefix + Join(parts, sep), 0, prefix)
    ensures parts != [] ==> StandsAt(prefix + Join(parts, sep), |prefix|, parts[0])
    ensures parts != [] ==> |Last(parts)| <= |prefix + Join(parts, sep)|
    ensures parts != [] ==> StandsAt(prefix + Join(parts, sep), |prefix + Join(parts, sep)| - |Last(parts)|, Last(parts))
  {
    var joined := Join(parts, sep);
    assert (prefix + joined)[0..|prefix|] == prefix;
    if parts != [] {
      JoinPlacesParts(parts, sep, 0);
      StandsAfter(prefix, joined, 0, parts[0]);
      JoinedLast(prefix, parts, sep);
    }
  }

  lemma JoinedLast(prefix: string, parts: seq<string>, sep: string)
    requires parts != []
    ensures |Last(parts)| <= |prefix + Join(parts, sep)|
    ensures StandsAt(prefix + Join(parts, sep), |prefix + Join(parts, sep)| - |Last(parts)|, Last(parts))
  {
    JoinPlacesParts(parts, sep, |parts| - 1);
    StandsAfter(prefix, Join(parts, sep), JoinOffset(parts, sep, |parts| - 1), Last(parts));
  }

  /** Where part `i` starts in `Join(parts, sep)`: the parts before it, each followed by `sep`. */
  function JoinOffset(parts: seq<string>, sep: string, i: nat): nat
    requires i < |parts|
  {
    if i == 0 then 0 else |parts[0]| + |sep| + JoinOffset(parts[1..], sep, i - 1)
  }

  /** Each part starts where the one before it and its separator end. */
  lemma {:induction false} JoinOffsetNext(parts: seq<string>, sep: string, i: nat)
    requires i + 1 < |parts|
    ensures JoinOffset(parts, sep, i + 1) == JoinOffset(parts, sep, i) + |parts[i]| + |sep|
  {
    if i > 0 {
      JoinOffsetNext(parts[1..], sep, i - 1);
    }
  }

  /** `piece` stands in `r` from index `at` on. */
  predicate StandsAt(r: string, at: nat, piece: string) {
    at + |piece| <= |r| && r[at..at + |piece|] == piece
  }

  /**
   * The joined text holds every part at its offset, with the separator
   * after each part but the last, and ends with the last part.
   */
  lemma {:induction false} JoinPlacesParts(parts: seq<string>, sep: string, i: nat)
    requires i < |parts|
    ensures StandsAt(Join(parts, sep), JoinOffset(parts, sep, i), parts[i])
    ensures i + 1 < |parts| ==> StandsAt(Join(parts, sep), JoinOffset(parts, sep, i) + |parts[i]|, sep)
    ensures i + 1 == |parts| ==> |Join(parts, sep)| == JoinOffset(parts, sep, i) + |parts[i]|
  {
    if i == 0 {
      JoinPlacesFirst(parts, sep);
    } else {
      var head, rest, at := parts[0] + sep, Join(parts[1..], sep), JoinOffset(parts[1..], sep, i - 1);
      JoinPlacesParts(parts[1..], sep, i - 1);
      JoinCons(parts, sep, i);
      StandsAfter(head, rest, at, parts[i]);
      if i + 1 < |parts| {
        StandsAfter(head, rest, at + |parts[i]|, sep);
      }
    }
  }

  lemma JoinPlacesFirst(parts: seq<string>, sep: string)
    requires parts != []
    ensures StandsAt(Join(parts, sep), 0, parts[0])
    ensures 1 < |parts| ==> StandsAt(Join(parts, sep), |parts[0]|, sep)
    ensures 1 == |parts| ==> |Join(parts, sep)| == |parts[0]|
  {
    var r := Join(parts, sep);
    assert r[0..|parts[0]|] == r[..|parts[0]|];
  }

  /** Part `i` of `parts` is part `i - 1` of `parts[1..]`, shifted by the first part and a separator. */
  lemma JoinCons(parts: seq<string>, sep: string, i: nat)
    requires 0 < i < |parts|
    ensures Join(parts, sep) == (parts[0] + sep) + Join(parts[1..], sep)
    ensures JoinOffset(parts, sep, i) == |parts[0] + sep| + JoinOffset(parts[1..], sep, i - 1)
    ensures parts[1..][i - 1] == parts[i]
  {
  }

  /** A piece keeps its place, shifted, when text is put in front. */
  lemma StandsAfter(a: string, rest: string, at: nat, piece: string)
    requires StandsAt(rest, at, piece)
    ensures StandsAt(a + rest, |a| + at, piece)
  {
    assert (a + rest)[|a|..] == rest;
    assert (a + rest)[|a| + at..|a| + at + |piece|] == rest[at..at + |piece|];
  }

  /**
   * The message lists every missing field, in order, after the prefix and
   * separated by ", ", and nothing follows the last one.
   */
  lemma MissingMessageListsAll(missing: seq<string>, i: nat)
    requires i < |missing|
    ensures StandsAt(MissingMessage(missing), |MissingPrefix| + JoinOffset(missing, ", ", i), missing[i])
    ensures i + 1 < |missing| ==>
      StandsAt(MissingMessage(missing), |MissingPrefix| + JoinOffset(missing, ", ", i) + |missing[i]|, ", ")
    ensures i + 1 < |missing| ==>
      JoinOffset(missing, ", ", i + 1) == JoinOffset(missing, ", ", i) + |missing[i]| + 2
    ensures i + 1 == |missing| ==>
      |MissingMessage(missing)| == |MissingPrefix| + JoinOffset(missing, ", ", i) + |missing[i]|
  {
    var joined := Join(missing, ", ");
    var at := JoinOffset(missing, ", ", i);
    JoinPlacesParts(missing, ", ", i);
    PrefixedMessage(missing);
    StandsAfter(MissingPrefix, joined, at, missing[i]);
    if i + 1 < |missing| {
      JoinOffsetNext(missing, ", ", i);
      StandsAfter(MissingPrefix, joined, at + |missing[i]|, ", ");
    }
  }

  /** The first check: every field for a create, at least one of them for an update. */
  function PresenceCheck(data: Payload, forUpdate: bool): (r: Outcome)
    ensures forUpdate ==> (r.Pass? <==> exists f :: f in RequiredFields && f in data)
    ensures forUpdate && r.Fail? ==> r.error == ValueError(UpdateNeedsAField)
    ensures !forUpdate ==> (r.Pass? <==> forall f :: f in RequiredFields ==> f in data)
    ensures !forUpdate && r.Fail? ==> r.error == ValueError(MissingMessage(MissingFields(data, RequiredFields)))
  {
    if forUpdate then
      if exists f :: f in RequiredFields && f in data then Pass else Fail(ValueError(UpdateNeedsAField))
    else
      var missing := MissingFields(data, RequiredFields);
      if missing != [] then
        assert missing[0] in missing;
        Fail(ValueError(MissingMessage(missing)))
      else
        Pass
  }

  /** What running a value-object constructor amounts to: nothing, or the exception it raised. */
  function Raised<T>(r: Result<T>): (o: Outcome)
    ensures o.Pass? <==> r.Ok?
  {
    match r
    case Ok(_) => Pass
    case Err(e) => Fail(e)
  }

  /** The value object each field goes through. */
  function ValueCheck(field: EntryField, v: Value): Outcome {
    match field
    case DescriptionField => Raised(NewDescription(v))
    case AmountField => Raised(NewAmount(v))
    case CategoryField => Raised(NewCategory(v))
    case DateField => Raised(NewEntryDate(v))
  }

  /** The check of one field: an absent field passes unchecked. */
  function FieldCheck(data: Payload, field: EntryField): Outcome {
    if field.Name() in data then ValueCheck(field, data[field.Name()]) else Pass
  }

  /** The checks in the order they run: presence, then description, amount, category, date. */
  function Checks(data: Payload, forUpdate: bool): seq<Outcome> {
    [ PresenceCheck(data, forUpdate),
      FieldCheck(data, DescriptionField),
      FieldCheck(data, AmountField),
      FieldCheck(data, CategoryField),
      FieldCheck(data, DateField) ]
  }

  /** The outcome of running checks in order and stopping at the first that raises. */
  function FirstFailure(outcomes: seq<Outcome>): (r: Outcome)
    ensures r.Pass? <==> forall i :: 0 <= i < |outcomes| ==> outcomes[i].Pass?
    ensures r.Fail? ==> exists k :: 0 <= k < |outcomes| && r == outcomes[k] && forall i :: 0 <= i < k ==> outcomes[i].Pass?
  {
    if outcomes == [] then Pass
    else if outcomes[0].Fail? then outcomes[0]
    else FirstFailure(outcomes[1..])
  }

  /** Every field the payload carries passes its value object. */
  ghost predicate PresentFieldsValid(data: Payload) {
    && FieldCheck(data, DescriptionField).Pass?
    && FieldCheck(data, AmountField).Pass?
    && FieldCheck(data, CategoryField).Pass?
    && FieldCheck(data, DateField).Pass?
  }

  /**
   * `validate_entry_data(data, for_update)`: `Pass` for `return True`,
   * `Fail` for the ValueError (or AttributeError) it lets escape.
   */
  function ValidateEntryData(data: Payload, forUpdate: bool): (r: Outcome)
    ensures r.Pass? <==> PresenceCheck(data, forUpdate).Pass? && PresentFieldsValid(data)
    ensures PresenceCheck(data, forUpdate).Fail? ==> r == PresenceCheck(data, forUpdate)
  {
    var presence := PresenceCheck(data, forUpdate);
    if presence.Fail? then presence
    else if FieldCheck(data, DescriptionField).Fail? then FieldCheck(data, DescriptionField)
    else if FieldCheck(data, AmountField).Fail? then FieldCheck(data, AmountField)
    else if FieldCheck(data, CategoryField).Fail? then FieldCheck(data, CategoryField)
    else if FieldCheck(data, DateField).Fail? then FieldCheck(data, DateField)
    else Pass
  }

  lemma FirstFailureStep(first: Outcome, rest: seq<Outcome>)
    ensures FirstFailure([first] + rest) == if first.Fail? then first else FirstFailure(rest)
  {
    assert ([first] + rest)[1..] == rest;
  }

  /** Five checks in a row: the first that fails decides. */
  lemma FirstFailureOfFive(a: Outcome, b: Outcome, c: Outcome, d: Outcome, e: Outcome)
    ensures FirstFailure([a, b, c, d, e])
         == if a.Fail? then a else if b.Fail? then b else if c.Fail? then c else if d.Fail? then d else e
  {
    FirstFailureStep(e, []);
    assert [d, e] == [d] + [e];
    FirstFailureStep(d, [e]);
    assert [c, d, e] == [c] + [d, e];
    FirstFailureStep(c, [d, e]);
    assert [b, c, d, e] == [b] + [c, d, e];
    FirstFailureStep(b, [c, d, e]);
    assert [a, b, c, d, e] == [a] + [b, c, d, e];
    FirstFailureStep(a, [b, c, d, e]);
  }

  /** The verdict is that of the first check, in the fixed order, that raises. */
  lemma ChecksRunInOrder(data: Payload, forUpdate: bool)
    ensures ValidateEntryData(data, forUpdate) == FirstFailure(Checks(data, forUpdate))
  {
    FirstFailureOfFive(PresenceCheck(data, forUpdate), FieldCheck(data, DescriptionField),
      FieldCheck(data, AmountField), FieldCheck(data, CategoryField), FieldCheck(data, DateField));
  }

  /** The payload with every key other than the four entry fields dropped. */
  function EntryFieldsOf(data: Payload): (r: Payload)
    ensures r.Keys <= data.Keys
    ensures forall f :: f in RequiredFields ==> (f in r <==> f in data)
  {
    map k | k in data && k in RequiredFields :: data[k]
  }

  lemma {:induction false} MissingFieldsOnlyLooksAtFields(data: Payload, other: Payload, fields: seq<string>)
    requires forall f :: f in fields ==> (f in data <==> f in other)
    ensures MissingFields(data, fields) == MissingFields(other, fields)
  {
    if fields != [] {
      MissingFieldsOnlyLooksAtFields(data, other, fields[1..]);
    }
  }

  lemma PresenceOnlyLooksAtFields(data: Payload, other: Payload, forUpdate: bool)
    requires forall f :: f in RequiredFields ==> (f in data <==> f in other)
    ensures PresenceCheck(data, forUpdate) == PresenceCheck(other, forUpdate)
  {
    MissingFieldsOnlyLooksAtFields(data, other, RequiredFields);
  }

  /** Keys other than the four entry fields make no difference to the verdict. */
  lemma ExtraKeysIgnored(data: Payload, forUpdate: bool)
    ensures ValidateEntryData(data, forUpdate) == ValidateEntryData(EntryFieldsOf(data), forUpdate)
  {
    var trimmed := EntryFieldsOf(data);
    PresenceOnlyLooksAtFields(data, trimmed, forUpdate);
    FieldKept(data, DescriptionField);
    FieldKept(data, AmountField);
    FieldKept(data, CategoryField);
    FieldKept(data, DateField);
    SameChecksSameVerdict(data, trimmed, forUpdate);
  }

  lemma FieldKept(data: Payload, field: EntryField)
    ensures FieldCheck(data, field) == FieldCheck(EntryFieldsOf(data), field)
  {
    assert field.Name() in RequiredFields;
  }

  /** The verdict depends on the payload only through the five check outcomes. */
  lemma SameChecksSameVerdict(data: Payload, other: Payload, forUpdate: bool)
    ensures Checks(data, forUpdate) == Checks(other, forUpdate) ==>
      ValidateEntryData(data, forUpdate) == ValidateEntryData(other, forUpdate)
  {
  }

  lemma MissingAllButAmount()
    ensures MissingFields(map["amount" := PyInt(3)], RequiredFields) == ["description", "category", "date"]
  {
    var data := map["amount" := PyInt(3)];
    assert MissingFields(data, ["date"]) == ["date"];
    assert MissingFields(data, ["category", "date"]) == ["category", "date"];
    assert MissingFields(data, ["amount", "category", "date"]) == ["category", "date"];
  }

  lemma JoinLastTwo()
    ensures Join(["category", "date"], ", ") == "category, date"
  {
    var parts := ["category", "date"];
    assert parts[1..] == ["date"];
  }

  lemma JoinThreeFields()
    ensures MissingMessage(["description", "category", "date"]) == "Missing fields: description, category, date"
  {
    JoinThree();
    PrefixedMessage(["description", "category", "date"]);
    MessageText();
  }

  lemma MessageText()
    ensures MissingPrefix + "description, category, date" == "Missing fields: description, category, date"
  {
  }

  lemma PrefixedMessage(missing: seq<string>)
    ensures MissingMessage(missing) == MissingPrefix + Join(missing, ", ")
  {
  }

  lemma JoinThree()
    ensures Join(["description", "category", "date"], ", ") == "description, category, date"
  {
    var parts := ["description", "category", "date"];
    assert parts[1..] == ["category", "date"];
    JoinLastTwo();
  }

  /** For a create, the missing fields are reported all together, in the fixed order. */
  lemma CreateReportsMissingInOrder()
    ensures ValidateEntryData(map["amount" := PyInt(3)], false)
         == Fail(ValueError("Missing fields: description, category, date"))
  {
    MissingAllButAmount();
    JoinThreeFields();
  }

  /** A create whose description is the empty string fails on the description check. */
  lemma EmptyDescriptionRejected(data: Payload)
    requires forall f :: f in RequiredFields ==> f in data
    requires data["description"] == PyStr("")
    ensures ValidateEntryData(data, false) == Fail(ValueError(DescriptionEmpty))
  {
  }

  /** An update carrying only an amount checks the amount and nothing else. */
  lemma UpdateChecksOnlySuppliedFields(v: Value)
    ensures ValidateEntryData(map["amount" := v], true) == Raised(NewAmount(v))
  {
    var data := map["amount" := v];
    OnlyAmountPresent(v);
    assert FieldCheck(data, AmountField) == Raised(NewAmount(v));
  }

  lemma OnlyAmountPresent(v: Value)
    ensures PresenceCheck(map["amount" := v], true) == Pass
    ensures FieldCheck(map["amount" := v], DescriptionField) == Pass
    ensures FieldCheck(map["amount" := v], CategoryField) == Pass
    ensures FieldCheck(map["amount" := v], DateField) == Pass
  {
    var data := map["amount" := v];
    var amount := RequiredFields[1];
    assert amount in RequiredFields && amount in data;
    assert "description" !in data && "category" !in data && "date" !in data;
  }
}
