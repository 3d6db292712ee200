# Finance tracker core in Dafny

This project models the domain and application layers of a small finance-entry
service. An entry is a description, an amount, a category and a calendar date,
plus an integer id that the store assigns. The model covers these parts:

- the value objects `Description`, `Amount`, `Category` and `EntryDate`, which
  normalise one field or raise;
- `validate_entry_data`, which checks a request payload before a create (all
  four fields) or an update (at least one field);
- the `FinanceEntry` record and its `as_dict` serialisation;
- the repository contract and its SQL implementation, with the
  `finance_entries` table held in memory as a map from id to row;
- the `FinanceEntryService` use cases: list, get, create, partial update and
  delete.

Module layout, one module per source file plus the Python pieces they rely on:

| module | file | models |
|---|---|---|
| `Wrappers` | wrappers.dfy | `Option`, `Result`, `Outcome`; the exceptions raised (`ValueError`, `AttributeError`, the error of `float()`) |
| `Text` | text.dfy | `str.strip()`, ASCII digits, `"%0Nd"` and the decimal text of integers |
| `Calendar` | calendar.dfy | `datetime.date` for years 1 to 9999, `isoformat()`, the `YYYY-MM-DD` form of `date.fromisoformat` |
| `FloatText` | float_text.dfy | the text that `float(s)` reads: the whitespace it strips, the decimal float literal grammar with its underscores and exponents, `inf` and `nan`, and overflow to infinity |
| `PythonValues` | python_values.dfy | the JSON values a payload carries, their truth value, `float(x)` |
| `ValueObjects` | value_objects.dfy | domain/finance_entry/value_objects.py |
| `Entities` | entities.dfy | domain/finance_entry/entities.py |
| `DomainServices` | services.dfy | domain/finance_entry/services.py |
| `Repository` | repository.dfy | domain/finance_entry/repository.py |
| `SqlAlchemyRepo` | sqlalchemy_repo.dfy | infrastructure/persistence/sqlalchemy_repo.py |
| `EntryService` | entry_service.dfy | application/entry_service.py |

Value objects and validation are pure functions. Each exception becomes an
`Err` or `Fail` value. A `ValueError` carries the message the source gives it,
and an `AttributeError` carries the message Python prints for the missing
`strip` attribute. A `float()` failure inside `create` is a `ConversionError`
without a message. The entry,
the repository and the service are classes. Their methods change fields in
place, just as the Python objects do:

- `add` writes the new id into the entry it was given;
- `update` in the service loads an entry and overwrites it field by field.

The repository's `Valid()` invariant says that every stored id lies between 1
and the last id `add` handed out. Each method's contract ties the new table to the old one through the
contract predicates in `Repository` (`Finds`, `Adds`, `Updates`, `Deletes`,
`ListsAll`).

Two points of the code are easy to miss, and the model keeps both.

- `create` and `update` in the service do not call the value objects.
  `create` stores the description and category exactly as passed, untrimmed,
  and `update` stores whatever it is given. Validation happens only in
  `validate_entry_data`, which the HTTP layer calls first.
  `EntryService.FinanceEntryService.Create` and `Update` model this
  unvalidated behaviour.
- Giving `Description` or `Category` a truthy value that is not a string makes
  the code raise `AttributeError` (from `.strip`), not `ValueError`. The model
  keeps that difference.

## Model

| member | source | states |
|---|---|---|
| `Text.Strip` | finance_tracker_backend/domain/finance_entry/value_objects.py:13 | `value.strip()` has no whitespace at either end and is no longer than the input |
| `Text.StripIsMiddle` | finance_tracker_backend/domain/finance_entry/value_objects.py:13 | the stripped text is the input with a leading whitespace run and a trailing whitespace run cut off |
| `Text.StripUnique` | finance_tracker_backend/domain/finance_entry/value_objects.py:13 | whenever the input is whitespace, then a trimmed middle, then whitespace, strip returns exactly that middle (with `StripIsMiddle`, this defines strip completely) |
| `Text.StripEmptyIff` | finance_tracker_backend/domain/finance_entry/value_objects.py:11 | `not value.strip()` holds exactly when the string is only whitespace, in both directions |
| `Text.StripIdempotent` | finance_tracker_backend/domain/finance_entry/value_objects.py:13 | stripping an already stripped string changes nothing |
| `Calendar.DaysInMonth` | finance_tracker_backend/domain/finance_entry/value_objects.py:48 | every month has 28 to 31 days, and 29 only for February of a leap year |
| `Calendar.IsoFormat` | finance_tracker_backend/domain/finance_entry/value_objects.py:57 | `isoformat()` is ten characters: four, two and two ASCII digits separated by dashes |
| `Calendar.FromIsoFormat` | finance_tracker_backend/domain/finance_entry/value_objects.py:48 | a date is produced exactly when the string has the `YYYY-MM-DD` shape of ASCII digits and the fields name a real calendar day, and it is the date those digits spell |
| `Calendar.IsoFormatRoundTrip` | finance_tracker_backend/domain/finance_entry/value_objects.py:48-57 | parsing `isoformat()` of any date gives back that date |
| `Calendar.FromIsoFormatCanonical` | finance_tracker_backend/domain/finance_entry/value_objects.py:48-57 | every string `fromisoformat` accepts is rendered back to the same string |
| `Calendar.NoLeapDayIn2023` | finance_tracker_backend/domain/finance_entry/value_objects.py:46-50 | "2023-02-29" is rejected because 2023 is not a leap year |
| `Calendar.DayFirstRefused` | finance_tracker_backend/domain/finance_entry/value_objects.py:46-50 | "10-01-2024" (day first) is rejected |
| `FloatText.Round` | finance_tracker_backend/domain/finance_entry/value_objects.py:23 | a value converts to a finite float exactly when it is below the overflow bound in magnitude, and then to itself; otherwise to the infinity of its sign; never to NaN |
| `FloatText.FloatStrip` | finance_tracker_backend/domain/finance_entry/value_objects.py:23 | the text `float(s)` reads has none of the whitespace `float` strips at either end and is no longer than `s` |
| `FloatText.FloatStripIsMiddle` | finance_tracker_backend/domain/finance_entry/value_objects.py:23 | what `float(s)` reads is `s` with a run of `float`'s whitespace cut from each end |
| `FloatText.FloatStripUnique` | finance_tracker_backend/domain/finance_entry/value_objects.py:23 | whenever `s` is `float` whitespace, then text with none at either end, then `float` whitespace, `float(s)` reads exactly that text (with `FloatStripIsMiddle`, this defines the strip completely) |
| `FloatText.FloatStripAsStrip` | finance_tracker_backend/domain/finance_entry/value_objects.py:23 | on text without the separators U+001C to U+001F, `float()` strips exactly what `str.strip()` strips |
| `FloatText.FloatStripTrimmed` | finance_tracker_backend/domain/finance_entry/value_objects.py:23 | text that `str.strip()` leaves alone is read by `float()` as it stands |
| `FloatText.SeparatorKept` | finance_tracker_backend/domain/finance_entry/value_objects.py:23 | a leading U+001C stays in the text `float()` reads, while `str.strip()` removes it |
| `FloatText.ParseFloat` | finance_tracker_backend/domain/finance_entry/value_objects.py:23 | the stripped text of `float(s)` reads as NaN exactly when, after its sign, it is `nan` in any case. An infinity has the sign of the text |
| `FloatText.ParseFloatGrammar` | finance_tracker_backend/domain/finance_entry/value_objects.py:23 | `float(s)` accepts exactly the texts of the float literal grammar: an optional sign, then digit parts with single underscores between digits, an optional point and fraction, and an optional signed exponent, or `inf`, `infinity` or `nan` in any case |
| `FloatText.SignedText` | finance_tracker_backend/domain/finance_entry/value_objects.py:23 | a leading `-` negates the value, infinities and NaN included, and a leading `+` changes nothing |
| `FloatText.ExponentLiteral` | finance_tracker_backend/domain/finance_entry/value_objects.py:23 | "1e3" reads as 1000 |
| `FloatText.UnderscoreLiteral` | finance_tracker_backend/domain/finance_entry/value_objects.py:23 | "1_000" reads as 1000 |
| `FloatText.SpecialWords` | finance_tracker_backend/domain/finance_entry/value_objects.py:23 | "inf" is positive infinity, "-Infinity" negative infinity, "nan" is NaN |
| `FloatText.MalformedLiterals` | finance_tracker_backend/domain/finance_entry/value_objects.py:23 | "1__0", "1e" and "." are not floats |
| `PythonValues.Truthy` | finance_tracker_backend/domain/finance_entry/value_objects.py:11 | `not value` holds exactly for `None`, `False`, zero and the empty string, list and dict |
| `PythonValues.ToFloat` | finance_tracker_backend/domain/finance_entry/value_objects.py:23 | `float()` keeps floats, refuses `None`, dates and containers, and accepts an int exactly when it is within the range of a double (otherwise OverflowError), keeping its value |
| `PythonValues.StringToFloat` | finance_tracker_backend/domain/finance_entry/value_objects.py:23 | `float(s)` accepts a string exactly when its text, without the whitespace `float` strips (not `str.strip()`'s), is a float literal |
| `PythonValues.SeparatorRefused` | finance_tracker_backend/domain/finance_entry/value_objects.py:23 | `float("\x1c1")` raises, since `float` does not strip the separator |
| `PythonValues.IntTextToFloat` | finance_tracker_backend/domain/finance_entry/value_objects.py:23 | `float()` of the decimal text of an integer is that integer, or the infinity of its sign beyond the range of a double; it equals `float(n)` whenever that does not raise |
| `PythonValues.PaddedDecimalToFloat` | finance_tracker_backend/domain/finance_entry/value_objects.py:23 | a decimal string with blanks around it converts to its value (" 4.5 " gives 4.5) |
| `ValueObjects.StrippedText` | finance_tracker_backend/domain/finance_entry/value_objects.py:11-13 | accepts exactly the strings with a non-whitespace character and keeps their stripped form (non-empty, trimmed). It raises `ValueError` with the given message for falsy values and blank strings, and, for other non-strings, `AttributeError` with "'<type>' object has no attribute 'strip'" |
| `ValueObjects.NewDescription` | finance_tracker_backend/domain/finance_entry/value_objects.py:10-13 | `Description(value)` succeeds iff the value is a string with a non-whitespace character. Its value is the stripped input. The failure for empty or blank input is "Description cannot be empty"; a truthy non-string fails with the `AttributeError` of `strip` |
| `ValueObjects.NewCategory` | finance_tracker_backend/domain/finance_entry/value_objects.py:34-37 | the same contract as Description, with "Category cannot be empty" |
| `ValueObjects.DescriptionStable` | finance_tracker_backend/domain/finance_entry/value_objects.py:11-13 | building a Description from an existing Description's value gives the same value |
| `ValueObjects.CategoryAsDescription` | finance_tracker_backend/domain/finance_entry/value_objects.py:34-37 | Category accepts, trims and fails on exactly the inputs Description does |
| `ValueObjects.NewAmount` | finance_tracker_backend/domain/finance_entry/value_objects.py:21-25 | `Amount(value)` fails, with "Amount must be a valid number", exactly when `float(value)` (as `PythonValues.ToFloat` models it) raises; otherwise it keeps `float(value)` |
| `ValueObjects.SeparatorAmountRejected` | finance_tracker_backend/domain/finance_entry/value_objects.py:10-25 | "\x1c1" is a valid description, "1", but not a valid amount |
| `ValueObjects.AmountOfInteger` | finance_tracker_backend/domain/finance_entry/value_objects.py:21-26 | there is no sign rule: an integer's decimal text is always an amount, worth the integer rounded to a float. The int itself is an amount exactly when it is within the range of a double, and then both give the same amount |
| `ValueObjects.EntryDate.ToString` | finance_tracker_backend/domain/finance_entry/value_objects.py:56-57 | `str(entry_date)` is ten characters that `date.fromisoformat` reads back as the same date |
| `ValueObjects.NewEntryDate` | finance_tracker_backend/domain/finance_entry/value_objects.py:45-54 | a date object is kept unchanged. A string is accepted iff it is `YYYY-MM-DD` and names a real day, and the accepted string renders back to itself. A bad string fails with "Invalid date format (use YYYY-MM-DD)"; any other type fails with "Date must be a string or a datetime.date instance" |
| `ValueObjects.EntryDateRoundTrip` | finance_tracker_backend/domain/finance_entry/value_objects.py:45-57 | `EntryDate(str(EntryDate(d))).value == d` for every date |
| `ValueObjects.MalformedDatesRejected` | finance_tracker_backend/domain/finance_entry/value_objects.py:46-50 | "2023-02-29" and "10-01-2024" raise the date-format error |
| `Entities.FinanceEntry.constructor` | finance_tracker_backend/domain/finance_entry/entities.py:11-16 | stores all five arguments unchanged, without validation |
| `Entities.FinanceEntry.AsDict` | finance_tracker_backend/domain/finance_entry/entities.py:19-27 | exactly the keys id, description, amount, category and date. Id, description, amount and category are copied, and an unsaved entry's id is `None`. The date is ISO text that parses back to the entry's date |
| `DomainServices.MissingFields` | finance_tracker_backend/domain/finance_entry/services.py:19 | lists exactly the required keys absent from the payload, in the required order |
| `DomainServices.Join` | finance_tracker_backend/domain/finance_entry/services.py:21 | `", ".join(parts)` is empty for no parts; otherwise its length is the offset of the last part plus that part's length |
| `DomainServices.JoinOffsetNext` | finance_tracker_backend/domain/finance_entry/services.py:21 | each part starts right after the previous part and its separator |
| `DomainServices.JoinPlacesParts` | finance_tracker_backend/domain/finance_entry/services.py:21 | every part stands in the joined text at its offset, in order, with the separator after each part but the last and nothing after the last |
| `DomainServices.JoinedEnds` | finance_tracker_backend/domain/finance_entry/services.py:21 | text put before a join is followed by the first part, and the result ends with the last part |
| `DomainServices.MissingMessage` | finance_tracker_backend/domain/finance_entry/services.py:21 | the message starts with "Missing fields: ", then the first missing field, and ends with the last one |
| `DomainServices.MissingMessageListsAll` | finance_tracker_backend/domain/finance_entry/services.py:19-21 | after the prefix the message lists every missing field at its offset, in order, with ", " between two of them and nothing after the last |
| `DomainServices.PresenceCheck` | finance_tracker_backend/domain/finance_entry/services.py:14-21 | an update passes iff some field is present, otherwise it fails with the "At least one field" message. A create passes iff all four are present, otherwise it fails with "Missing fields: " and the missing keys |
| `DomainServices.FirstFailure` | finance_tracker_backend/domain/finance_entry/services.py:14-31 | a run of checks that stops at the first raise passes iff every check passes; a failure is the earliest failing check |
| `DomainServices.ValidateEntryData` | finance_tracker_backend/domain/finance_entry/services.py:9-31 | returns True iff the presence check passes and every field the payload carries passes its value object. A presence failure is the error raised |
| `DomainServices.ChecksRunInOrder` | finance_tracker_backend/domain/finance_entry/services.py:14-29 | the error raised is that of the first failing check, in the order presence, description, amount, category, date |
| `DomainServices.ExtraKeysIgnored` | finance_tracker_backend/domain/finance_entry/services.py:14-29 | keys other than the four fields never change the outcome |
| `DomainServices.CreateReportsMissingInOrder` | finance_tracker_backend/domain/finance_entry/services.py:18-21 | a create payload with only an amount fails with "Missing fields: description, category, date" |
| `DomainServices.EmptyDescriptionRejected` | finance_tracker_backend/domain/finance_entry/services.py:22-23 | a complete create payload with an empty description fails with "Description cannot be empty" |
| `DomainServices.UpdateChecksOnlySuppliedFields` | finance_tracker_backend/domain/finance_entry/services.py:15-29 | an update payload with only an amount is judged by the Amount check alone |
| `Repository.ListsAllCount` | finance_tracker_backend/domain/finance_entry/repository.py:14-16 | a listing of all entries, each once, is as long as the table |
| `Repository.AddThenFind` | finance_tracker_backend/domain/finance_entry/repository.py:19-26 | after `add`, `get_by_id` on the id it assigned finds the stored fields, and the table has grown by one |
| `Repository.UpdateFailsIffNotFound` | finance_tracker_backend/domain/finance_entry/repository.py:19-31 | `update` succeeds iff `get_by_id` finds the id. On failure the table is unchanged; on success the set of ids is unchanged |
| `Repository.DeleteTwice` | finance_tracker_backend/domain/finance_entry/repository.py:34-36 | a delete reports whether the id was stored, and a second delete of the same id reports false and changes nothing |
| `SqlAlchemyRepo.ListedBeforeTotal` | finance_tracker_backend/infrastructure/persistence/sqlalchemy_repo.py:17 | `ORDER BY date DESC, id DESC` orders any two distinct entries one way and never both ways |
| `SqlAlchemyRepo.Insert` | finance_tracker_backend/infrastructure/persistence/sqlalchemy_repo.py:17 | inserting an id into an ordered listing keeps it ordered and adds exactly that id |
| `SqlAlchemyRepo.OrderedIds` | finance_tracker_backend/infrastructure/persistence/sqlalchemy_repo.py:17 | the query returns every stored id exactly once, latest date first, larger id first on equal dates |
| `SqlAlchemyRepo.ListingUnique` | finance_tracker_backend/infrastructure/persistence/sqlalchemy_repo.py:17 | two ordered listings of the same ids are equal, so the listing order is fully determined |
| `SqlAlchemyRepo.SqlAlchemyFinanceEntryRepository.ListEntries` | finance_tracker_backend/infrastructure/persistence/sqlalchemy_repo.py:16-18 | one new entry per stored row, in the listing order, each carrying its row's id and fields |
| `SqlAlchemyRepo.SqlAlchemyFinanceEntryRepository.GetById` | finance_tracker_backend/infrastructure/persistence/sqlalchemy_repo.py:20-24 | `null` for an unknown id, otherwise a new entry with that id and exactly the row's fields |
| `SqlAlchemyRepo.SqlAlchemyFinanceEntryRepository.Add` | finance_tracker_backend/infrastructure/persistence/sqlalchemy_repo.py:26-36 | the entry's fields are stored under an id not in the table, and that id is written into the same entry, which is returned. Its other fields are unchanged, and the table gains exactly that row |
| `SqlAlchemyRepo.SqlAlchemyFinanceEntryRepository.Update` | finance_tracker_backend/infrastructure/persistence/sqlalchemy_repo.py:38-47 | an unknown or missing id fails with "Entry not found" and changes nothing. Otherwise the row with the entry's id gets all four fields and every other row is untouched |
| `SqlAlchemyRepo.SqlAlchemyFinanceEntryRepository.Delete` | finance_tracker_backend/infrastructure/persistence/sqlalchemy_repo.py:49-55 | returns whether the id was stored; afterwards that row, and only it, is gone |
| `EntryService.SetAttr` | finance_tracker_backend/application/entry_service.py:43-44 | one pass of the update loop overwrites one field if it was supplied, and never the id |
| `EntryService.LoopPatches` | finance_tracker_backend/application/entry_service.py:42-44 | the loop over the four field names yields the patched row |
| `EntryService.PatchedFields` | finance_tracker_backend/application/entry_service.py:42-44 | a field is replaced exactly when it is supplied (present and not `None`), and then by the supplied value |
| `EntryService.NoChangesKeepsRow` | finance_tracker_backend/application/entry_service.py:42-45 | an update with no fields writes back the loaded row unchanged |
| `EntryService.PatchedIdempotent` | finance_tracker_backend/application/entry_service.py:42-45 | applying the same update twice is the same as applying it once |
| `EntryService.FinanceEntryService.constructor` | finance_tracker_backend/application/entry_service.py:15-16 | the service keeps the repository it is given |
| `EntryService.FinanceEntryService.List` | finance_tracker_backend/application/entry_service.py:19-20 | the repository's listing, unchanged |
| `EntryService.FinanceEntryService.Get` | finance_tracker_backend/application/entry_service.py:23-24 | the repository's lookup: `null` for an unknown id |
| `EntryService.FinanceEntryService.Create` | finance_tracker_backend/application/entry_service.py:27-35 | fails iff `float(amount)` fails, and then stores nothing. Otherwise it adds an entry whose fields are the arguments exactly (description and category untrimmed) and the converted amount, under an id not in the table, and returns it |
| `EntryService.FinanceEntryService.Update` | finance_tracker_backend/application/entry_service.py:38-45 | an unknown id fails with "Not found" and writes nothing. Otherwise the stored row becomes the loaded row with the supplied fields replaced, the id kept and every other row untouched |
| `EntryService.FinanceEntryService.Delete` | finance_tracker_backend/application/entry_service.py:48-49 | the repository's answer, unchanged: whether a row was removed |

## Left out

- The HTTP layer (api/routes.py) is not part of this model. That covers JSON parsing, status codes, the "Not found" substring test, `db.session.rollback`, the `strptime` date parsing before `create`, and the float `running_total` sum.
- app.py and config/settings.py (process bootstrap, CORS, environment lookup) are not part of this model.
- The SQLAlchemy session and commit mechanics are not modelled. The same goes for the column length limits (255 and 64 characters), `nullable` constraints and backend type coercion (db_models.py). The table is a map from id to row.
- `SqlAlchemyRepo.SqlAlchemyFinanceEntryRepository.Add`: promises only an id not in the table, taken from a counter. The id the database engine actually picks, and whether it reuses the id of a deleted last row, is left out.
- The abstract `FinanceEntryRepository` is stated as contract predicates (`Repository`) that the in-memory class satisfies, not as an interface type. So the service is bound to that one implementation.
- `PythonValues.ToFloat`: the value of a finite float is an exact real. Rounding to the nearest IEEE double is left out, and so is the sign of a zero (`-0.0` is `0.0`). Overflow is modelled: text at or beyond the overflow bound (the largest double plus half a unit in its last place) reads as an infinity, and an int there raises OverflowError. Digits other than ASCII digits, which `float()` also accepts, are left out.
- `Calendar.FromIsoFormat`: only the `YYYY-MM-DD` form is modelled. The other forms that newer versions of `date.fromisoformat` accept (`YYYYMMDD`, week dates) are left out.
- `EntryService.FinanceEntryService.Update`: takes a typed patch (`Option` per field, `None` for "absent or None"). The source's `**kwargs` may carry any Python value. For example, the HTTP layer passes the date as unparsed text, which the model cannot represent.
- `EntryService.FinanceEntryService.Create`: when `float(amount)` raises, the model returns a `ConversionError` instead of the `TypeError`, `ValueError` or `OverflowError` with its message.
- Concurrency and transactions are left to the database engine (last writer wins) and are not modelled.
- The input mapping of `validate_entry_data` is a value here, so "the payload is never modified" holds by construction and has no separate lemma.
