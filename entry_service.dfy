/**
 * FinanceEntryService: the application use cases (list, get, create,
 * partial update, delete) run against the repository.
 */
module EntryService {
  import opened Wrappers
  import opened Calendar
  import opened FloatText
  import opened PythonValues
  import opened Entities
  import opened Repository
  import opened SqlAlchemyRepo

  const NotFound := "Not found"

  /**
   * The keyword arguments of `update`: one optional value per field, where
   * `None` stands both for a field left out and for one passed as `None`.
   */
  datatype Patch = Patch(description: Option<string>, amount: Option<Float>, category: Option<string>, date: Option<Date>)

  const NoChanges := Patch(None, None, None, None)

  /** `field in kwargs and kwargs[field] is not None`. */
  predicate Supplied(patch: Patch, field: EntryField) {
    match field
    case DescriptionField => patch.description.Some?
    case AmountField => patch.amount.Some?
    case CategoryField => patch.category.Some?
    case DateField => patch.date.Some?
  }

  /** One pass of the update loop: `setattr(entry, field, kwargs[field])` when supplied. */
  function Assign(row: Row, field: EntryField, patch: Patch): Row {
    match field
    case DescriptionField => if patch.description.Some? then row.(description := patch.description.value) else row
    case AmountField => if patch.amount.Some? then row.(amount := patch.amount.value) else row
    case CategoryField => if patch.category.Some? then row.(category := patch.category.value) else row
    case DateField => if patch.date.Some? then row.(date := patch.date.value) else row
  }

  /** The update loop run over `fields`, in order. */
  function ApplyFields(row: Row, patch: Patch, fields: seq<EntryField>): Row {
    if fields == [] then row
    else Assign(ApplyFields(row, patch, fields[..|fields| - 1]), fields[|fields| - 1], patch)
  }

  /** The row after a partial update: each supplied field replaced, every other one kept. */
  function Patched(row: Row, patch: Patch): Row {
    Row(
      patch.description.GetOr(row.description),
      patch.amount.GetOr(row.amount),
      patch.category.GetOr(row.category),
      patch.date.GetOr(row.date))
  }

  /** Running the loop over all four fields gives the patched row. */
  lemma {:induction false} LoopPatches(row: Row, patch: Patch)
    ensures ApplyFields(row, patch, EntryFields) == Patched(row, patch)
  {
    var f := EntryFields;
    assert f[..4][..3] == f[..3] && f[..3][..2] == f[..2] && f[..2][..1] == f[..1] && f[..1][..0] == [];
    assert f[..4] == f;
    assert ApplyFields(row, patch, f[..1]) == Assign(row, DescriptionField, patch);
    assert ApplyFields(row, patch, f[..2]) == Assign(Assign(row, DescriptionField, patch), AmountField, patch);
  }

  /** A field is replaced exactly when it is supplied, and then by the supplied value. */
  lemma PatchedFields(row: Row, patch: Patch)
    ensures Patched(row, patch).description == row.description <== !Supplied(patch, DescriptionField)
    ensures Supplied(patch, DescriptionField) ==> Patched(row, patch).description == patch.description.value
    ensures Patched(row, patch).amount == row.amount <== !Supplied(patch, AmountField)
    ensures Supplied(patch, AmountField) ==> Patched(row, patch).amount == patch.amount.value
    ensures Patched(row, patch).category == row.category <== !Supplied(patch, CategoryField)
    ensures Supplied(patch, CategoryField) ==> Patched(row, patch).category == patch.category.value
    ensures Patched(row, patch).date == row.date <== !Supplied(patch, DateField)
    ensures Supplied(patch, DateField) ==> Patched(row, patch).date == patch.date.value
  {
  }

  /** An update that supplies no field writes the loaded row back unchanged. */
  lemma NoChangesKeepsRow(row: Row)
    ensures Patched(row, NoChanges) == row
  {
  }

  /** Applying the same update twice is the same as applying it once. */
  lemma PatchedIdempotent(row: Row, patch: Patch)
    ensures Patched(Patched(row, patch), patch) == Patched(row, patch)
  {
  }

  /** `setattr(entry, field, kwargs[field])` for a supplied field; the id is never touched. */
  method SetAttr(entry: FinanceEntry, field: EntryField, patch: Patch)
    modifies entry
    ensures entry.Columns() == Assign(old(entry.Columns()), field, patch)
    ensures entry.id == old(entry.id)
  {
    match field
    case DescriptionField => if patch.description.Some? { entry.description := patch.description.value; }
    case AmountField => if patch.amount.Some? { entry.amount := patch.amount.value; }
    case CategoryField => if patch.category.Some? { entry.category := patch.category.value; }
    case DateField => if patch.date.Some? { entry.date := patch.date.value; }
  }

  class FinanceEntryService {
    const repo: SqlAlchemyFinanceEntryRepository

    constructor (repo: SqlAlchemyFinanceEntryRepository)
      ensures this.repo == repo
    {
      this.repo := repo;
    }

    /** `list()`: the repository's listing, unchanged. */
    method List() returns (entries: seq<FinanceEntry>, ghost ids: seq<int>)
      ensures IsListing(repo.rows, ids) && |entries| == |ids|
      ensures forall i :: 0 <= i < |entries| ==>
        fresh(entries[i]) && entries[i].id == Some(ids[i]) && entries[i].Columns() == repo.rows[ids[i]]
    {
      entries, ids := repo.ListEntries();
    }

    /** `get(entry_id)`: the repository's lookup, `null` for an unknown id. */
    method Get(entryId: int) returns (entry: FinanceEntry?)
      ensures Finds(repo.rows, entryId, if entry == null then None else Some(entry.Columns()))
      ensures entry != null ==> fresh(entry) && entry.id == Some(entryId)
    {
      entry := repo.GetById(entryId);
    }

    /**
     * `create(...)`: a new entry with no id and the fields exactly as given
     * (nothing trimmed or checked), the amount through `float()`, added to
     * the repository. When `float()` raises, nothing is stored.
     */
    method Create(description: string, amount: Value, category: string, entryDate: Date) returns (r: Result<FinanceEntry>)
      requires repo.Valid()
      modifies repo
      ensures repo.Valid()
      ensures ToFloat(amount).None? <==> r.Err?
      ensures r.Err? ==> r.error == ConversionError && repo.rows == old(repo.rows)
      ensures r.Ok? ==> fresh(r.value) && r.value.id.Some?
      ensures r.Ok? ==> r.value.Columns() == Row(description, ToFloat(amount).value, category, entryDate)
      ensures r.Ok? ==> Adds(old(repo.rows), repo.rows, r.value.Columns(), r.value.id.value)
    {
      var converted := ToFloat(amount);
      if converted.None? {
        return Err(ConversionError);
      }
      var entry := new FinanceEntry(None, description, converted.value, category, entryDate);
      var added := repo.Add(entry);
      r := Ok(added);
    }

    /**
     * `update(entry_id, **kwargs)`: loads the entry, overwrites each supplied
     * field in the order description, amount, category, date, and writes it
     * back; "Not found" for an unknown id, with nothing written.
     */
    method Update(entryId: int, patch: Patch) returns (r: Result<FinanceEntry>)
      requires repo.Valid()
      modifies repo
      ensures repo.Valid() && repo.lastId == old(repo.lastId)
      ensures entryId !in old(repo.rows) ==> r == Err(ValueError(NotFound)) && repo.rows == old(repo.rows)
      ensures entryId in old(repo.rows) ==> r.Ok? && fresh(r.value) && r.value.id == Some(entryId)
      ensures entryId in old(repo.rows) ==> r.value.Columns() == Patched(old(repo.rows)[entryId], patch)
      ensures entryId in old(repo.rows) ==> repo.rows == old(repo.rows)[entryId := Patched(old(repo.rows)[entryId], patch)]
    {
      var entry := repo.GetById(entryId);
      if entry == null {
        return Err(ValueError(NotFound));
      }
      ghost var loaded := entry.Columns();
      for i := 0 to |EntryFields|
        invariant entry.Columns() == ApplyFields(loaded, patch, EntryFields[..i])
        invariant entry.id == Some(entryId)
        invariant repo.rows == old(repo.rows) && repo.Valid() && repo.lastId == old(repo.lastId)
      {
        assert EntryFields[..i + 1][..i] == EntryFields[..i];
        SetAttr(entry, EntryFields[i], patch);
      }
      LoopPatches(loaded, patch);
      assert EntryFields[..|EntryFields|] == EntryFields;
      r := repo.Update(entry);
    }

    /** `delete(entry_id)`: the repository's answer, unchanged. */
    method Delete(entryId: int) returns (removed: bool)
      requires repo.Valid()
      modifies repo
      ensures repo.Valid() && repo.lastId == old(repo.lastId)
      ensures Deletes(old(repo.rows), repo.rows, entryId, removed)
    {
      removed := repo.Delete(entryId);
    }
  }
}
