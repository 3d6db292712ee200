/**
 * The SQL-backed FinanceEntryRepository, with the `finance_entries` table
 * held in memory as a map from id to row and the autoincrement key as a
 * counter.
 */
module SqlAlchemyRepo {
  import opened Wrappers
  import opened Calendar
  import opened Entities
  import opened Repository

  const EntryNotFound := "Entry not found"

  /**
   * `ORDER BY date DESC, id DESC`: entry `a` comes before entry `b` when its
   * date is later, or the dates are equal and its id is larger.
   */
  predicate ListedBefore(a: int, ra: Row, b: int, rb: Row) {
    Earlier(rb.date, ra.date) || (ra.date == rb.date && a > b)
  }

  /** Every id of `ids` is stored in `table`. */
  ghost predicate InTable(table: Table, ids: seq<int>) {
    forall i :: 0 <= i < |ids| ==> ids[i] in table
  }

  /** `ids` is in strictly descending (date, id) order. */
  ghost predicate Ordered(table: Table, ids: seq<int>)
    requires InTable(table, ids)
  {
    forall i, j :: 0 <= i < j < |ids| ==> ListedBefore(ids[i], table[ids[i]], ids[j], table[ids[j]])
  }

  /** The ids `list_entries` returns, in the order it returns them. */
  ghost predicate IsListing(table: Table, ids: seq<int>) {
    InTable(table, ids) && Ordered(table, ids) && ListsAll(table, ids)
  }

  /** Two distinct stored entries are always ordered one way or the other. */
  lemma ListedBeforeTotal(a: int, ra: Row, b: int, rb: Row)
    requires a != b
    ensures ListedBefore(a, ra, b, rb) || ListedBefore(b, rb, a, ra)
    ensures !(ListedBefore(a, ra, b, rb) && ListedBefore(b, rb, a, ra))
  {
  }

  /** Puts id `k` into the ordered listing `ids` where the order wants it. */
  function Insert(table: Table, k: int, ids: seq<int>): (r: seq<int>)
    requires k in table && k !in ids && InTable(table, ids) && Ordered(table, ids)
    ensures InTable(table, r) && Ordered(table, r)
    ensures |r| == |ids| + 1
    ensures forall x :: x in r <==> x == k || x in ids
  {
    if ids == [] then [k]
    else if ListedBefore(k, table[k], ids[0], table[ids[0]]) then
      assert forall j :: 0 < j < |ids| ==> ListedBefore(k, table[k], ids[j], table[ids[j]]) by {
        forall j | 0 < j < |ids| ensures ListedBefore(k, table[k], ids[j], table[ids[j]]) {
          ListedBeforeTransitive(k, table[k], ids[0], table[ids[0]], ids[j], table[ids[j]]);
        }
      }
      [k] + ids
    else
      ListedBeforeTotal(k, table[k], ids[0], table[ids[0]]);
      var rest := Insert(table, k, ids[1..]);
      assert forall j :: 0 <= j < |rest| ==> ListedBefore(ids[0], table[ids[0]], rest[j], table[rest[j]]) by {
        forall j | 0 <= j < |rest| ensures ListedBefore(ids[0], table[ids[0]], rest[j], table[rest[j]]) {
          if rest[j] != k {
            assert rest[j] in ids[1..];
            var m :| 0 <= m < |ids[1..]| && ids[1..][m] == rest[j];
            assert ids[m + 1] == rest[j];
          }
        }
      }
      [ids[0]] + rest
  }

  /** A set that is not empty has an element. */
  lemma NonEmptyHasElement(s: set<int>)
    requires s != {}
    ensures exists k :: k in s
  {
    assert (forall k :: k !in s) ==> s == {};
  }

  /** The listing order chains: before-before is before. */
  lemma ListedBeforeTransitive(a: int, ra: Row, b: int, rb: Row, c: int, rc: Row)
    requires ListedBefore(a, ra, b, rb) && ListedBefore(b, rb, c, rc)
    ensures ListedBefore(a, ra, c, rc)
  {
  }

  /** The query behind `list_entries`: every stored id once, in the listing order. */
  method OrderedIds(table: Table) returns (ids: seq<int>)
    ensures IsListing(table, ids)
  {
    var pending := table.Keys;
    ids := [];
    while pending != {}
      invariant pending <= table.Keys
      invariant InTable(table, ids) && Ordered(table, ids)
      invariant forall x :: x in ids <==> x in table && x !in pending
      decreases |pending|
    {
      NonEmptyHasElement(pending);
      var k :| k in pending;
      ids := Insert(table, k, ids);
      pending := pending - {k};
    }
    OrderedDistinct(table, ids);
  }

  lemma OrderedDistinct(table: Table, ids: seq<int>)
    requires InTable(table, ids) && Ordered(table, ids)
    ensures Distinct(ids)
  {
    forall i, j | 0 <= i < j < |ids| ensures ids[i] != ids[j] {
    }
  }

  /** The listing order leaves no choice: there is one listing per table. */
  lemma {:induction false} ListingUnique(table: Table, a: seq<int>, b: seq<int>)
    requires InTable(table, a) && Ordered(table, a)
    requires InTable(table, b) && Ordered(table, b)
    requires forall x :: x in a <==> x in b
    ensures a == b
    decreases |a|
  {
    if a == [] {
      forall x ensures x !in b { assert x !in a; }
      NoMembersEmpty(b);
    } else {
      assert a[0] in a;
      assert b[0] in a by { assert b[0] in b; }
      assert a[0] == b[0] by {
        var i :| 0 <= i < |a| && a[i] == b[0];
        var j :| 0 <= j < |b| && b[j] == a[0];
        if a[0] != b[0] {
          assert ListedBefore(a[0], table[a[0]], a[i], table[a[i]]);
          assert ListedBefore(b[0], table[b[0]], b[j], table[b[j]]);
          ListedBeforeTotal(a[0], table[a[0]], b[0], table[b[0]]);
        }
      }
      OrderedDistinct(table, a);
      OrderedDistinct(table, b);
      forall x ensures x in a[1..] <==> x in b[1..] {
        TailMembers(a, x);
        TailMembers(b, x);
      }
      ListingUnique(table, a[1..], b[1..]);
    }
  }

  lemma NoMembersEmpty(s: seq<int>)
    ensures (forall x :: x !in s) ==> s == []
  {
    if s != [] {
      var first := s[0];
      assert first in s;
    }
  }

  /** In a sequence without repetitions, the tail holds every element except the head. */
  lemma TailMembers(s: seq<int>, x: int)
    requires s != [] && Distinct(s)
    ensures x in s[1..] <==> x in s && x != s[0]
  {
    if x in s && x != s[0] {
      var j :| 0 <= j < |s| && s[j] == x;
      assert s[1..][j - 1] == x;
    }
    if x in s[1..] {
      var j :| 0 <= j < |s[1..]| && s[1..][j] == x;
      assert s[j + 1] == x;
    }
  }

  class SqlAlchemyFinanceEntryRepository {
    /** The `finance_entries` table. */
    var rows: Table
    /** The largest id handed out so far. */
    var lastId: nat

    /** Every stored id was handed out by `Add`. */
    ghost predicate Valid()
      reads this
    {
      forall k :: k in rows ==> 1 <= k <= lastId
    }

    constructor ()
      ensures Valid() && rows == map[] && lastId == 0
    {
      rows := map[];
      lastId := 0;
    }

    /** `list_entries()`: a new entity per stored row, latest date first, larger id first on a tie. */
    method ListEntries() returns (entries: seq<FinanceEntry>, ghost ids: seq<int>)
      ensures IsListing(rows, ids) && |entries| == |ids|
      ensures forall i :: 0 <= i < |entries| ==>
        fresh(entries[i]) && entries[i].id == Some(ids[i]) && entries[i].Columns() == rows[ids[i]]
    {
      var order := OrderedIds(rows);
      ids := order;
      entries := [];
      var i := 0;
      while i < |order|
        invariant 0 <= i <= |order| && |entries| == i
        invariant forall j :: 0 <= j < i ==>
          fresh(entries[j]) && entries[j].id == Some(order[j]) && entries[j].Columns() == rows[order[j]]
      {
        var row := rows[order[i]];
        var entry := new FinanceEntry(Some(order[i]), row.description, row.amount, row.category, row.date);
        entries := entries + [entry];
        i := i + 1;
      }
    }

    /** `get_by_id(entry_id)`: a new entity carrying the stored row, or `null` for an unknown id. */
    method GetById(entryId: int) returns (entry: FinanceEntry?)
      ensures Finds(rows, entryId, if entry == null then None else Some(entry.Columns()))
      ensures entry != null ==> fresh(entry) && entry.id == Some(entryId)
    {
      if entryId !in rows {
        return null;
      }
      var row := rows[entryId];
      entry := new FinanceEntry(Some(entryId), row.description, row.amount, row.category, row.date);
    }

    /**
     * `add(entry)`: stores the entry's fields under a new id, writes that id
     * into the entry and returns the same entry.
     */
    method Add(entry: FinanceEntry) returns (added: FinanceEntry)
      requires Valid()
      modifies this, entry`id
      ensures Valid() && added == entry
      ensures entry.id.Some? && Adds(old(rows), rows, entry.Columns(), entry.id.value)
      ensures entry.Columns() == old(entry.Columns())
    {
      lastId := lastId + 1;
      rows := rows[lastId := entry.Columns()];
      entry.id := Some(lastId);
      added := entry;
    }

    /**
     * `update(entry)`: overwrites the four fields of the row with the
     * entry's id, or raises "Entry not found" and changes nothing.
     */
    method Update(entry: FinanceEntry) returns (r: Result<FinanceEntry>)
      requires Valid()
      modifies this`rows
      ensures Valid()
      ensures Updates(old(rows), rows, entry.id, entry.Columns(), r.Ok?)
      ensures r.Ok? ==> r.value == entry
      ensures r.Err? ==> r.error == ValueError(EntryNotFound)
    {
      if entry.id.None? || entry.id.value !in rows {
        return Err(ValueError(EntryNotFound));
      }
      var id := entry.id.value;
      rows := rows[id := rows[id].(description := entry.description)];
      rows := rows[id := rows[id].(amount := entry.amount)];
      rows := rows[id := rows[id].(category := entry.category)];
      rows := rows[id := rows[id].(date := entry.date)];
      r := Ok(entry);
    }

    /** `delete(entry_id)`: removes the row and reports whether there was one. */
    method Delete(entryId: int) returns (removed: bool)
      requires Valid()
      modifies this`rows
      ensures Valid()
      ensures Deletes(old(rows), rows, entryId, removed)
    {
      if entryId !in rows {
        return false;
      }
      rows := rows - {entryId};
      removed := true;
    }
  }
}
