/**
 * The FinanceEntryRepository contract: what each of its five operations
 * promises about the stored table, stated over an abstract table from id
 * to row. The in-memory repository states its own contracts through these
 * predicates.
 */
module Repository {
  import opened Wrappers
  import opened Entities

  /** The stored entries: one row per id. */
  type Table = map<int, Row>

  /** No id occurs twice in `ids`. */
  ghost predicate Distinct(ids: seq<int>) {
    forall i, j :: 0 <= i < j < |ids| ==> ids[i] != ids[j]
  }

  /** `list_entries`: every stored entry, each once. */
  ghost predicate ListsAll(table: Table, ids: seq<int>) {
    Distinct(ids) && forall k :: k in ids <==> k in table
  }

  /** `get_by_id`: the row stored under `id`, or nothing. */
  ghost predicate Finds(table: Table, id: int, found: Option<Row>) {
    found == if id in table then Some(table[id]) else None
  }

  /** `add`: the row is stored under an id that was not in use, and nothing else changes. */
  ghost predicate Adds(before: Table, after: Table, row: Row, id: int) {
    id !in before && after == before[id := row]
  }

  /** `update`: the row under an existing id is replaced; an unknown or missing id changes nothing. */
  ghost predicate Updates(before: Table, after: Table, id: Option<int>, row: Row, updated: bool) {
    && updated == (id.Some? && id.value in before)
    && after == if updated then before[id.value := row] else before
  }

  /** `delete`: reports whether `id` was stored, and afterwards it is not. */
  ghost predicate Deletes(before: Table, after: Table, id: int, removed: bool) {
    removed == (id in before) && after == before - {id}
  }

  /** A listing of all entries is exactly as long as the table. */
  lemma {:induction false} ListsAllCount(table: Table, ids: seq<int>)
    requires ListsAll(table, ids)
    ensures |ids| == |table|
    decreases |ids|
  {
    if ids == [] {
      forall k ensures k !in table.Keys {
        assert k !in ids;
      }
      assert table.Keys == {};
    } else {
      var k := ids[0];
      var rest := table - {k};
      forall x ensures x in ids[1..] <==> x in rest {
        if x in ids[1..] {
          var j :| 0 <= j < |ids[1..]| && ids[1..][j] == x;
          assert ids[j + 1] == x;
        }
        if x in rest {
          assert x in ids;
          var j :| 0 <= j < |ids| && ids[j] == x;
          assert j != 0;
          assert ids[1..][j - 1] == x;
        }
      }
      assert Distinct(ids[1..]) by {
        forall i, j | 0 <= i < j < |ids[1..]| ensures ids[1..][i] != ids[1..][j] {
          assert ids[1..][i] == ids[i + 1] && ids[1..][j] == ids[j + 1];
        }
      }
      ListsAllCount(rest, ids[1..]);
      assert table.Keys == rest.Keys + {k};
    }
  }

  /** What `add` stored is what `get_by_id` finds under the id it assigned. */
  lemma AddThenFind(before: Table, after: Table, row: Row, id: int, found: Option<Row>)
    requires Adds(before, after, row, id) && Finds(after, id, found)
    ensures found == Some(row)
    ensures |after| == |before| + 1
  {
  }

  /** Deleting the same id twice: the second delete reports false and changes nothing. */
  lemma DeleteTwice(table: Table, once: Table, twice: Table, id: int, first: bool, second: bool)
    requires Deletes(table, once, id, first) && Deletes(once, twice, id, second)
    ensures !second && twice == once
    ensures first <==> id in table
  {
  }

  /** An update reports success exactly when `get_by_id` would have found the id. */
  lemma UpdateFailsIffNotFound(before: Table, after: Table, id: int, row: Row, updated: bool, found: Option<Row>)
    requires Updates(before, after, Some(id), row, updated) && Finds(before, id, found)
    ensures updated <==> found.Some?
    ensures !updated ==> after == before
    ensures updated ==> |after| == |before| && after.Keys == before.Keys
  {
  }
}
