/** Worked reconciliations on small concrete tables: one save that keeps,
    changes and adds a key, and a pair of saves showing that the value-level
    symmetric difference can make a repeated save write again. */
module Scenarios {
  import opened Rows
  import opened Classify
  import opened Reconcile

  /** Keys "1" and "2" stored with values "a" and "b"; the incoming table keeps
      key 1, changes key 2 to "c" and adds key 3 with "d". */
  predicate ChangeAndInsertExample(stored: seq<Row>, incoming: seq<Row>)
  {
    && stored == [Row("1", ["a"]), Row("2", ["b"])]
    && incoming == [Row("1", ["a"]), Row("2", ["c"]), Row("3", ["d"])]
  }

  lemma ChangeAndInsertKeysUnique(stored: seq<Row>, incoming: seq<Row>)
    requires ChangeAndInsertExample(stored, incoming)
    ensures UniqueKeys(stored) && UniqueKeys(incoming)
  {
  }

  lemma ChangeAndInsertKey2Changed(stored: seq<Row>, incoming: seq<Row>)
    requires ChangeAndInsertExample(stored, incoming)
    ensures incoming[1] in CheckUpdate(incoming, stored)
  {
    assert "2" in Keys(stored);
    assert Fingerprint(stored[0]) == "a" && Fingerprint(stored[1]) == "b";
    assert Fingerprint(incoming[1]) == "c";
  }

  lemma ChangeAndInsertKey1Unchanged(stored: seq<Row>, incoming: seq<Row>)
    requires ChangeAndInsertExample(stored, incoming)
    ensures incoming[0] !in CheckUpdate(incoming, stored)
  {
    assert "1" in Keys(incoming);
    FingerprintTwinMasksChange(incoming, stored, incoming[0], stored[0]);
  }

  lemma ChangeAndInsertKey3New(stored: seq<Row>, incoming: seq<Row>)
    requires ChangeAndInsertExample(stored, incoming)
    ensures incoming[2] !in CheckUpdate(incoming, stored)
  {
    assert "3" !in Keys(stored);
  }

  lemma ChangeAndInsertUpdate(stored: seq<Row>, incoming: seq<Row>)
    requires ChangeAndInsertExample(stored, incoming)
    ensures CheckUpdate(incoming, stored) == [incoming[1]]
  {
    ChangeAndInsertKey2Changed(stored, incoming);
    ChangeAndInsertKey1Unchanged(stored, incoming);
    ChangeAndInsertKey3New(stored, incoming);
    ChangeAndInsertKeysUnique(stored, incoming);
    SubsequenceSingle(CheckUpdate(incoming, stored), incoming, 1);
  }

  lemma ChangeAndInsertInsert(stored: seq<Row>, incoming: seq<Row>)
    requires ChangeAndInsertExample(stored, incoming)
    ensures CheckInsert(incoming, stored) == [incoming[2]]
  {
    assert Keys(stored) == {"1", "2"};
    ChangeAndInsertKeysUnique(stored, incoming);
    SubsequenceSingle(CheckInsert(incoming, stored), incoming, 2);
  }

  /** After the save, key 1 is untouched, key 2 holds "c" and key 3 holds
      "d", in that order, and the save reports a write. */
  lemma ChangeAndInsertSave(stored: seq<Row>, incoming: seq<Row>)
    requires ChangeAndInsertExample(stored, incoming)
    ensures Upserted(stored, incoming) == [stored[0], incoming[1], incoming[2]]
    ensures Writes(stored, incoming)
  {
    assert [stored[0], incoming[1], incoming[2]] == [stored[0]] + [incoming[1]] + [incoming[2]];
    ChangeAndInsertUpdate(stored, incoming);
    ChangeAndInsertInsert(stored, incoming);
    DeleteKey2(stored, incoming[1]);
    SaveReplacingOneRow(stored, incoming, incoming[1], [stored[0]], [incoming[2]]);
  }

  /** A save whose update set is one row: the stored rows left by deleting
      its key, then that row, then the new rows. */
  lemma SaveReplacingOneRow(stored: seq<Row>, incoming: seq<Row>, changed: Row, kept: seq<Row>, added: seq<Row>)
    requires CheckUpdate(incoming, stored) == [changed] && CheckInsert(incoming, stored) == added
    requires WithKeyNotIn(stored, Keys([changed])) == kept
    ensures Upserted(stored, incoming) == kept + [changed] + added
    ensures Writes(stored, incoming)
  {
  }

  /** Deleting key 2 from the stored table of both examples leaves key 1. */
  lemma DeleteKey2(stored: seq<Row>, changed: Row)
    requires stored == [Row("1", ["a"]), Row("2", ["b"])] && changed.key == "2"
    ensures WithKeyNotIn(stored, Keys([changed])) == [stored[0]]
  {
    assert Keys([changed]) == {"2"};
  }

  /** Keys "1" and "2" stored with "a" and "b"; the incoming table gives key 1
      the old value of key 2 and key 2 a value never seen. */
  predicate CoincidenceExample(stored: seq<Row>, incoming: seq<Row>)
  {
    && stored == [Row("1", ["a"]), Row("2", ["b"])]
    && incoming == [Row("1", ["b"]), Row("2", ["c"])]
  }

  lemma CoincidenceKeysUnique(stored: seq<Row>, incoming: seq<Row>)
    requires CoincidenceExample(stored, incoming)
    ensures UniqueKeys(stored) && UniqueKeys(incoming)
  {
  }

  lemma CoincidenceKey2Changed(stored: seq<Row>, incoming: seq<Row>)
    requires CoincidenceExample(stored, incoming)
    ensures incoming[1] in CheckUpdate(incoming, stored)
  {
    assert "2" in Keys(stored);
    assert Fingerprint(stored[0]) == "a" && Fingerprint(stored[1]) == "b";
    assert Fingerprint(incoming[1]) == "c";
  }

  /** Key 1 changes from "a" to "b", but "b" is the stored fingerprint of
      key 2, so the change is not reported. */
  lemma CoincidenceKey1Masked(stored: seq<Row>, incoming: seq<Row>)
    requires CoincidenceExample(stored, incoming)
    ensures incoming[0] !in CheckUpdate(incoming, stored)
  {
    assert "2" in Keys(incoming);
    assert Fingerprint(stored[1]) == "b" && Fingerprint(incoming[0]) == "b";
    FingerprintTwinMasksChange(incoming, stored, incoming[0], stored[1]);
  }

  lemma CoincidenceFirstUpdate(stored: seq<Row>, incoming: seq<Row>)
    requires CoincidenceExample(stored, incoming)
    ensures CheckUpdate(incoming, stored) == [incoming[1]]
  {
    CoincidenceKey2Changed(stored, incoming);
    CoincidenceKey1Masked(stored, incoming);
    CoincidenceKeysUnique(stored, incoming);
    SubsequenceSingle(CheckUpdate(incoming, stored), incoming, 1);
  }

  lemma CoincidenceFirstInsert(stored: seq<Row>, incoming: seq<Row>)
    requires CoincidenceExample(stored, incoming)
    ensures CheckInsert(incoming, stored) == []
  {
    assert Keys(stored) == {"1", "2"};
    NoMembersEmpty(CheckInsert(incoming, stored));
  }

  /** The first save replaces key 2 only: key 1 keeps "a" although "b" came
      in for it. */
  lemma CoincidenceFirstSave(stored: seq<Row>, incoming: seq<Row>)
    requires CoincidenceExample(stored, incoming)
    ensures Upserted(stored, incoming) == [stored[0], incoming[1]]
    ensures Writes(stored, incoming)
  {
    assert [stored[0], incoming[1]] == [stored[0]] + [incoming[1]] + [];
    CoincidenceFirstUpdate(stored, incoming);
    CoincidenceFirstInsert(stored, incoming);
    DeleteKey2(stored, incoming[1]);
    SaveReplacingOneRow(stored, incoming, incoming[1], [stored[0]], []);
  }

  /** Saving the same incoming table again now finds key 1 changed. */
  lemma CoincidenceSecondSave(table: seq<Row>, incoming: seq<Row>)
    requires table == [Row("1", ["a"]), Row("2", ["c"])]
    requires incoming == [Row("1", ["b"]), Row("2", ["c"])]
    ensures incoming[0] in CheckUpdate(incoming, table)
  {
    assert "1" in Keys(table);
    assert Fingerprint(table[0]) == "a" && Fingerprint(table[1]) == "c";
    assert Fingerprint(incoming[0]) == "b";
  }

  /** Without the proviso of SecondSaveWritesNothing, saving the same data
      twice can write both times. */
  lemma SecondSaveCanWriteAgain(stored: seq<Row>, incoming: seq<Row>)
    requires CoincidenceExample(stored, incoming)
    ensures Writes(stored, incoming)
    ensures Writes(Upserted(stored, incoming), incoming)
  {
    CoincidenceFirstSave(stored, incoming);
    CoincidenceSecondSave(Upserted(stored, incoming), incoming);
  }
}
