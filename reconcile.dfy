/** What one save does to a table that already exists, as a function of the
    stored rows and the incoming rows, and what that guarantees. */
module Reconcile {
  import opened Rows
  import opened Classify

  /** Whether a save against an existing table writes anything: there is a
      changed row to replace or a new key to add. */
  function Writes(stored: seq<Row>, incoming: seq<Row>): bool
  {
    CheckUpdate(incoming, stored) != [] || CheckInsert(incoming, stored) != []
  }

  /** A save writes exactly when some incoming key is not stored yet, or
      some incoming fingerprint is not the fingerprint of any stored row
      whose key also comes in. */
  lemma WritesExactly(stored: seq<Row>, incoming: seq<Row>)
    ensures Writes(stored, incoming) <==>
      || !(Keys(incoming) <= Keys(stored))
      || !(Fingerprints(incoming) <= Fingerprints(WithKeyIn(stored, Keys(incoming))))
  {
    if !Writes(stored, incoming) {
      NoWriteCovered(stored, incoming);
    } else if Keys(incoming) <= Keys(stored) && Fingerprints(incoming) <= Fingerprints(WithKeyIn(stored, Keys(incoming))) {
      CoveredNoWrite(stored, incoming);
    }
  }

  /** For WritesExactly: with nothing to write, every incoming key is stored
      and every incoming fingerprint is one of a stored row of an incoming
      key. */
  lemma NoWriteCovered(stored: seq<Row>, incoming: seq<Row>)
    requires CheckUpdate(incoming, stored) == [] && CheckInsert(incoming, stored) == []
    ensures Keys(incoming) <= Keys(stored)
    ensures Fingerprints(incoming) <= Fingerprints(WithKeyIn(stored, Keys(incoming)))
  {
    forall k | k in Keys(incoming) ensures k in Keys(stored) {
      var r :| r in incoming && r.key == k;
      assert r !in CheckInsert(incoming, stored);
    }
    forall f | f in Fingerprints(incoming) ensures f in Fingerprints(WithKeyIn(stored, Keys(incoming))) {
      var r :| r in incoming && Fingerprint(r) == f;
      FingerprintCovered(stored, incoming, r);
    }
  }

  /** For NoWriteCovered, one incoming row of a stored key that is not to be
      updated. */
  lemma FingerprintCovered(stored: seq<Row>, incoming: seq<Row>, r: Row)
    requires r in incoming && r.key in Keys(stored) && r !in CheckUpdate(incoming, stored)
    ensures Fingerprint(r) in Fingerprints(WithKeyIn(stored, Keys(incoming)))
  {
    var s :| s in stored && s.key in Keys(incoming) && Fingerprint(s) == Fingerprint(r);
    assert s in WithKeyIn(stored, Keys(incoming));
  }

  /** For WritesExactly: the converse of NoWriteCovered. */
  lemma CoveredNoWrite(stored: seq<Row>, incoming: seq<Row>)
    requires Keys(incoming) <= Keys(stored)
    requires Fingerprints(incoming) <= Fingerprints(WithKeyIn(stored, Keys(incoming)))
    ensures CheckUpdate(incoming, stored) == [] && CheckInsert(incoming, stored) == []
  {
    forall r | r in incoming ensures r !in CheckUpdate(incoming, stored) && r !in CheckInsert(incoming, stored) {
      RowCovered(stored, incoming, r);
    }
    NoMembersEmpty(CheckUpdate(incoming, stored));
    NoMembersEmpty(CheckInsert(incoming, stored));
  }

  /** For CoveredNoWrite, one incoming row. */
  lemma RowCovered(stored: seq<Row>, incoming: seq<Row>, r: Row)
    requires Keys(incoming) <= Keys(stored)
    requires Fingerprints(incoming) <= Fingerprints(WithKeyIn(stored, Keys(incoming)))
    requires r in incoming
    ensures r !in CheckUpdate(incoming, stored) && r !in CheckInsert(incoming, stored)
  {
    assert r.key in Keys(incoming);
    assert Fingerprint(r) in Fingerprints(incoming);
    var s :| s in WithKeyIn(stored, Keys(incoming)) && Fingerprint(s) == Fingerprint(r);
    FingerprintTwinMasksChange(incoming, stored, r, s);
  }

  /** The table after a save against an existing table: with rows to update,
      the stored rows of those keys are deleted and the updated rows then the
      new rows are appended; with only new rows, they are appended; otherwise
      the table stays as it was. A stored row survives exactly when its key
      was not updated. */
  function Upserted(stored: seq<Row>, incoming: seq<Row>): (table: seq<Row>)
    ensures forall x :: x in stored ==> (x in table <==> x.key !in Keys(CheckUpdate(incoming, stored)))
  {
    var toUpdate := CheckUpdate(incoming, stored);
    var toInsert := CheckInsert(incoming, stored);
    StoredRowFate(stored, incoming);
    if toUpdate != [] then
      WithKeyNotIn(stored, Keys(toUpdate)) + toUpdate + toInsert
    else if toInsert != [] then
      stored + toInsert
    else
      stored
  }

  /** For Upserted: a stored row is neither an updated nor an inserted row. */
  lemma StoredRowFate(stored: seq<Row>, incoming: seq<Row>)
    ensures forall x :: x in stored ==> x !in CheckUpdate(incoming, stored) && x !in CheckInsert(incoming, stored)
  {
    forall x | x in stored ensures x !in CheckUpdate(incoming, stored) && x !in CheckInsert(incoming, stored) {
      if x in CheckUpdate(incoming, stored) {
        UpdatedRowsDiffer(incoming, stored, x);
      }
    }
  }

  /** The save reports a write exactly when the table changes. */
  lemma {:induction false} WritesIffChanged(stored: seq<Row>, incoming: seq<Row>)
    ensures Writes(stored, incoming) <==> Upserted(stored, incoming) != stored
  {
    var toUpdate := CheckUpdate(incoming, stored);
    if toUpdate != [] {
      var u := toUpdate[0];
      assert u in toUpdate;
      UpdatedRowsDiffer(incoming, stored, u);
      assert u in Upserted(stored, incoming);
    }
  }

  /** No stored key is lost and every incoming key ends up stored. */
  lemma {:induction false} UpsertedKeys(stored: seq<Row>, incoming: seq<Row>)
    ensures Keys(Upserted(stored, incoming)) == Keys(stored) + Keys(incoming)
  {
    var toUpdate := CheckUpdate(incoming, stored);
    var toInsert := CheckInsert(incoming, stored);
    var result := Upserted(stored, incoming);
    SubsequenceMembers(toUpdate, incoming);
    SubsequenceMembers(toInsert, incoming);
    forall k | k in Keys(stored) + Keys(incoming) ensures k in Keys(result) {
      if k in Keys(stored) {
        var s :| s in stored && s.key == k;
        if toUpdate != [] && k in Keys(toUpdate) {
          var u :| u in toUpdate && u.key == k;
          assert u in result;
        } else {
          assert s in result;
        }
      } else {
        var r :| r in incoming && r.key == k;
        assert r in toInsert;
        assert r in result;
      }
    }
    forall k | k in Keys(result) ensures k in Keys(stored) + Keys(incoming) {
      var r :| r in result && r.key == k;
      assert r in stored || r in incoming;
    }
  }

  /** With unique keys in the stored and in the incoming table, the table
      keeps unique keys: a replaced key is re-added exactly once and an
      inserted key is new. */
  lemma {:induction false} UpsertKeepsKeysUnique(stored: seq<Row>, incoming: seq<Row>)
    requires UniqueKeys(stored) && UniqueKeys(incoming)
    ensures UniqueKeys(Upserted(stored, incoming))
  {
    var toUpdate := CheckUpdate(incoming, stored);
    var toInsert := CheckInsert(incoming, stored);
    SubsequenceKeepsUniqueKeys(toInsert, incoming);
    SubsequenceMembers(toInsert, incoming);
    assert Keys(stored) !! Keys(toInsert);
    if toUpdate != [] {
      var kept := WithKeyNotIn(stored, Keys(toUpdate));
      SubsequenceKeepsUniqueKeys(toUpdate, incoming);
      SubsequenceKeepsUniqueKeys(kept, stored);
      SubsequenceMembers(kept, stored);
      assert Keys(kept) !! Keys(toUpdate);
      UniqueKeysAppend(kept, toUpdate);
      assert Keys(toUpdate) <= Keys(stored);
      UniqueKeysAppend(kept + toUpdate, toInsert);
    } else if toInsert != [] {
      UniqueKeysAppend(stored, toInsert);
    }
  }

  /** Every row of the new table was stored or came in, and every incoming
      row with a new key is in it. */
  lemma {:induction false} UpsertedRows(stored: seq<Row>, incoming: seq<Row>)
    ensures forall r :: r in Upserted(stored, incoming) ==> r in stored || r in incoming
    ensures forall r :: r in incoming && r.key !in Keys(stored) ==> r in Upserted(stored, incoming)
    ensures forall r :: r in CheckUpdate(incoming, stored) ==> r in Upserted(stored, incoming)
  {
    SubsequenceMembers(CheckUpdate(incoming, stored), incoming);
  }

  /** Saving the stored data again changes nothing and reports no write. */
  lemma UpsertSelf(d: seq<Row>)
    ensures Upserted(d, d) == d
    ensures !Writes(d, d)
  {
    CheckUpdateSelf(d);
    CheckInsertSelf(d);
  }

  /** When no incoming key is stored yet, the incoming rows are appended
      as they are. */
  lemma UpsertDisjoint(stored: seq<Row>, incoming: seq<Row>)
    requires Keys(stored) !! Keys(incoming)
    ensures Upserted(stored, incoming) == stored + incoming
  {
    DisjointKeys(incoming, stored);
  }

  /** No stored row has the fingerprint of an incoming row of another key. */
  predicate NoCrossKeyCoincidence(stored: seq<Row>, incoming: seq<Row>)
  {
    forall s, r :: s in stored && r in incoming && Fingerprint(s) == Fingerprint(r) ==> s.key == r.key
  }

  /** Saving the same incoming rows a second time writes nothing, provided the
      incoming keys are unique and no fingerprint coincides across keys. */
  lemma {:induction false} SecondSaveWritesNothing(stored: seq<Row>, incoming: seq<Row>)
    requires UniqueKeys(incoming) && NoCrossKeyCoincidence(stored, incoming)
    ensures !Writes(Upserted(stored, incoming), incoming)
  {
    var table := Upserted(stored, incoming);
    var toUpdate := CheckUpdate(incoming, stored);
    UpsertedKeys(stored, incoming);
    UpsertedRows(stored, incoming);
    SubsequenceMembers(toUpdate, incoming);
    forall r | r in incoming ensures r !in CheckInsert(incoming, table) {
      assert r.key in Keys(incoming);
    }
    NoMembersEmpty(CheckInsert(incoming, table));
    forall r | r in incoming ensures r !in CheckUpdate(incoming, table) {
      var twin := StoredTwin(stored, incoming, r);
      assert twin.key in Keys(incoming);
      FingerprintTwinMasksChange(incoming, table, r, twin);
    }
    NoMembersEmpty(CheckUpdate(incoming, table));
  }

  /** For SecondSaveWritesNothing: a row of the new table under the key of
      the incoming row `r` with the fingerprint of `r`. */
  lemma StoredTwin(stored: seq<Row>, incoming: seq<Row>, r: Row) returns (twin: Row)
    requires UniqueKeys(incoming) && NoCrossKeyCoincidence(stored, incoming)
    requires r in incoming
    ensures twin in Upserted(stored, incoming)
    ensures twin.key == r.key && Fingerprint(twin) == Fingerprint(r)
  {
    var toUpdate := CheckUpdate(incoming, stored);
    UpsertedRows(stored, incoming);
    if r in toUpdate || r.key !in Keys(stored) {
      twin := r;
    } else {
      assert r.key in Keys(incoming);
      twin :| twin in stored && twin.key in Keys(incoming) && Fingerprint(twin) == Fingerprint(r);
      assert twin.key == r.key;
      if toUpdate != [] {
        SubsequenceMembers(toUpdate, incoming);
        assert twin in WithKeyNotIn(stored, Keys(toUpdate));
      }
    }
  }
}
