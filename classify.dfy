/** The diff classifier: which incoming rows carry changed content for a key
    that is already stored, and which incoming rows carry a key that is not
    stored yet. Both read the stored table and never change it. */
module Classify {
  import opened Rows

  /** The incoming rows to update. The keys common to both tables are taken;
      both tables are restricted to them; every row is fingerprinted; and the
      incoming rows whose fingerprint lies in the symmetric difference of the
      two fingerprint SETS are kept. An incoming row therefore survives exactly
      when its key is stored and no stored row among the common keys, under
      whatever key, has the same fingerprint, and then with every copy it has
      in the incoming table. */
  function CheckUpdate(incoming: seq<Row>, stored: seq<Row>): (toUpdate: seq<Row>)
    ensures SubsequenceOf(toUpdate, incoming)
    ensures forall r :: r in toUpdate <==>
      && r in incoming
      && r.key in Keys(stored)
      && forall s :: s in stored && s.key in Keys(incoming) ==> Fingerprint(s) != Fingerprint(r)
    ensures forall r {:trigger multiset(toUpdate)[r]} :: r in toUpdate ==> multiset(toUpdate)[r] == multiset(incoming)[r]
  {
    var intersection := Keys(stored) * Keys(incoming);
    if intersection != {} then
      var storedCommon := WithKeyIn(stored, intersection);
      var incomingCommon := WithKeyIn(incoming, intersection);
      var differentRows := SymmetricDifference(Fingerprints(storedCommon), Fingerprints(incomingCommon));
      var res := WithFingerprintIn(incomingCommon, differentRows);
      SubsequenceTransitive(res, incomingCommon, incoming);
      UpdateSelection(incoming, stored, intersection, storedCommon, incomingCommon, differentRows, res);
      UpdateCounts(incoming, intersection, differentRows);
      res
    else
      assert forall r :: r in incoming ==> r.key in intersection || r.key !in Keys(stored);
      []
  }

  /** The incoming rows to insert: those whose key lies in the symmetric
      difference of the stored and the incoming key sets, which for a row of
      the incoming table means a key the stored table does not have. */
  function CheckInsert(incoming: seq<Row>, stored: seq<Row>): (toInsert: seq<Row>)
    ensures SubsequenceOf(toInsert, incoming)
    ensures forall r :: r in toInsert <==> r in incoming && r.key !in Keys(stored)
    ensures forall r {:trigger multiset(toInsert)[r]} :: multiset(toInsert)[r] == if r.key in Keys(stored) then 0 else multiset(incoming)[r]
  {
    var difference := SymmetricDifference(Keys(stored), Keys(incoming));
    InsertCounts(incoming, stored, difference);
    if difference != {} then
      WithKeyIn(incoming, difference)
    else
      assert WithKeyIn(incoming, difference) == [];
      []
  }

  /** For CheckUpdate: the two filters keep every copy of a row they keep. */
  lemma UpdateCounts(incoming: seq<Row>, ks: set<Key>, fs: set<string>)
    ensures forall r :: r in WithFingerprintIn(WithKeyIn(incoming, ks), fs) ==>
                          multiset(WithFingerprintIn(WithKeyIn(incoming, ks), fs))[r] == multiset(incoming)[r]
  {
    forall r | r in WithFingerprintIn(WithKeyIn(incoming, ks), fs)
      ensures multiset(WithFingerprintIn(WithKeyIn(incoming, ks), fs))[r] == multiset(incoming)[r]
    {
      FingerprintFilterCounts(WithKeyIn(incoming, ks), fs, r);
      KeyFilterCounts(incoming, ks, r);
    }
  }

  /** For CheckInsert: selecting the incoming rows by the symmetric
      difference of the key sets keeps every copy of each row with an
      unstored key, and no row with a stored key. */
  lemma InsertCounts(incoming: seq<Row>, stored: seq<Row>, difference: set<Key>)
    requires difference == SymmetricDifference(Keys(stored), Keys(incoming))
    ensures forall r :: multiset(WithKeyIn(incoming, difference))[r] == if r.key in Keys(stored) then 0 else multiset(incoming)[r]
  {
    forall r ensures multiset(WithKeyIn(incoming, difference))[r] == if r.key in Keys(stored) then 0 else multiset(incoming)[r] {
      if r in incoming {
        assert r.key in Keys(incoming);
      }
      KeyFilterCounts(incoming, difference, r);
    }
  }

  /** What the fingerprint filter of CheckUpdate keeps, row by row: an
      incoming row lies in the symmetric difference exactly when its
      fingerprint is one of the common-key incoming fingerprints and none of
      the common-key stored ones. */
  lemma UpdateSelection(incoming: seq<Row>, stored: seq<Row>, intersection: set<Key>,
                        storedCommon: seq<Row>, incomingCommon: seq<Row>,
                        differentRows: set<string>, res: seq<Row>)
    requires intersection == Keys(stored) * Keys(incoming)
    requires storedCommon == WithKeyIn(stored, intersection)
    requires incomingCommon == WithKeyIn(incoming, intersection)
    requires differentRows == SymmetricDifference(Fingerprints(storedCommon), Fingerprints(incomingCommon))
    requires res == WithFingerprintIn(incomingCommon, differentRows)
    ensures forall r :: r in res <==>
      && r in incoming
      && r.key in Keys(stored)
      && forall s :: s in stored && s.key in Keys(incoming) ==> Fingerprint(s) != Fingerprint(r)
  {
    forall r
      ensures r in res <==>
        && r in incoming
        && r.key in Keys(stored)
        && forall s :: s in stored && s.key in Keys(incoming) ==> Fingerprint(s) != Fingerprint(r)
    {
      SelectedRow(incoming, stored, intersection, storedCommon, incomingCommon, differentRows, res, r);
    }
  }

  /** UpdateSelection for one row. */
  lemma SelectedRow(incoming: seq<Row>, stored: seq<Row>, intersection: set<Key>,
                    storedCommon: seq<Row>, incomingCommon: seq<Row>,
                    differentRows: set<string>, res: seq<Row>, r: Row)
    requires intersection == Keys(stored) * Keys(incoming)
    requires storedCommon == WithKeyIn(stored, intersection)
    requires incomingCommon == WithKeyIn(incoming, intersection)
    requires differentRows == SymmetricDifference(Fingerprints(storedCommon), Fingerprints(incomingCommon))
    requires res == WithFingerprintIn(incomingCommon, differentRows)
    ensures r in res <==>
      && r in incoming
      && r.key in Keys(stored)
      && forall s :: s in stored && s.key in Keys(incoming) ==> Fingerprint(s) != Fingerprint(r)
  {
    if r in incoming && r.key in Keys(stored) {
      assert r.key in Keys(incoming);
      assert r in incomingCommon;
      assert Fingerprint(r) in Fingerprints(incomingCommon);
      if s :| s in stored && s.key in Keys(incoming) && Fingerprint(s) == Fingerprint(r) {
        assert s.key in Keys(stored);
        assert s in storedCommon;
        assert Fingerprint(s) in Fingerprints(storedCommon);
      } else {
        assert Fingerprint(r) !in Fingerprints(storedCommon);
      }
    }
  }

  /** Classifying a table against itself finds no new key. */
  lemma CheckInsertSelf(d: seq<Row>)
    ensures CheckInsert(d, d) == []
  {
    NoMembersEmpty(CheckInsert(d, d));
  }

  /** Classifying a table against itself finds no changed row, so reconciling
      identical data writes nothing. */
  lemma CheckUpdateSelf(d: seq<Row>)
    ensures CheckUpdate(d, d) == []
  {
    forall r | r in d ensures r !in CheckUpdate(d, d) {
      assert r.key in Keys(d);
    }
    NoMembersEmpty(CheckUpdate(d, d));
  }

  /** With no key in common there is nothing to update and every incoming
      row is new. */
  lemma DisjointKeys(incoming: seq<Row>, stored: seq<Row>)
    requires Keys(incoming) !! Keys(stored)
    ensures CheckUpdate(incoming, stored) == []
    ensures CheckInsert(incoming, stored) == incoming
  {
    forall r | r in incoming ensures r !in CheckUpdate(incoming, stored) {
      assert r.key in Keys(incoming);
    }
    NoMembersEmpty(CheckUpdate(incoming, stored));
    var difference := SymmetricDifference(Keys(stored), Keys(incoming));
    if difference != {} {
      WithKeyInAll(incoming, difference);
    } else {
      NoMembersEmpty(incoming);
    }
  }

  /** The value-level approximation: an incoming row is not reported as
      changed when ANY stored row among the common keys has its fingerprint,
      even a row stored under a different key. */
  lemma FingerprintTwinMasksChange(incoming: seq<Row>, stored: seq<Row>, r: Row, s: Row)
    requires r in incoming && s in stored && s.key in Keys(incoming)
    requires Fingerprint(s) == Fingerprint(r)
    ensures r !in CheckUpdate(incoming, stored)
  {
  }

  /** What is reported as changed really differs from what is stored under
      its key, and so is never a row the stored table already holds. */
  lemma UpdatedRowsDiffer(incoming: seq<Row>, stored: seq<Row>, r: Row)
    requires r in CheckUpdate(incoming, stored)
    ensures r !in stored
    ensures forall s :: s in stored && s.key == r.key ==> s.values != r.values
  {
    assert r.key in Keys(incoming);
  }

  /** Cross-key coincidence: the values of keys 1 and 2 swap places, both
      rows change, and nothing is reported as changed. */
  lemma CrossKeyCoincidenceMissesSwap()
    ensures CheckUpdate([Row("1", ["b"]), Row("2", ["a"])], [Row("1", ["a"]), Row("2", ["b"])]) == []
  {
    var incoming := [Row("1", ["b"]), Row("2", ["a"])];
    var stored := [Row("1", ["a"]), Row("2", ["b"])];
    assert Fingerprint(stored[0]) == "a" && Fingerprint(stored[1]) == "b";
    assert Fingerprint(incoming[0]) == "b" && Fingerprint(incoming[1]) == "a";
    assert "1" in Keys(incoming) && "2" in Keys(incoming);
    FingerprintTwinMasksChange(incoming, stored, incoming[0], stored[1]);
    FingerprintTwinMasksChange(incoming, stored, incoming[1], stored[0]);
    NoMembersEmpty(CheckUpdate(incoming, stored));
  }

  /** Separator-less fingerprints: moving text from one column into the next
      leaves the concatenation unchanged, so the change goes unreported. */
  lemma ColumnShiftMissesChange()
    ensures CheckUpdate([Row("1", ["a", "b"])], [Row("1", ["ab", ""])]) == []
  {
    var incoming := [Row("1", ["a", "b"])];
    var stored := [Row("1", ["ab", ""])];
    assert Fingerprint(incoming[0]) == "ab" == Fingerprint(stored[0]);
    assert "1" in Keys(incoming);
    FingerprintTwinMasksChange(incoming, stored, incoming[0], stored[0]);
    NoMembersEmpty(CheckUpdate(incoming, stored));
  }
}
