/** The persistent table and the upsert that saves a freshly fetched dataset
    into it. The table is one named table of the store; whether it exists
    and which rows it holds are the two things a save reads and changes. */
module Store {
  import opened Rows
  import opened Classify
  import opened Reconcile

  datatype Result<T, E> = Success(value: T) | Failure(error: E)

  /** Saving an empty dataset is a usage error. */
  datatype SaveError = NeedDataToInsert

  class Table {
    /** Whether the table exists in the store. */
    var present: bool
    /** Its rows, in storage order. */
    var rows: seq<Row>

    /** A table that does not exist holds no rows. */
    ghost predicate Valid()
      reads this
    {
      !present ==> rows == []
    }

    /** A table that has not been created yet. */
    constructor Missing()
      ensures Valid() && !present && rows == []
    {
      present := false;
      rows := [];
    }

    /** A table that already holds `initial`. */
    constructor Existing(initial: seq<Row>)
      ensures Valid() && present && rows == initial
    {
      present := true;
      rows := initial;
    }

    /** Delete every row whose key occurs in `toDelete`: the key column of
        `toDelete` is collected into the IN-list, then the store drops the
        matching rows and keeps the others in order. */
    method Delete(toDelete: seq<Row>)
      requires Valid()
      modifies this
      ensures Valid() && present == old(present)
      ensures rows == WithKeyNotIn(old(rows), Keys(toDelete))
    {
      var inList: set<Key> := {};
      var i := 0;
      while i < |toDelete|
        invariant 0 <= i <= |toDelete|
        invariant inList == Keys(toDelete[..i])
      {
        assert toDelete[..i + 1] == toDelete[..i] + [toDelete[i]];
        inList := inList + {toDelete[i].key};
        i := i + 1;
      }
      assert toDelete[..i] == toDelete;
      rows := WithKeyNotIn(rows, inList);
    }

    /** Append `batch` after the stored rows, creating the table when it does
        not exist yet. */
    method Append(batch: seq<Row>)
      requires Valid()
      modifies this
      ensures Valid() && present
      ensures rows == old(rows) + batch
    {
      present := true;
      rows := rows + batch;
    }

    /** Save `incoming` into the table. An empty dataset is refused and the
        table is left alone. A missing table is created from the whole
        dataset. Otherwise the changed rows replace the stored rows of their
        keys and the rows with new keys are appended. The result is false
        exactly when nothing was written. */
    method Save(incoming: seq<Row>) returns (r: Result<bool, SaveError>)
      requires Valid()
      modifies this
      ensures Valid()
      ensures incoming == [] ==>
        r == Failure(NeedDataToInsert) && present == old(present) && rows == old(rows)
      ensures incoming != [] && !old(present) ==>
        r == Success(true) && present && rows == incoming
      ensures incoming != [] && old(present) ==>
        r == Success(Writes(old(rows), incoming)) && present && rows == Upserted(old(rows), incoming)
      ensures r.Success? ==> (r.value <==> rows != old(rows))
    {
      if |incoming| <= 0 {
        return Failure(NeedDataToInsert);
      }
      var tableExists := present;
      var savedData := true;
      if tableExists {
        var toUpdate := CheckUpdate(incoming, rows);
        var toInsert := CheckInsert(incoming, rows);
        WritesIffChanged(rows, incoming);
        if |toUpdate| > 0 {
          Delete(toUpdate);
          Append(toUpdate);
          Append(toInsert);
        } else if |toInsert| > 0 {
          Append(toInsert);
        } else {
          savedData := false;
        }
      } else {
        Append(incoming);
      }
      r := Success(savedData);
    }
  }

  /** Saving the same data twice into a missing table: the first save creates
      the table and reports a write, the second writes nothing. */
  method SaveTwice(incoming: seq<Row>) returns (first: Result<bool, SaveError>, second: Result<bool, SaveError>)
    requires incoming != []
    ensures first == Success(true) && second == Success(false)
  {
    var table := new Table.Missing();
    first := table.Save(incoming);
    UpsertSelf(incoming);
    second := table.Save(incoming);
  }
}
