/** Rows of a dataset, their content fingerprint, and the key- and
    fingerprint-based filters that the reconciliation engine applies to
    whole datasets. */
module Rows {

  /** The value of the designated key column, cast to text. */
  type Key = string

  /** One row: its key and the string form of each non-key column, already
      laid out in the column order of the stored table. */
  datatype Row = Row(key: Key, values: seq<string>)

  /** The set of key values occurring in a dataset (`set(df[id_col])`). */
  function Keys(d: seq<Row>): set<Key>
  {
    set r | r in d :: r.key
  }

  /** The key set is the key column read as a set: it holds the key of each
      row and nothing else, so it has at most as many members as there are
      rows. */
  lemma {:induction false} KeysOfColumn(d: seq<Row>)
    ensures forall k :: k in Keys(d) <==> exists i :: 0 <= i < |d| && d[i].key == k
    ensures |Keys(d)| <= |d|
  {
    if d != [] {
      KeysOfColumn(d[1..]);
      assert d == [d[0]] + d[1..];
      assert Keys(d) == {d[0].key} + Keys(d[1..]);
    }
    forall k | k in Keys(d) ensures exists i :: 0 <= i < |d| && d[i].key == k {
      var r :| r in d && r.key == k;
      var i :| 0 <= i < |d| && d[i] == r;
    }
  }

  /** Elements present in exactly one of the two sets. */
  function SymmetricDifference(a: set<string>, b: set<string>): (s: set<string>)
    ensures forall x :: x in s <==> (x in a) != (x in b)
  {
    (a - b) + (b - a)
  }

  /** Row-wise sum of the string-cast non-key columns: plain concatenation,
      with no separator between the values. */
  function Concat(vs: seq<string>): string
  {
    if vs == [] then "" else vs[0] + Concat(vs[1..])
  }

  /** Concatenation distributes over splitting the columns: nothing marks
      where one value ends and the next begins. */
  lemma {:induction false} ConcatAppend(a: seq<string>, b: seq<string>)
    ensures Concat(a + b) == Concat(a) + Concat(b)
  {
    if a != [] {
      ConcatAppend(a[1..], b);
      assert (a + b)[1..] == a[1..] + b;
    } else {
      assert a + b == b;
    }
  }

  /** The change-detection fingerprint of a row. */
  function Fingerprint(r: Row): string
  {
    Concat(r.values)
  }

  /** For every split of a row's columns, its fingerprint is the
      concatenation of the left part followed by that of the right part:
      the fingerprint does not record where one column ends. */
  lemma FingerprintSplit(r: Row, i: nat)
    requires i <= |r.values|
    ensures Fingerprint(r) == Concat(r.values[..i]) + Concat(r.values[i..])
  {
    ConcatAppend(r.values[..i], r.values[i..]);
    assert r.values[..i] + r.values[i..] == r.values;
  }

  /** The set of fingerprints of a dataset. */
  function Fingerprints(d: seq<Row>): set<string>
  {
    set r | r in d :: Fingerprint(r)
  }

  /** `a` is `b` with some rows left out, the rest in their original order. */
  predicate SubsequenceOf(a: seq<Row>, b: seq<Row>)
    decreases |b|
  {
    if a == [] then true
    else if b == [] then false
    else (a[0] == b[0] && SubsequenceOf(a[1..], b[1..])) || SubsequenceOf(a, b[1..])
  }

  /** No two rows of the dataset share a key. */
  predicate UniqueKeys(d: seq<Row>)
  {
    forall i, j :: 0 <= i < j < |d| ==> d[i].key != d[j].key
  }

  /** Rows whose key is in `ks` (`df[df[id_col].isin(ks)]`). */
  function WithKeyIn(d: seq<Row>, ks: set<Key>): (res: seq<Row>)
    ensures forall r :: r in res <==> r in d && r.key in ks
    ensures SubsequenceOf(res, d)
  {
    if d == [] then []
    else if d[0].key in ks then [d[0]] + WithKeyIn(d[1..], ks)
    else WithKeyIn(d[1..], ks)
  }

  /** Rows whose key is not in `ks` (what `DELETE ... WHERE key IN ks` keeps). */
  function WithKeyNotIn(d: seq<Row>, ks: set<Key>): (res: seq<Row>)
    ensures forall r :: r in res <==> r in d && r.key !in ks
    ensures SubsequenceOf(res, d)
  {
    if d == [] then []
    else if d[0].key in ks then WithKeyNotIn(d[1..], ks)
    else [d[0]] + WithKeyNotIn(d[1..], ks)
  }

  /** Rows whose fingerprint is in `fs`. */
  function WithFingerprintIn(d: seq<Row>, fs: set<string>): (res: seq<Row>)
    ensures forall r :: r in res <==> r in d && Fingerprint(r) in fs
    ensures SubsequenceOf(res, d)
  {
    if d == [] then []
    else if Fingerprint(d[0]) in fs then [d[0]] + WithFingerprintIn(d[1..], fs)
    else WithFingerprintIn(d[1..], fs)
  }

  /** Every row of a subsequence is a row of the whole. */
  lemma {:induction false} SubsequenceMembers(a: seq<Row>, b: seq<Row>)
    requires SubsequenceOf(a, b)
    ensures forall r :: r in a ==> r in b
    ensures Keys(a) <= Keys(b)
    decreases |b|
  {
    if a != [] {
      if a[0] == b[0] && SubsequenceOf(a[1..], b[1..]) {
        SubsequenceMembers(a[1..], b[1..]);
        assert a == [a[0]] + a[1..];
        assert b == [b[0]] + b[1..];
      } else {
        SubsequenceMembers(a, b[1..]);
        assert b == [b[0]] + b[1..];
      }
    }
  }

  /** A subsequence of a subsequence is a subsequence. */
  lemma {:induction false} SubsequenceTransitive(a: seq<Row>, b: seq<Row>, c: seq<Row>)
    requires SubsequenceOf(a, b) && SubsequenceOf(b, c)
    ensures SubsequenceOf(a, c)
    decreases |c|
  {
    if a != [] {
      if b[0] == c[0] && SubsequenceOf(b[1..], c[1..]) {
        if a[0] == b[0] && SubsequenceOf(a[1..], b[1..]) {
          SubsequenceTransitive(a[1..], b[1..], c[1..]);
        } else {
          SubsequenceTransitive(a, b[1..], c[1..]);
        }
      } else {
        SubsequenceTransitive(a, b, c[1..]);
      }
    }
  }

  /** Unique keys, read off a dataset one row at a time. */
  lemma UniqueKeysCons(d: seq<Row>)
    requires d != []
    ensures UniqueKeys(d) <==> d[0].key !in Keys(d[1..]) && UniqueKeys(d[1..])
  {
    if d[0].key !in Keys(d[1..]) && UniqueKeys(d[1..]) {
      forall i, j | 0 <= i < j < |d| ensures d[i].key != d[j].key {
        if i == 0 {
          assert d[j] == d[1..][j - 1];
          assert d[j] in d[1..];
        } else {
          assert d[i] == d[1..][i - 1] && d[j] == d[1..][j - 1];
        }
      }
    }
  }

  /** Leaving rows out cannot create a duplicate key. */
  lemma {:induction false} SubsequenceKeepsUniqueKeys(a: seq<Row>, b: seq<Row>)
    requires SubsequenceOf(a, b) && UniqueKeys(b)
    ensures UniqueKeys(a)
    decreases |b|
  {
    if a != [] {
      UniqueKeysCons(b);
      if a[0] == b[0] && SubsequenceOf(a[1..], b[1..]) {
        SubsequenceKeepsUniqueKeys(a[1..], b[1..]);
        SubsequenceMembers(a[1..], b[1..]);
        UniqueKeysCons(a);
      } else {
        SubsequenceKeepsUniqueKeys(a, b[1..]);
      }
    }
  }

  /** Two datasets with unique keys and no key in common concatenate into a
      dataset with unique keys. */
  lemma UniqueKeysAppend(a: seq<Row>, b: seq<Row>)
    requires UniqueKeys(a) && UniqueKeys(b) && Keys(a) !! Keys(b)
    ensures UniqueKeys(a + b)
    ensures Keys(a + b) == Keys(a) + Keys(b)
  {
    forall i, j | 0 <= i < j < |a + b| ensures (a + b)[i].key != (a + b)[j].key {
      if j < |a| {
        assert (a + b)[i] == a[i] && (a + b)[j] == a[j];
      } else if i >= |a| {
        assert (a + b)[i] == b[i - |a|] && (a + b)[j] == b[j - |a|];
      } else {
        assert (a + b)[i] == a[i] && a[i] in a && a[i].key in Keys(a);
        assert (a + b)[j] == b[j - |a|] && b[j - |a|] in b && b[j - |a|].key in Keys(b);
      }
    }
    assert forall r :: r in a + b <==> r in a || r in b;
  }

  /** A key filter that every row passes keeps the dataset as it is. */
  lemma {:induction false} WithKeyInAll(d: seq<Row>, ks: set<Key>)
    requires Keys(d) <= ks
    ensures WithKeyIn(d, ks) == d
  {
    if d != [] {
      assert d[0] in d;
      assert Keys(d[1..]) <= Keys(d) by {
        forall k | k in Keys(d[1..]) ensures k in Keys(d) {
          var r :| r in d[1..] && r.key == k;
          assert r in d;
        }
      }
      WithKeyInAll(d[1..], ks);
    }
  }

  /** A delete filter that no row matches keeps the dataset as it is. */
  lemma {:induction false} WithKeyNotInNone(d: seq<Row>, ks: set<Key>)
    requires Keys(d) !! ks
    ensures WithKeyNotIn(d, ks) == d
  {
    if d != [] {
      assert d[0] in d;
      assert Keys(d[1..]) <= Keys(d) by {
        forall k | k in Keys(d[1..]) ensures k in Keys(d) {
          var r :| r in d[1..] && r.key == k;
          assert r in d;
        }
      }
      WithKeyNotInNone(d[1..], ks);
    }
  }

  /** Selecting and deleting by the same key set split a dataset into two
      parts that together hold every row exactly as often as before. */
  lemma {:induction false} KeySplitPartitions(d: seq<Row>, ks: set<Key>)
    ensures |WithKeyIn(d, ks)| + |WithKeyNotIn(d, ks)| == |d|
    ensures multiset(WithKeyIn(d, ks)) + multiset(WithKeyNotIn(d, ks)) == multiset(d)
  {
    if d != [] {
      KeySplitPartitions(d[1..], ks);
      assert d == [d[0]] + d[1..];
    }
  }

  /** Selecting by key keeps every copy of a selected row: a row occurs in
      the selection as often as in the dataset when its key is in `ks`, and
      not at all otherwise. */
  lemma KeyFilterCounts(d: seq<Row>, ks: set<Key>, r: Row)
    ensures multiset(WithKeyIn(d, ks))[r] == if r.key in ks then multiset(d)[r] else 0
  {
    KeySplitPartitions(d, ks);
    if r.key in ks {
      assert r !in WithKeyNotIn(d, ks);
    }
  }

  /** Selecting by fingerprint keeps every copy of a selected row: a row
      occurs in the selection as often as in the dataset when its fingerprint
      is in `fs`, and not at all otherwise. */
  lemma {:induction false} FingerprintFilterCounts(d: seq<Row>, fs: set<string>, r: Row)
    ensures multiset(WithFingerprintIn(d, fs))[r] == if Fingerprint(r) in fs then multiset(d)[r] else 0
  {
    if d != [] {
      FingerprintFilterCounts(d[1..], fs, r);
      assert d == [d[0]] + d[1..];
    }
  }

  /** Within a dataset with unique keys, a key names one row. */
  lemma SameKeySameRow(d: seq<Row>, a: Row, b: Row)
    requires UniqueKeys(d) && a in d && b in d && a.key == b.key
    ensures a == b
  {
    var i :| 0 <= i < |d| && d[i] == a;
    var j :| 0 <= j < |d| && d[j] == b;
    assert !(i < j) && !(j < i);
  }

  /** A dataset with no rows in it is empty. */
  lemma NoMembersEmpty(d: seq<Row>)
    ensures (forall r :: r !in d) ==> d == []
  {
    if d != [] {
      assert d[0] in d;
    }
  }

  /** Two subsequences of a dataset with unique keys that hold the same rows
      are the same sequence: a filter of such a dataset is fixed by which rows
      it keeps. */
  lemma {:induction false} SubsequenceDeterminedByMembers(x: seq<Row>, y: seq<Row>, d: seq<Row>)
    requires SubsequenceOf(x, d) && SubsequenceOf(y, d) && UniqueKeys(d)
    requires forall r :: r in x <==> r in y
    ensures x == y
    decreases |d|
  {
    if d == [] {
      NoMembersEmpty(x);
      NoMembersEmpty(y);
    } else {
      UniqueKeysCons(d);
      var tail := d[1..];
      assert d[0] !in tail;
      SubsequenceHead(x, d);
      SubsequenceHead(y, d);
      if d[0] in x {
        SubsequenceMembers(x[1..], tail);
        SubsequenceMembers(y[1..], tail);
        assert x == [x[0]] + x[1..] && y == [y[0]] + y[1..];
        forall r ensures r in x[1..] <==> r in y[1..] {
          if r in x[1..] || r in y[1..] {
            assert r != d[0];
            assert r in x && r in y;
          }
        }
        SubsequenceDeterminedByMembers(x[1..], y[1..], tail);
      } else {
        SubsequenceDeterminedByMembers(x, y, tail);
      }
    }
  }

  /** How a subsequence of a dataset whose first row occurs only once starts:
      with that row if it holds it, and otherwise it is a subsequence of the
      rest. */
  lemma SubsequenceHead(x: seq<Row>, d: seq<Row>)
    requires SubsequenceOf(x, d) && d != [] && d[0] !in d[1..]
    ensures d[0] in x ==> x[0] == d[0] && SubsequenceOf(x[1..], d[1..])
    ensures d[0] !in x ==> SubsequenceOf(x, d[1..])
  {
    if x != [] && !(x[0] == d[0] && SubsequenceOf(x[1..], d[1..])) {
      SubsequenceMembers(x, d[1..]);
    }
  }

  /** A single row of a dataset is a subsequence of it. */
  lemma {:induction false} SingleRowSubsequence(d: seq<Row>, i: nat)
    requires i < |d|
    ensures SubsequenceOf([d[i]], d)
  {
    if i > 0 {
      SingleRowSubsequence(d[1..], i - 1);
    } else {
      assert [d[0]][1..] == [];
    }
  }

  /** A subsequence of a dataset with unique keys that holds row `i` and no
      other row of it is that row alone. */
  lemma SubsequenceSingle(x: seq<Row>, d: seq<Row>, i: nat)
    requires SubsequenceOf(x, d) && UniqueKeys(d) && i < |d|
    requires d[i] in x
    requires forall j :: 0 <= j < |d| && j != i ==> d[j] !in x
    ensures x == [d[i]]
  {
    SubsequenceMembers(x, d);
    SingleRowSubsequence(d, i);
    SubsequenceDeterminedByMembers(x, [d[i]], d);
  }
}
