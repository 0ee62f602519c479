/** Range scans restricted to rows that pass a filter, in table order. */
module ColumnScan {
  import opened Bytes
  import opened KeyOrder
  import opened Bigtable

  type Filter<!V> = Row<V> -> bool

  /** The keys among the given ones whose row passes. */
  function Passing<V(!new)>(rows: Rows<V>, keys: seq<Key>, pass: Filter<V>): (q: seq<Key>)
    ensures forall k :: k in q ==> k in rows && pass(rows[k])
  {
    if keys == [] then []
    else
      var k := keys[|keys| - 1];
      Passing(rows, keys[..|keys| - 1], pass) + (if k in rows && pass(rows[k]) then [k] else [])
  }

  lemma {:induction false} PassingMembers<V(!new)>(rows: Rows<V>, keys: seq<Key>, pass: Filter<V>, k: Key)
    ensures k in Passing(rows, keys, pass) <==> k in keys && k in rows && pass(rows[k])
    decreases |keys|
  {
    if keys != [] {
      PassingMembers(rows, keys[..|keys| - 1], pass, k);
      assert keys == keys[..|keys| - 1] + [keys[|keys| - 1]];
    }
  }

  lemma {:induction false} PassingSorted<V(!new)>(rows: Rows<V>, keys: seq<Key>, pass: Filter<V>)
    requires StrictlySorted(keys)
    ensures StrictlySorted(Passing(rows, keys, pass))
    decreases |keys|
  {
    if keys != [] {
      var front, last := keys[..|keys| - 1], keys[|keys| - 1];
      PassingSorted(rows, front, pass);
      var q := Passing(rows, front, pass);
      forall i | 0 <= i < |q| ensures Less(q[i], last) {
        PassingMembers(rows, front, pass, q[i]);
        assert q[i] in q;
      }
    }
  }

  lemma PassingAppend<V(!new)>(rows: Rows<V>, keys: seq<Key>, k: Key, pass: Filter<V>)
    ensures Passing(rows, keys + [k], pass) ==
            Passing(rows, keys, pass) + (if k in rows && pass(rows[k]) then [k] else [])
  {
    assert (keys + [k])[..|keys + [k]| - 1] == keys;
  }

  lemma PassingStep<V(!new)>(rows: Rows<V>, keys: seq<Key>, n: nat, pass: Filter<V>)
    requires n < |keys|
    ensures Passing(rows, keys[..n + 1], pass) ==
            Passing(rows, keys[..n], pass) + (if keys[n] in rows && pass(rows[keys[n]]) then [keys[n]] else [])
  {
    PassingAppend(rows, keys[..n], keys[n], pass);
    assert keys[..n + 1] == keys[..n] + [keys[n]];
  }

  /** Filtering twice is filtering by the stricter filter. */
  lemma PassingTwice<V(!new)>(rows: Rows<V>, keys: seq<Key>, weak: Filter<V>, strict: Filter<V>)
    requires StrictlySorted(keys) && forall k :: k in rows && strict(rows[k]) ==> weak(rows[k])
    ensures Passing(rows, Passing(rows, keys, weak), strict) == Passing(rows, keys, strict)
  {
    var once := Passing(rows, keys, weak);
    PassingSorted(rows, keys, weak);
    PassingSorted(rows, once, strict);
    PassingSorted(rows, keys, strict);
    forall k ensures k in Passing(rows, once, strict) <==> k in Passing(rows, keys, strict) {
      PassingMembers(rows, keys, weak, k);
      PassingMembers(rows, once, strict, k);
      PassingMembers(rows, keys, strict, k);
    }
    SortedUnique(Passing(rows, once, strict), Passing(rows, keys, strict));
  }

  predicate HasCell<V>(rows: Rows<V>, k: Key, c: Column) {
    k in rows && c in rows[k] && rows[k][c] != map[]
  }

  function ColumnFilter<V(!new)>(c: Column): Filter<V> {
    (row: Row<V>) => c in row && row[c] != map[]
  }

  /** The keys among the given ones whose row has a cell in a column. */
  function With<V(!new)>(rows: Rows<V>, keys: seq<Key>, c: Column): (q: seq<Key>)
    ensures forall k :: k in q ==> HasCell(rows, k, c)
  {
    Passing(rows, keys, ColumnFilter(c))
  }

  lemma ScanSorted<V>(rows: Rows<V>, lo: Key, hi: Key)
    ensures StrictlySorted(Scan(rows, lo, hi))
    ensures forall k :: k in Scan(rows, lo, hi) <==> k in rows && InRange(k, lo, hi)
  {
    SortedKeysSpec(set k | k in rows && InRange(k, lo, hi));
  }

  lemma EarlierKeyDiffers(keys: seq<Key>, n: nat, k: Key)
    requires StrictlySorted(keys) && n < |keys| && k in keys[..n]
    ensures k != keys[n]
  {
    LessIrreflexive(k);
  }

  lemma NonEmptyKeys<V>(cells: map<nat, V>)
    requires cells != map[]
    ensures cells.Keys != {}
  {
    assert cells.Keys == {} ==> cells == map[];
  }

  /** The first n columns. */
  function FirstCells(cells: seq<Key>, n: nat): set<Key>
    requires n <= |cells|
  {
    set q | q in cells[..n]
  }

  lemma FirstCellsStep(cells: seq<Key>, n: nat)
    requires StrictlySorted(cells) && n < |cells|
    ensures FirstCells(cells, n + 1) == FirstCells(cells, n) + {cells[n]} && cells[n] !in FirstCells(cells, n)
  {
    var front := cells[..n];
    assert cells[..n + 1] == front + [cells[n]];
    forall i | 0 <= i < n ensures front[i] != cells[n] { LessIrreflexive(cells[n]); }
  }

  lemma AllCells(cells: seq<Key>, s: set<Key>)
    requires forall k :: k in cells <==> k in s
    ensures FirstCells(cells, |cells|) == s
  {
    assert cells[..|cells|] == cells;
  }
}
