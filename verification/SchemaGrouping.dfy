/** What grouping index rows by a key means, and when the dotted key groups as (table, index) would. */
module SchemaGrouping {
  import opened Common
  import opened SchemaModel
  import opened SchemaIntrospector

  // --- the columns of a table ----------------------------------------------

  /** The columns of a table are those of its rows, each row's once, in row order. */
  lemma {:induction false} ColumnsExact(rows: seq<ColumnRow>, table: string, gives: (ColumnRow, ColumnDef) -> bool)
    requires forall row: ColumnRow, c :: gives(row, c) <==> row.table == table && row.column == c
    ensures PickedInOrder(rows, ColumnsFor(rows, table), gives)
  {
    if rows == [] {
      PickNothing(rows, gives);
    } else {
      var n := |rows| - 1;
      var given := if rows[n].table == table then [rows[n].column] else [];
      ColumnsExact(rows[..n], table, gives);
      if rows[n].table == table {
        PickOne(rows[n], rows[n].column, gives);
      } else {
        PickNothing([rows[n]], gives);
      }
      PickBoth(rows[..n], ColumnsFor(rows[..n], table), [rows[n]], given, gives);
      SnocSplit(rows);
    }
  }

  // --- which rows start a group, and which rows it takes --------------------

  lemma {:induction false} StartsClimb<K>(rows: seq<IndexRow>, keys: seq<K>, table: string)
    requires |keys| == |rows|
    ensures Climbs(Starts(rows, keys, table))
  {
    if rows == [] {
    } else {
      StartsClimb(rows[..|rows| - 1], keys[..|rows| - 1], table);
    }
  }

  lemma {:induction false} StartAt<K>(rows: seq<IndexRow>, keys: seq<K>, table: string, p: nat)
    requires |keys| == |rows|
    ensures p in Starts(rows, keys, table) <==> p < |rows| && keys[p] !in keys[..p] && rows[p].table == table
  {
    if rows == [] {
    } else {
      var n := |rows| - 1;
      var before := Starts(rows[..n], keys[..n], table);
      if p < n {
        StartAt(rows[..n], keys[..n], table, p);
        assert keys[..n][..p] == keys[..p];
        assert p in Starts(rows, keys, table) <==> p in before;
      } else {
        assert p !in before;
      }
    }
  }

  /** The groups of a table start, in row order, at its rows that are the first with their key. */
  lemma {:induction false} StartsExact<K>(rows: seq<IndexRow>, keys: seq<K>, table: string)
    requires |keys| == |rows|
    ensures var starts := Starts(rows, keys, table);
      && Climbs(starts)
      && (forall p: nat :: p in starts <==> p < |rows| && keys[p] !in keys[..p] && rows[p].table == table)
  {
    StartsClimb(rows, keys, table);
    forall p: nat
      ensures p in Starts(rows, keys, table) <==> p < |rows| && keys[p] !in keys[..p] && rows[p].table == table
    {
      StartAt(rows, keys, table, p);
    }
  }

  function Keyed<K>(rows: seq<IndexRow>, keys: seq<K>): (pairs: seq<(IndexRow, K)>)
    requires |keys| == |rows|
    ensures |pairs| == |rows| && forall i :: 0 <= i < |rows| ==> pairs[i] == (rows[i], keys[i])
  {
    seq(|rows|, i requires 0 <= i < |rows| => (rows[i], keys[i]))
  }

  lemma {:induction false} KeyedPick<K>(row: IndexRow, k: K, key: K, gives: ((IndexRow, K), string) -> bool)
    requires forall c :: gives((row, k), c) <==> k == key && row.column == c
    ensures PickedInOrder([(row, k)], if k == key then [row.column] else [], gives)
  {
    if k == key {
      PickOne((row, k), row.column, gives);
    } else {
      PickNothing([(row, k)], gives);
    }
  }

  /** The columns of a group are those of the rows with its key, each row's once, in row order. */
  lemma {:induction false} GroupExact<K>(rows: seq<IndexRow>, keys: seq<K>, key: K,
                                         gives: ((IndexRow, K), string) -> bool)
    requires |keys| == |rows|
    requires forall row: IndexRow, k: K, c :: gives((row, k), c) <==> k == key && row.column == c
    ensures PickedInOrder(Keyed(rows, keys), ColumnsWith(rows, keys, key), gives)
  {
    if rows == [] {
      PickNothing(Keyed(rows, keys), gives);
    } else {
      var n := |rows| - 1;
      var before, pair := Keyed(rows[..n], keys[..n]), (rows[n], keys[n]);
      GroupExact(rows[..n], keys[..n], key, gives);
      KeyedPick(rows[n], keys[n], key, gives);
      PickBoth(before, ColumnsWith(rows[..n], keys[..n], key), [pair],
               if keys[n] == key then [rows[n].column] else [], gives);
      assert Keyed(rows, keys) == before + [pair];
    }
  }

  /** The number of columns in the groups that start before position m. */
  function ColumnsBefore<K(==)>(rows: seq<IndexRow>, keys: seq<K>, m: nat): nat
    requires |keys| == |rows| && m <= |rows|
  {
    if m == 0 then 0
    else
      ColumnsBefore(rows, keys, m - 1)
      + (if keys[m - 1] !in keys[..m - 1] then |ColumnsWith(rows, keys, keys[m - 1])| else 0)
  }

  /** A further row gives its column to one group, which the earlier rows may have started. */
  lemma {:induction false} OneMoreColumn<K>(rows: seq<IndexRow>, keys: seq<K>, row: IndexRow, key: K, m: nat)
    requires |keys| == |rows| && m <= |rows|
    ensures ColumnsBefore(rows + [row], keys + [key], m)
         == ColumnsBefore(rows, keys, m) + (if key in keys[..m] then 1 else 0)
  {
    if m == 0 {
    } else {
      OneMoreColumn(rows, keys, row, key, m - 1);
      ColumnsWithSnoc(rows, keys, row, key, keys[m - 1]);
      assert (keys + [key])[..m - 1] == keys[..m - 1] && (keys + [key])[m - 1] == keys[m - 1];
      assert key in keys[..m] <==> key in keys[..m - 1] || key == keys[m - 1];
    }
  }

  /** No row is lost and none is counted twice: the groups hold as many columns as there are rows. */
  lemma {:induction false} GroupingConserves<K>(rows: seq<IndexRow>, keys: seq<K>)
    requires |keys| == |rows|
    ensures ColumnsBefore(rows, keys, |rows|) == |rows|
  {
    if rows == [] {
    } else {
      var n := |rows| - 1;
      var rs, ks := rows[..n], keys[..n];
      assert rows == rs + [rows[n]] && keys == ks + [keys[n]];
      GroupingConserves(rs, ks);
      OneMoreColumn(rs, ks, rows[n], keys[n], n);
      assert ks[..n] == ks;
      if keys[n] !in ks {
        NoRowsNoGroup(rs, ks, keys[n]);
        ColumnsWithSnoc(rs, ks, rows[n], keys[n], keys[n]);
      }
    }
  }

  /** Grouped by (table, index), a table lists each index name once. */
  lemma {:induction false} PairNamesDistinct(rows: seq<IndexRow>, table: string, i: nat, j: nat)
    requires i < j < |IndexesFor(rows, PairKeys(rows), table)|
    ensures IndexesFor(rows, PairKeys(rows), table)[i].name != IndexesFor(rows, PairKeys(rows), table)[j].name
  {
    var keys := PairKeys(rows);
    var starts := Starts(rows, keys, table);
    StartsExact(rows, keys, table);
    var p, q := starts[i], starts[j];
    assert p in starts && q in starts && p < q;
    assert keys[..q][p] == keys[p];
  }

  // --- only the equality of keys matters ------------------------------------

  ghost predicate SameClasses<K, L>(keys: seq<K>, others: seq<L>) {
    |keys| == |others| &&
    forall i, j :: 0 <= i < |keys| && 0 <= j < |keys| ==> (keys[i] == keys[j] <==> others[i] == others[j])
  }

  lemma {:induction false} SameStarts<K, L>(rows: seq<IndexRow>, keys: seq<K>, others: seq<L>, table: string)
    requires |keys| == |rows| && SameClasses(keys, others)
    ensures Starts(rows, keys, table) == Starts(rows, others, table)
  {
    if rows == [] {
    } else {
      var n := |rows| - 1;
      SameStarts(rows[..n], keys[..n], others[..n], table);
      if keys[n] in keys[..n] {
        var i :| 0 <= i < n && keys[..n][i] == keys[n];
        assert others[..n][i] == others[n];
      }
      if others[n] in others[..n] {
        var i :| 0 <= i < n && others[..n][i] == others[n];
        assert keys[..n][i] == keys[n];
      }
    }
  }

  lemma {:induction false} SameColumnsWith<K, L>(rows: seq<IndexRow>, keys: seq<K>, others: seq<L>, key: K, other: L)
    requires |keys| == |rows| == |others|
    requires forall i :: 0 <= i < |rows| ==> (keys[i] == key <==> others[i] == other)
    ensures ColumnsWith(rows, keys, key) == ColumnsWith(rows, others, other)
  {
    if rows == [] {
    } else {
      var n := |rows| - 1;
      SameColumnsWith(rows[..n], keys[..n], others[..n], key, other);
    }
  }

  lemma {:induction false} SameIndexes<K, L>(rows: seq<IndexRow>, keys: seq<K>, others: seq<L>, table: string)
    requires |keys| == |rows| && SameClasses(keys, others)
    ensures IndexesFor(rows, keys, table) == IndexesFor(rows, others, table)
  {
    SameStarts(rows, keys, others, table);
    var starts := Starts(rows, keys, table);
    forall i | 0 <= i < |starts| ensures GroupAt(rows, keys, starts[i]) == GroupAt(rows, others, starts[i]) {
      SameColumnsWith(rows, keys, others, keys[starts[i]], others[starts[i]]);
    }
  }

  // --- when the dotted key is as good as the pair ---------------------------

  /** No two rows of different indexes share a dotted key. */
  ghost predicate DottedKeysApart(rows: seq<IndexRow>) {
    forall i, j :: 0 <= i < |rows| && 0 <= j < |rows| && DottedKey(rows[i]) == DottedKey(rows[j])
      ==> PairKey(rows[i]) == PairKey(rows[j])
  }

  function First<K(==)>(keys: seq<K>, key: K): (p: nat)
    requires key in keys
    ensures p < |keys| && keys[p] == key && key !in keys[..p]
  {
    if keys[0] == key then 0
    else
      assert key in keys[1..];
      var p := 1 + First(keys[1..], key);
      assert keys[..p] == [keys[0]] + keys[1..][..p - 1];
      p
  }

  lemma {:induction false} FirstUnique<K>(keys: seq<K>, p: nat)
    requires p < |keys| && keys[p] !in keys[..p]
    ensures First(keys, keys[p]) == p
  {
  }

  lemma {:induction false} ListedAt<K>(rows: seq<IndexRow>, keys: seq<K>, table: string, k: nat)
    requires |keys| == |rows| && k < |Starts(rows, keys, table)|
    ensures var p := Starts(rows, keys, table)[k];
      && p < |rows| && keys[p] !in keys[..p] && rows[p].table == table
      && IndexesFor(rows, keys, table)[k].name == rows[p].index
  {
    StartsExact(rows, keys, table);
    assert Starts(rows, keys, table)[k] in Starts(rows, keys, table);
  }

  lemma {:induction false} NotTheLostOne(rows: seq<IndexRow>, j: nat, p: nat)
    requires j < |rows| && p < |rows| && rows[p].table == rows[j].table
    requires DottedKeys(rows)[p] !in DottedKeys(rows)[..p]
    requires PairKey(rows[First(DottedKeys(rows), DottedKeys(rows)[j])]) != PairKey(rows[j])
    ensures rows[p].index != rows[j].index
  {
    var dotted := DottedKeys(rows);
    FirstUnique(dotted, p);
    assert dotted[p] == DottedKey(rows[p]) && dotted[j] == DottedKey(rows[j]);
  }

  /** A row whose dotted key was first used by another index is missing from its own table's list. */
  lemma {:induction false} CollidingIndexIsLost(rows: seq<IndexRow>, j: nat)
    requires j < |rows|
    requires PairKey(rows[First(DottedKeys(rows), DottedKeys(rows)[j])]) != PairKey(rows[j])
    ensures IndexesFor(rows, DottedKeys(rows), rows[j].table) != IndexesFor(rows, PairKeys(rows), rows[j].table)
  {
    var dotted, pairs, table := DottedKeys(rows), PairKeys(rows), rows[j].table;
    var q := First(pairs, pairs[j]);
    StartsExact(rows, pairs, table);
    var k :| 0 <= k < |Starts(rows, pairs, table)| && Starts(rows, pairs, table)[k] == q;
    ListedAt(rows, pairs, table, k);
    if k < |Starts(rows, dotted, table)| {
      var p := Starts(rows, dotted, table)[k];
      ListedAt(rows, dotted, table, k);
      NotTheLostOne(rows, j, p);
    }
  }

  /** If two keys collide, some row's dotted key was first used by another index. */
  lemma {:induction false} SomeLostRow(rows: seq<IndexRow>) returns (j: nat)
    requires !DottedKeysApart(rows)
    ensures j < |rows| && PairKey(rows[First(DottedKeys(rows), DottedKeys(rows)[j])]) != PairKey(rows[j])
  {
    var dotted := DottedKeys(rows);
    var a, b :| 0 <= a < |rows| && 0 <= b < |rows| && DottedKey(rows[a]) == DottedKey(rows[b])
                && PairKey(rows[a]) != PairKey(rows[b]);
    assert dotted[a] == dotted[b];
    j := if PairKey(rows[First(dotted, dotted[b])]) != PairKey(rows[b]) then b else a;
  }

  /** The assembled indexes are those of the (table, index) pairs exactly when no dotted keys collide. */
  lemma {:induction false} DottedGroupingExact(rows: seq<IndexRow>)
    ensures (forall t :: IndexesFor(rows, DottedKeys(rows), t) == IndexesFor(rows, PairKeys(rows), t))
       <==> DottedKeysApart(rows)
  {
    var dotted, pairs := DottedKeys(rows), PairKeys(rows);
    if DottedKeysApart(rows) {
      assert SameClasses(dotted, pairs);
      forall t ensures IndexesFor(rows, dotted, t) == IndexesFor(rows, pairs, t) {
        SameIndexes(rows, dotted, pairs, t);
      }
    } else {
      var lost := SomeLostRow(rows);
      CollidingIndexIsLost(rows, lost);
    }
  }

  lemma {:induction false} SeparatorIsFirstDot(r: IndexRow, s: IndexRow)
    requires '.' !in r.table && '.' !in s.table && DottedKey(r) == DottedKey(s)
    ensures PairKey(r) == PairKey(s)
  {
    var key := DottedKey(r);
    assert key[|r.table|] == '.' && key[|s.table|] == '.';
    assert forall i :: 0 <= i < |r.table| ==> r.table[i] == key[i];
    assert forall i :: 0 <= i < |s.table| ==> s.table[i] == key[i];
    assert |r.table| == |s.table|;
    assert r.table == key[..|r.table|] && s.table == key[..|s.table|];
    assert r.index == key[|r.table| + 1..] && s.index == key[|s.table| + 1..];
  }

  /** Table names without dots are enough: the first dot of a key is then the separator. */
  lemma {:induction false} DotFreeTablesSuffice(rows: seq<IndexRow>)
    requires forall i :: 0 <= i < |rows| ==> '.' !in rows[i].table
    ensures DottedKeysApart(rows)
  {
    forall i, j | 0 <= i < |rows| && 0 <= j < |rows| && DottedKey(rows[i]) == DottedKey(rows[j])
      ensures PairKey(rows[i]) == PairKey(rows[j])
    {
      SeparatorIsFirstDot(rows[i], rows[j]);
    }
  }

  /** Two indexes of two tables under one dotted key: the second is folded into the first. */
  lemma {:induction false} DottedNamesMerge()
    ensures var rows := [IndexRow("a.b", "c", 1, "x"), IndexRow("a", "b.c", 1, "y")];
      && IndexesFor(rows, DottedKeys(rows), "a.b") == [IndexDef("c", ["x", "y"], false)]
      && IndexesFor(rows, DottedKeys(rows), "a") == []
  {
    var rows := [IndexRow("a.b", "c", 1, "x"), IndexRow("a", "b.c", 1, "y")];
    var keys := DottedKeys(rows);
    var k := "a.b.c";
    assert keys[0] == k && keys[1] == k;
    var first, firstKeys := rows[..1], keys[..1];
    assert rows == first + [rows[1]] && keys == firstKeys + [k] && first == [] + [rows[0]] && firstKeys == [] + [k];
    StartsSnoc([], [], rows[0], k, "a.b");
    StartsSnoc(first, firstKeys, rows[1], k, "a.b");
    StartsSnoc([], [], rows[0], k, "a");
    StartsSnoc(first, firstKeys, rows[1], k, "a");
    ColumnsWithSnoc([], [], rows[0], k, k);
    ColumnsWithSnoc(first, firstKeys, rows[1], k, k);
    assert Starts(rows, keys, "a.b") == [0];
    assert GroupAt(rows, keys, 0) == IndexDef("c", ["x", "y"], false);
  }
}
