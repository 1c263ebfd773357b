/** In which order the diff says things: statement by statement, said without the functions that compute it. */
module SchemaDiffOrder {
  import opened Common
  import opened SchemaModel
  import opened SchemaDiff

  // --- the statements of one table -----------------------------------------

  predicate LastNamed(columns: seq<ColumnDef>, name: string, k: nat) {
    k < |columns| && columns[k].name == name && forall j :: k < j < |columns| ==> columns[j].name != name
  }

  /** A desired column calls for this statement: ADD if there is none of its name, MODIFY if that one differs. */
  ghost predicate CallsFor(d: ColumnDef, current: seq<ColumnDef>, op: Op) {
    || (op == AddColumn(d.raw) && forall c :: c in current ==> c.name != d.name)
    || (op == ModifyColumn(d.raw)
        && exists k: nat ::
             LastNamed(current, d.name, k) && (current[k].coltype != d.coltype || current[k].nullable != d.nullable))
  }

  ghost predicate CallsForDrop(c: ColumnDef, desired: seq<ColumnDef>, op: Op) {
    op == DropColumn(c.name) && forall d :: d in desired ==> d.name != c.name
  }

  ghost predicate Unlisted(i: IndexDef, other: seq<IndexDef>) {
    forall j :: j in other && j.name != "" && j.name != "PRIMARY" ==> j.name != i.name
  }

  lemma {:induction false} LastNamedStep(columns: seq<ColumnDef>, name: string, k: nat)
    requires columns != []
    ensures var n := |columns| - 1;
      LastNamed(columns, name, k) <==>
        if columns[n].name == name then k == n else LastNamed(columns[..n], name, k)
  {
    var n := |columns| - 1;
    assert forall j :: 0 <= j < n ==> columns[..n][j] == columns[j];
  }

  lemma {:induction false} FoundIsLast(columns: seq<ColumnDef>, name: string)
    ensures forall k: nat :: LastNamed(columns, name, k) ==> FindColumn(columns, name) == Some(columns[k])
    ensures FindColumn(columns, name).Some? ==> exists k: nat :: LastNamed(columns, name, k)
  {
    if columns == [] {
    } else {
      var n := |columns| - 1;
      FoundIsLast(columns[..n], name);
      forall k: nat
        ensures LastNamed(columns, name, k) <==>
          if columns[n].name == name then k == n else LastNamed(columns[..n], name, k)
      {
        LastNamedStep(columns, name, k);
      }
      if columns[n].name == name {
        assert LastNamed(columns, name, n);
      } else if FindColumn(columns[..n], name).Some? {
        var k: nat :| LastNamed(columns[..n], name, k);
        assert LastNamed(columns, name, k);
      }
    }
  }

  lemma {:induction false} CallExact(d: ColumnDef, current: seq<ColumnDef>, op: Op)
    ensures CallsFor(d, current, op) <==>
      Emitted(d, current)
      && op == if FindColumn(current, d.name).None? then AddColumn(d.raw) else ModifyColumn(d.raw)
  {
    FoundIsLast(current, d.name);
  }

  /** One more column, and the statement it calls for, if any. */
  lemma {:induction false} PickMore<A, B(!new)>(xs: seq<A>, ys: seq<B>, more: seq<B>, gives: (A, B) -> bool)
    requires xs != [] && PickedInOrder(xs[..|xs| - 1], ys, gives)
    requires |more| <= 1 && (forall y :: gives(xs[|xs| - 1], y) <==> y in more)
    ensures PickedInOrder(xs, ys + more, gives)
  {
    var n := |xs| - 1;
    if more == [] {
      forall y ensures !gives([xs[n]][0], y) {
        assert y !in more;
      }
      PickNothing([xs[n]], gives);
    } else {
      assert more[0] in more && more == [more[0]];
      PickOne(xs[n], more[0], gives);
    }
    PickBoth(xs[..n], ys, [xs[n]], more, gives);
    SnocSplit(xs);
  }

  lemma {:induction false} ChangesInOrder(desired: seq<ColumnDef>, current: seq<ColumnDef>,
                                          gives: (ColumnDef, Op) -> bool)
    requires forall d, op :: gives(d, op) <==> CallsFor(d, current, op)
    ensures PickedInOrder(desired, ColumnOps(desired, current), gives)
  {
    if desired == [] {
      PickNothing(desired, gives);
    } else {
      var n := |desired| - 1;
      ChangesInOrder(desired[..n], current, gives);
      forall op ensures gives(desired[n], op) <==>
        Emitted(desired[n], current)
        && op == if FindColumn(current, desired[n].name).None? then AddColumn(desired[n].raw)
                 else ModifyColumn(desired[n].raw)
      {
        CallExact(desired[n], current, op);
      }
      PickMore(desired, ColumnOps(desired[..n], current),
               if !Emitted(desired[n], current) then []
               else if FindColumn(current, desired[n].name).None? then [AddColumn(desired[n].raw)]
               else [ModifyColumn(desired[n].raw)], gives);
    }
  }

  lemma {:induction false} DropsInOrder(current: seq<ColumnDef>, desired: seq<ColumnDef>,
                                        gives: (ColumnDef, Op) -> bool)
    requires forall c, op :: gives(c, op) <==> CallsForDrop(c, desired, op)
    ensures PickedInOrder(current, DropColumnOps(GoneColumns(current, desired)), gives)
  {
    if current == [] {
      PickNothing(current, gives);
      assert DropColumnOps(GoneColumns(current, desired)) == [];
    } else {
      var n := |current| - 1;
      DropsInOrder(current[..n], desired, gives);
      GoneStep(current, desired, n);
      assert current[..n + 1] == current;
      PickMore(current, DropColumnOps(GoneColumns(current[..n], desired)),
               if FindColumn(desired, current[n].name).None? then [DropColumn(current[n].name)] else [], gives);
    }
  }

  lemma {:induction false} MissingInOrder(indexes: seq<IndexDef>, other: seq<IndexDef>,
                                          gives: (IndexDef, IndexDef) -> bool)
    requires forall i, j :: gives(i, j) <==> i == j && Unlisted(i, other)
    requires forall i :: i in indexes ==> IsNamed(i)
    ensures PickedInOrder(indexes, Missing(indexes, other), gives)
  {
    if indexes == [] {
      PickNothing(indexes, gives);
    } else {
      var n := |indexes| - 1;
      MissingInOrder(indexes[..n], other, gives);
      PickMore(indexes, Missing(indexes[..n], other), if HasIndex(other, indexes[n].name) then [] else [indexes[n]],
               gives);
    }
  }

  /** Names of `named` in the order in which `indexes` first mentions them. */
  ghost predicate FirstSeen(indexes: seq<IndexDef>, named: seq<IndexDef>, at: seq<nat>) {
    && |at| == |named| && Climbs(at)
    && forall k :: 0 <= k < |at| ==>
         && at[k] < |indexes| && indexes[at[k]].name == named[k].name
         && forall j :: 0 <= j < at[k] ==> indexes[j].name != named[k].name
  }

  lemma {:induction false} PutKeepsPlaces(indexes: seq<IndexDef>, i: IndexDef)
    requires exists j :: j in indexes && j.name == i.name
    ensures |PutByName(indexes, i)| == |indexes|
    ensures forall k :: 0 <= k < |indexes| ==> PutByName(indexes, i)[k].name == indexes[k].name
  {
    if indexes[0].name != i.name {
      PutKeepsPlaces(indexes[1..], i);
    }
  }

  lemma {:induction false} PutAtEnd(indexes: seq<IndexDef>, i: IndexDef)
    requires forall j :: j in indexes ==> j.name != i.name
    ensures PutByName(indexes, i) == indexes + [i]
  {
    if indexes == [] {
    } else {
      assert indexes[0] in indexes;
      PutAtEnd(indexes[1..], i);
    }
  }

  lemma {:induction false} SeenKept(indexes: seq<IndexDef>, named: seq<IndexDef>, named': seq<IndexDef>, at: seq<nat>)
    requires indexes != [] && FirstSeen(indexes[..|indexes| - 1], named, at) && |named'| == |named|
    requires forall k :: 0 <= k < |named| ==> named'[k].name == named[k].name
    ensures FirstSeen(indexes, named', at)
  {
    var init := indexes[..|indexes| - 1];
    assert forall j :: 0 <= j < |init| ==> init[j] == indexes[j];
  }

  lemma {:induction false} SeenMore(indexes: seq<IndexDef>, named: seq<IndexDef>, i: IndexDef, at: seq<nat>)
    requires indexes != [] && i == indexes[|indexes| - 1] && FirstSeen(indexes[..|indexes| - 1], named, at)
    requires forall j :: 0 <= j < |indexes| - 1 ==> indexes[j].name != i.name
    ensures FirstSeen(indexes, named + [i], at + [|indexes| - 1])
  {
    var init := indexes[..|indexes| - 1];
    assert forall j :: 0 <= j < |init| ==> init[j] == indexes[j];
  }

  lemma {:induction false} NewName(indexes: seq<IndexDef>, name: string)
    requires name != "" && name != PRIMARY
    requires forall j :: j in NamedIndexes(indexes) ==> j.name != name
    ensures forall j :: 0 <= j < |indexes| ==> indexes[j].name != name
  {
    NamedExact(indexes);
    assert name !in IndexNames(NamedIndexes(indexes));
    assert forall j :: 0 <= j < |indexes| && IsNamed(indexes[j]) ==> indexes[j].name in NamedSet(indexes);
  }

  lemma {:induction false} FirstSeenStep(indexes: seq<IndexDef>, at: seq<nat>) returns (at': seq<nat>)
    requires indexes != []
    requires FirstSeen(indexes[..|indexes| - 1], NamedIndexes(indexes[..|indexes| - 1]), at)
    ensures FirstSeen(indexes, NamedIndexes(indexes), at')
  {
    var n := |indexes| - 1;
    var before, last := NamedIndexes(indexes[..n]), indexes[n];
    at' := at;
    if !IsNamed(last) {
      SeenKept(indexes, before, before, at);
    } else if exists j :: j in before && j.name == last.name {
      PutKeepsPlaces(before, last);
      SeenKept(indexes, before, PutByName(before, last), at);
    } else {
      PutAtEnd(before, last);
      NewName(indexes[..n], last.name);
      SeenMore(indexes, before, last, at);
      at' := at + [n];
    }
  }

  lemma {:induction false} NamedInOrder(indexes: seq<IndexDef>) returns (at: seq<nat>)
    ensures FirstSeen(indexes, NamedIndexes(indexes), at)
  {
    if indexes == [] {
      at := [];
    } else {
      at := NamedInOrder(indexes[..|indexes| - 1]);
      at := FirstSeenStep(indexes, at);
    }
  }

  /** The indexes a table is compared by: one of each name, in first-seen order, each in its last definition. */
  ghost predicate Compared(indexes: seq<IndexDef>, named: seq<IndexDef>) {
    && (exists at :: FirstSeen(indexes, named, at))
    && (forall i :: i in named <==> i.name != "" && i.name != "PRIMARY" && LastOfName(indexes, i))
  }

  lemma {:induction false} NamedIsCompared(indexes: seq<IndexDef>)
    ensures Compared(indexes, NamedIndexes(indexes))
  {
    var at := NamedInOrder(indexes);
    NamedExact(indexes);
  }

  /** How each list gives its statements, as a caller may write it down. */
  ghost predicate Calls(desired: TableDef, current: TableDef, changes: (ColumnDef, Op) -> bool,
                        drops: (ColumnDef, Op) -> bool, adds: (IndexDef, IndexDef) -> bool,
                        unlists: (IndexDef, IndexDef) -> bool) {
    && (forall d, op :: changes(d, op) <==> CallsFor(d, current.columns, op))
    && (forall c, op :: drops(c, op) <==> CallsForDrop(c, desired.columns, op))
    && (forall i, j :: adds(i, j) <==> i == j && Unlisted(i, current.indexes))
    && (forall i, j :: unlists(i, j) <==> i == j && Unlisted(i, desired.indexes))
  }

  /** ADD and MODIFY, DROP COLUMN, ADD INDEX, DROP INDEX: each part in the order of the list it comes from. */
  ghost predicate InOrder(ops: seq<Op>, desired: TableDef, current: TableDef, changes: (ColumnDef, Op) -> bool,
                          drops: (ColumnDef, Op) -> bool, adds: (IndexDef, IndexDef) -> bool,
                          unlists: (IndexDef, IndexDef) -> bool) {
    exists a, b, c, d, wanted, listed ::
      && ops == a + b + (AddIndexOps(c) + DropIndexOps(d))
      && PickedInOrder(desired.columns, a, changes) && PickedInOrder(current.columns, b, drops)
      && Compared(desired.indexes, wanted) && PickedInOrder(wanted, c, adds)
      && Compared(current.indexes, listed) && PickedInOrder(listed, d, unlists)
  }

  /** The statements of one table, in order. */
  lemma {:induction false} TableDiffInOrder(desired: TableDef, current: TableDef, changes: (ColumnDef, Op) -> bool,
                                            drops: (ColumnDef, Op) -> bool, adds: (IndexDef, IndexDef) -> bool,
                                            unlists: (IndexDef, IndexDef) -> bool)
    requires Calls(desired, current, changes, drops, adds, unlists)
    ensures InOrder(TableDiff(desired, Some(current)), desired, current, changes, drops, adds, unlists)
  {
    var wanted, listed := NamedIndexes(desired.indexes), NamedIndexes(current.indexes);
    ChangesInOrder(desired.columns, current.columns, changes);
    DropsInOrder(current.columns, desired.columns, drops);
    NamedIsCompared(desired.indexes);
    NamedIsCompared(current.indexes);
    MissingInOrder(wanted, current.indexes, adds);
    MissingInOrder(listed, desired.indexes, unlists);
  }

  // --- the statements of all tables ----------------------------------------

  /** The part of the list between cuts `i` and `i + 1`. */
  predicate PartAt(items: seq<DiffItem>, cuts: seq<nat>, i: nat, part: seq<DiffItem>) {
    i + 1 < |cuts| && cuts[i] <= cuts[i + 1] <= |items| && items[cuts[i]..cuts[i + 1]] == part
  }

  lemma {:induction false} PartStays(items: seq<DiffItem>, more: seq<DiffItem>, cuts: seq<nat>, c: nat, i: nat,
                                     part: seq<DiffItem>)
    requires PartAt(items, cuts, i, part)
    ensures PartAt(items + more, cuts + [c], i, part)
  {
  }

  lemma {:induction false} LastPart(items: seq<DiffItem>, more: seq<DiffItem>, cuts: seq<nat>)
    requires cuts != [] && cuts[|cuts| - 1] == |items|
    ensures PartAt(items + more, cuts + [|items| + |more|], |cuts| - 1, more)
  {
  }

  /** The list is the parts one after the other. */
  ghost predicate InParts(items: seq<DiffItem>, plan: seq<TablePlan>, cuts: seq<nat>) {
    && |cuts| == |plan| + 1 && cuts[0] == 0 && cuts[|plan|] == |items|
    && forall i :: 0 <= i < |plan| ==> PartAt(items, cuts, i, Items(plan[i].table, plan[i].ops))
  }

  lemma {:induction false} PartsInOrder(plan: seq<TablePlan>) returns (cuts: seq<nat>)
    ensures InParts(ItemsOf(plan), plan, cuts)
  {
    if plan == [] {
      cuts := [0];
    } else {
      var n := |plan| - 1;
      var before := PartsInOrder(plan[..n]);
      var items, more := ItemsOf(plan[..n]), Items(plan[n].table, plan[n].ops);
      cuts := before + [|items| + |more|];
      forall i | 0 <= i < n ensures PartAt(items + more, cuts, i, Items(plan[i].table, plan[i].ops)) {
        assert plan[..n][i] == plan[i];
        PartStays(items, more, before, |items| + |more|, i, Items(plan[i].table, plan[i].ops));
      }
      LastPart(items, more, before);
    }
  }

  /** Desired tables in their order, each with the statements of its own diff, and nothing else. */
  lemma {:induction false} SchemaDiffInOrder(desired: seq<TableDef>, current: map<string, TableDef>)
    returns (cuts: seq<nat>)
    ensures var items := SchemaDiffOf(desired, current);
      && |cuts| == |desired| + 1 && cuts[0] == 0 && cuts[|desired|] == |items|
      && forall i :: 0 <= i < |desired| ==>
           PartAt(items, cuts, i, Items(desired[i].name, TableDiff(desired[i], Lookup(current, desired[i].name))))
  {
    cuts := PartsInOrder(PlanOf(desired, current));
  }
}
