/** Running the statements of a table diff one after the other: when they succeed, what they leave. */
module SchemaExecution {
  import opened Common
  import opened SchemaModel
  import opened SchemaDiff
  import opened SchemaServer

  // --- ADD and MODIFY ------------------------------------------------------

  /** Column definitions the server reads under the name the reader gave them, where it reads them at all. */
  ghost predicate NamesRead(columns: seq<ColumnDef>, server: Server) {
    forall c :: c in columns && server.column(c.raw).Some? ==> server.column(c.raw).value.name == c.name
  }

  ghost predicate ColumnsOk(columns: seq<ColumnDef>, server: Server) {
    && (forall i, j :: 0 <= i < j < |columns| ==> columns[i].name != columns[j].name)
    && NamesRead(columns, server)
  }

  predicate PutsPrimary(d: ColumnDef, current: seq<ColumnDef>, server: Server) {
    Emitted(d, current) && server.column(d.raw).Some? && server.column(d.raw).value.primary
  }

  predicate PutsUnique(d: ColumnDef, current: seq<ColumnDef>, server: Server) {
    Emitted(d, current) && server.column(d.raw).Some? && server.column(d.raw).value.unique
  }

  /** Columns after the ADD and MODIFY statements for `desired`. */
  function AfterPuts(base: map<string, LiveColumn>, desired: seq<ColumnDef>, current: seq<ColumnDef>, server: Server)
    : map<string, LiveColumn>
  {
    if desired == [] then base
    else
      var d := desired[|desired| - 1];
      var before := AfterPuts(base, desired[..|desired| - 1], current, server);
      var c := server.column(d.raw);
      if Emitted(d, current) && c.Some? then before[d.name := LiveColumn(c.value.coltype, c.value.nullable)] else before
  }

  /** Indexes after the same statements. */
  function AfterInline(base: map<string, set<string>>, desired: seq<ColumnDef>, current: seq<ColumnDef>, server: Server)
    : map<string, set<string>>
  {
    if desired == [] then base
    else
      var d := desired[|desired| - 1];
      var before := AfterInline(base, desired[..|desired| - 1], current, server);
      var c := server.column(d.raw);
      if Emitted(d, current) && c.Some? then PutInline(before, c.value, server) else before
  }

  /** The state in which these statements leave the table. */
  function Put(t: LiveTable, desired: seq<ColumnDef>, current: seq<ColumnDef>, server: Server): LiveTable {
    LiveTable(AfterPuts(t.columns, desired, current, server), AfterInline(t.indexes, desired, current, server))
  }

  predicate IsNew(d: ColumnDef, current: seq<ColumnDef>) { FindColumn(current, d.name).None? }

  /** The statement for one column, if any, does not fail. */
  predicate PutFits(t: LiveTable, d: ColumnDef, current: seq<ColumnDef>, server: Server) {
    Emitted(d, current) ==>
      && server.column(d.raw).Some?
      && KeysFit(t.indexes, server.column(d.raw).value, server)
      && (IsNew(d, current) ==> server.fold(d.name) !in Folds(t.columns.Keys, server))
  }

  /** None of these statements fails. */
  predicate PutsRun(t: LiveTable, desired: seq<ColumnDef>, current: seq<ColumnDef>, server: Server) {
    desired == [] ||
    var n := |desired| - 1;
    && PutsRun(t, desired[..n], current, server)
    && PutFits(Put(t, desired[..n], current, server), desired[n], current, server)
  }

  lemma {:induction false} ColumnOpsLast(desired: seq<ColumnDef>, current: seq<ColumnDef>)
    requires desired != []
    ensures ColumnOps(desired, current)
         == ColumnOps(desired[..|desired| - 1], current) + ColumnOps([desired[|desired| - 1]], current)
  {
  }

  lemma {:induction false} ColumnsOkPrefix(desired: seq<ColumnDef>, n: nat, server: Server)
    requires ColumnsOk(desired, server) && n < |desired|
    ensures ColumnsOk(desired[..n], server) && desired[n].name !in Names(desired[..n])
  {
  }

  /** One more column statement, or none if the column is as desired. */
  lemma {:induction false} OneColumnRun(d: ColumnDef, current: seq<ColumnDef>, t: LiveTable, server: Server)
    requires server.column(d.raw).Some? ==> server.column(d.raw).value.name == d.name
    requires d.name in t.columns <==> FindColumn(current, d.name).Some?
    ensures var ops := ColumnOps([d], current);
            var c := server.column(d.raw);
      RunOps(ops, At(Some(t)), server) ==
        if !Emitted(d, current) then At(Some(t))
        else if !PutFits(t, d, current, server) then Failed
        else At(Some(LiveTable(t.columns[d.name := LiveColumn(c.value.coltype, c.value.nullable)],
                               PutInline(t.indexes, c.value, server))))
  {
    var ops := ColumnOps([d], current);
    assert [d][..0] == [] && ColumnOps([], current) == [];
    if Emitted(d, current) {
      assert |ops| == 1 && ops[..0] == [];
      assert RunOps(ops[..0], At(Some(t)), server) == At(Some(t));
    } else {
      assert ops == [];
    }
  }

  lemma {:induction false} UntouchedPut(base: map<string, LiveColumn>, desired: seq<ColumnDef>,
                                        current: seq<ColumnDef>, server: Server, name: string)
    requires name !in Names(desired)
    ensures name in AfterPuts(base, desired, current, server) <==> name in base
    ensures name in base ==> AfterPuts(base, desired, current, server)[name] == base[name]
  {
    if desired == [] {
    } else {
      var n := |desired| - 1;
      assert desired[n].name in Names(desired);
      assert name !in Names(desired[..n]);
      UntouchedPut(base, desired[..n], current, server, name);
    }
  }

  lemma {:induction false} AfterPutsKeys(base: map<string, LiveColumn>, desired: seq<ColumnDef>,
                                         current: seq<ColumnDef>, server: Server)
    ensures base.Keys <= AfterPuts(base, desired, current, server).Keys <= base.Keys + Names(desired)
  {
    if desired == [] {
    } else {
      var n := |desired| - 1;
      AfterPutsKeys(base, desired[..n], current, server);
      assert Names(desired[..n]) <= Names(desired) && desired[n].name in Names(desired);
    }
  }

  /** A desired column ends as its statement says, or as it was if there is none. */
  lemma {:induction false} AfterPutsAt(base: map<string, LiveColumn>, desired: seq<ColumnDef>,
                                       current: seq<ColumnDef>, server: Server, i: nat)
    requires forall i, j :: 0 <= i < j < |desired| ==> desired[i].name != desired[j].name
    requires i < |desired| && (!Emitted(desired[i], current) ==> desired[i].name in base)
    ensures var d := desired[i];
            var r := AfterPuts(base, desired, current, server);
            var c := server.column(d.raw);
      && (Emitted(d, current) && c.Some? ==> d.name in r && r[d.name] == LiveColumn(c.value.coltype, c.value.nullable))
      && (!Emitted(d, current) ==> d.name in r && r[d.name] == base[d.name])
  {
    var n := |desired| - 1;
    if i == n {
      UntouchedPut(base, desired[..n], current, server, desired[n].name);
    } else {
      AfterPutsAt(base, desired[..n], current, server, i);
    }
  }

  lemma {:induction false} AfterPutsExact(base: map<string, LiveColumn>, desired: seq<ColumnDef>,
                                          current: seq<ColumnDef>, server: Server)
    requires forall i, j :: 0 <= i < j < |desired| ==> desired[i].name != desired[j].name
    requires forall d :: d in desired && !Emitted(d, current) ==> d.name in base
    ensures base.Keys <= AfterPuts(base, desired, current, server).Keys <= base.Keys + Names(desired)
    ensures forall d :: d in desired && Emitted(d, current) && server.column(d.raw).Some? ==>
      var c := server.column(d.raw).value;
      && d.name in AfterPuts(base, desired, current, server)
      && AfterPuts(base, desired, current, server)[d.name] == LiveColumn(c.coltype, c.nullable)
    ensures forall d :: d in desired && !Emitted(d, current) ==>
      AfterPuts(base, desired, current, server)[d.name] == base[d.name]
  {
    AfterPutsKeys(base, desired, current, server);
    forall i | 0 <= i < |desired|
      ensures var d := desired[i];
              var r := AfterPuts(base, desired, current, server);
              var c := server.column(d.raw);
        && (Emitted(d, current) && c.Some? ==>
              d.name in r && r[d.name] == LiveColumn(c.value.coltype, c.value.nullable))
        && (!Emitted(d, current) ==> d.name in r && r[d.name] == base[d.name])
    {
      AfterPutsAt(base, desired, current, server, i);
    }
  }

  /** From the state all but the last of them leave. */
  lemma {:induction false} LastColumnRun(desired: seq<ColumnDef>, ct: TableDef, t: LiveTable, server: Server)
    requires desired != [] && ColumnsOk(desired, server) && Names(ct.columns) == t.columns.Keys
    ensures var n := |desired| - 1;
            var mid := Put(t, desired[..n], ct.columns, server);
      RunOps(ColumnOps([desired[n]], ct.columns), At(Some(mid)), server) ==
        if PutFits(mid, desired[n], ct.columns, server) then At(Some(Put(t, desired, ct.columns, server))) else Failed
  {
    var n := |desired| - 1;
    ColumnsOkPrefix(desired, n, server);
    UntouchedPut(t.columns, desired[..n], ct.columns, server, desired[n].name);
    assert desired[n].name in Names(ct.columns) <==> FindColumn(ct.columns, desired[n].name).Some?;
    assert desired[n] in desired;
    OneColumnRun(desired[n], ct.columns, Put(t, desired[..n], ct.columns, server), server);
  }

  /** The ADD and MODIFY statements, all of them. */
  lemma {:induction false} ColumnOpsRun(desired: seq<ColumnDef>, ct: TableDef, t: LiveTable, server: Server)
    requires ColumnsOk(desired, server) && Names(ct.columns) == t.columns.Keys
    ensures RunOps(ColumnOps(desired, ct.columns), At(Some(t)), server) ==
      if PutsRun(t, desired, ct.columns, server) then At(Some(Put(t, desired, ct.columns, server))) else Failed
  {
    if desired == [] {
    } else {
      var n := |desired| - 1;
      ColumnsOkPrefix(desired, n, server);
      ColumnOpsRun(desired[..n], ct, t, server);
      ColumnOpsLast(desired, ct.columns);
      var last := ColumnOps([desired[n]], ct.columns);
      RunAppend(ColumnOps(desired[..n], ct.columns), last, At(Some(t)), server);
      if PutsRun(t, desired[..n], ct.columns, server) {
        LastColumnRun(desired, ct, t, server);
      } else {
        FailedStays(last, server);
      }
    }
  }

  // --- when they succeed, and the indexes they leave -------------------------

  predicate AnyPrimary(desired: seq<ColumnDef>, current: seq<ColumnDef>, server: Server) {
    exists d :: d in desired && PutsPrimary(d, current, server)
  }

  predicate AnyUnique(desired: seq<ColumnDef>, current: seq<ColumnDef>, server: Server) {
    exists d :: d in desired && PutsUnique(d, current, server)
  }

  lemma {:induction false} AnyStep(desired: seq<ColumnDef>, current: seq<ColumnDef>, server: Server)
    requires desired != []
    ensures var n := |desired| - 1;
      && (AnyPrimary(desired, current, server) <==>
            AnyPrimary(desired[..n], current, server) || PutsPrimary(desired[n], current, server))
      && (AnyUnique(desired, current, server) <==>
            AnyUnique(desired[..n], current, server) || PutsUnique(desired[n], current, server))
  {
    var n := |desired| - 1;
    assert forall d :: d in desired <==> d in desired[..n] || d == desired[n];
  }

  /** The primary key comes from a column definition at most once, and from none if there is one already. */
  predicate OnePrimary(indexes: map<string, set<string>>, desired: seq<ColumnDef>, current: seq<ColumnDef>,
                       server: Server) {
    forall d :: d in desired && PutsPrimary(d, current, server) ==>
      && PRIMARY !in indexes
      && forall e :: e in desired && PutsPrimary(e, current, server) ==> e.name == d.name
  }

  predicate KeyTypesFit(desired: seq<ColumnDef>, current: seq<ColumnDef>, server: Server) {
    forall d :: d in desired && (PutsPrimary(d, current, server) || PutsUnique(d, current, server)) ==>
      server.indexable(server.column(d.raw).value.coltype)
  }

  predicate AllRead(desired: seq<ColumnDef>, current: seq<ColumnDef>, server: Server) {
    forall d :: d in desired && Emitted(d, current) ==> server.column(d.raw).Some?
  }

  lemma {:induction false} PutInlineKeys(indexes: map<string, set<string>>, c: ServerColumn, server: Server)
    requires PicksFreshNames(server) && "" !in indexes
    ensures var r := PutInline(indexes, c, server);
      && "" !in r && indexes.Keys <= r.Keys
      && (PRIMARY in r <==> PRIMARY in indexes || c.primary)
      && (forall n :: n in indexes && n != PRIMARY ==> r[n] == indexes[n])
      && (!c.primary && PRIMARY in indexes ==> r[PRIMARY] == indexes[PRIMARY])
      && (!c.unique ==> r.Keys <= indexes.Keys + {PRIMARY})
  {
  }

  lemma {:induction false} AfterInlineKeys(base: map<string, set<string>>, desired: seq<ColumnDef>,
                                           current: seq<ColumnDef>, server: Server)
    requires PicksFreshNames(server) && "" !in base
    ensures var r := AfterInline(base, desired, current, server);
      && "" !in r && base.Keys <= r.Keys
      && (PRIMARY in r <==> PRIMARY in base || AnyPrimary(desired, current, server))
      && (forall n :: n in base && n != PRIMARY ==> r[n] == base[n])
      && (!AnyPrimary(desired, current, server) && PRIMARY in base ==> r[PRIMARY] == base[PRIMARY])
      && (!AnyUnique(desired, current, server) ==> r.Keys <= base.Keys + {PRIMARY})
  {
    if desired == [] {
    } else {
      var n := |desired| - 1;
      AfterInlineKeys(base, desired[..n], current, server);
      AnyStep(desired, current, server);
      if Emitted(desired[n], current) && server.column(desired[n].raw).Some? {
        PutInlineKeys(AfterInline(base, desired[..n], current, server), server.column(desired[n].raw).value, server);
      }
    }
  }

  /** A name in the indexes that neither `base` nor a primary key explains, over desired columns only. */
  predicate Extra(r: map<string, set<string>>, base: map<string, set<string>>, columns: set<string>, n: string) {
    n in r && n !in base && n != PRIMARY && r[n] != {} && r[n] <= columns
  }

  lemma {:induction false} UniqueLeavesExtra(base: map<string, set<string>>, desired: seq<ColumnDef>,
                                             current: seq<ColumnDef>, server: Server) returns (n: string)
    requires PicksFreshNames(server) && "" !in base && NamesRead(desired, server)
    requires AnyUnique(desired, current, server)
    ensures Extra(AfterInline(base, desired, current, server), base, Names(desired), n)
  {
    var k := |desired| - 1;
    var init := desired[..k];
    var d := desired[k];
    AnyStep(desired, current, server);
    AfterInlineKeys(base, init, current, server);
    assert d in desired && d.name in Names(desired);
    var before := AfterInline(base, init, current, server);
    if PutsUnique(d, current, server) {
      var keyed := if server.column(d.raw).value.primary then before[PRIMARY := {d.name}] else before;
      n := server.autoName(keyed.Keys, {d.name});
    } else {
      n := UniqueLeavesExtra(base, init, current, server);
      assert Names(init) <= Names(desired);
    }
  }

  /** The primary key afterwards, if a column definition brought it. */
  lemma {:induction false} PrimaryFrom(base: map<string, set<string>>, desired: seq<ColumnDef>,
                                       current: seq<ColumnDef>, server: Server)
    requires PicksFreshNames(server) && NamesRead(desired, server) && AnyPrimary(desired, current, server)
    ensures exists d :: d in desired && PutsPrimary(d, current, server)
                     && PrimaryColumns(AfterInline(base, desired, current, server)) == {d.name}
  {
    var k := |desired| - 1;
    var d := desired[k];
    AnyStep(desired, current, server);
    if PutsPrimary(d, current, server) {
      assert d in desired;
    } else {
      PrimaryFrom(base, desired[..k], current, server);
      var e :| e in desired[..k] && PutsPrimary(e, current, server)
               && PrimaryColumns(AfterInline(base, desired[..k], current, server)) == {e.name};
      assert e in desired;
    }
  }

  /** One desired column, against the table and the other desired columns. */
  predicate NameFits(t: LiveTable, d: ColumnDef, desired: seq<ColumnDef>, server: Server) {
    && server.fold(d.name) !in Folds(t.columns.Keys, server)
    && forall e :: e in desired && SameName(d.name, e.name, server) ==> e.name == d.name
  }

  /** A new column has a name of its own, also among the columns still to be dropped. */
  predicate NewNamesFit(t: LiveTable, desired: seq<ColumnDef>, current: seq<ColumnDef>, server: Server) {
    forall d :: d in desired && IsNew(d, current) ==> NameFits(t, d, desired, server)
  }

  lemma {:induction false} FoldsOfUnion(a: set<string>, b: set<string>, server: Server)
    ensures Folds(a + b, server) == Folds(a, server) + Folds(b, server)
  {
  }

  lemma {:induction false} FoldedNames(columns: seq<ColumnDef>, server: Server, f: string)
    ensures f in Folds(Names(columns), server) <==> exists c :: c in columns && server.fold(c.name) == f
  {
    if c :| c in columns && server.fold(c.name) == f {
      assert c.name in Names(columns);
    }
  }

  /** A new last column among the others. */
  lemma {:induction false} LastNameFits(t: LiveTable, desired: seq<ColumnDef>, server: Server)
    requires ColumnsOk(desired, server) && desired != []
    ensures var n := |desired| - 1;
      NameFits(t, desired[n], desired, server) <==>
        server.fold(desired[n].name) !in Folds(t.columns.Keys + Names(desired[..n]), server)
  {
    var n := |desired| - 1;
    var init := desired[..n];
    ColumnsOkPrefix(desired, n, server);
    FoldsOfUnion(t.columns.Keys, Names(init), server);
    FoldedNames(init, server, server.fold(desired[n].name));
    assert forall e :: e in desired <==> e in init || e == desired[n];
    assert forall e :: e in init ==> e.name in Names(init);
  }

  /** An earlier new column, with one more column desired. */
  lemma {:induction false} EarlierNameFits(t: LiveTable, desired: seq<ColumnDef>, current: seq<ColumnDef>,
                                           server: Server, d: ColumnDef)
    requires desired != [] && Names(current) == t.columns.Keys && d in desired[..|desired| - 1]
    requires var last := desired[|desired| - 1];
      IsNew(last, current) ==> NameFits(t, last, desired, server)
    ensures NameFits(t, d, desired, server) <==> NameFits(t, d, desired[..|desired| - 1], server)
  {
    var last := desired[|desired| - 1];
    assert forall e :: e in desired <==> e in desired[..|desired| - 1] || e == last;
    assert !IsNew(last, current) ==> server.fold(last.name) in Folds(t.columns.Keys, server);
  }

  lemma {:induction false} NewNamesStep(t: LiveTable, desired: seq<ColumnDef>, current: seq<ColumnDef>, server: Server)
    requires ColumnsOk(desired, server) && desired != [] && Names(current) == t.columns.Keys
    ensures var n := |desired| - 1;
            var d := desired[n];
      NewNamesFit(t, desired, current, server) <==>
        && NewNamesFit(t, desired[..n], current, server)
        && (IsNew(d, current) ==> server.fold(d.name) !in Folds(t.columns.Keys + Names(desired[..n]), server))
  {
    var n := |desired| - 1;
    var last := desired[n];
    LastNameFits(t, desired, server);
    assert forall e :: e in desired <==> e in desired[..n] || e == last;
    if IsNew(last, current) ==> NameFits(t, last, desired, server) {
      forall d | d in desired[..n]
        ensures NameFits(t, d, desired, server) <==> NameFits(t, d, desired[..n], server)
      {
        EarlierNameFits(t, desired, current, server, d);
      }
    }
  }

  lemma {:induction false} NotEmittedExists(desired: seq<ColumnDef>, current: seq<ColumnDef>, t: LiveTable)
    requires Names(current) == t.columns.Keys
    ensures forall d :: d in desired && !Emitted(d, current) ==> d.name in t.columns
  {
  }

  lemma {:induction false} PutKeys(t: LiveTable, desired: seq<ColumnDef>, current: seq<ColumnDef>, server: Server)
    requires ColumnsOk(desired, server) && Names(current) == t.columns.Keys && AllRead(desired, current, server)
    ensures Put(t, desired, current, server).columns.Keys == t.columns.Keys + Names(desired)
  {
    NotEmittedExists(desired, current, t);
    AfterPutsExact(t.columns, desired, current, server);
  }

  /** What keeps the last column's statement from failing. */
  lemma {:induction false} PutFitsExact(t: LiveTable, desired: seq<ColumnDef>, current: seq<ColumnDef>, server: Server)
    requires PicksFreshNames(server) && "" !in t.indexes && ColumnsOk(desired, server)
    requires Names(current) == t.columns.Keys
    requires desired != [] && AllRead(desired[..|desired| - 1], current, server)
    ensures var n := |desired| - 1;
            var d := desired[n];
            var init := desired[..n];
      PutFits(Put(t, init, current, server), d, current, server) <==>
        && (Emitted(d, current) ==> server.column(d.raw).Some?)
        && (PutsPrimary(d, current, server) ==> PRIMARY !in t.indexes && !AnyPrimary(init, current, server))
        && (PutsPrimary(d, current, server) || PutsUnique(d, current, server) ==>
              server.indexable(server.column(d.raw).value.coltype))
        && (IsNew(d, current) ==>
              server.fold(d.name) !in Folds(t.columns.Keys + Names(init), server))
  {
    var n := |desired| - 1;
    ColumnsOkPrefix(desired, n, server);
    AfterInlineKeys(t.indexes, desired[..n], current, server);
    PutKeys(t, desired[..n], current, server);
  }

  lemma {:induction false} OnePrimaryStep(base: map<string, set<string>>, desired: seq<ColumnDef>,
                                          current: seq<ColumnDef>, server: Server)
    requires ColumnsOk(desired, server) && desired != []
    ensures var n := |desired| - 1;
      OnePrimary(base, desired, current, server) <==>
        && OnePrimary(base, desired[..n], current, server)
        && (PutsPrimary(desired[n], current, server) ==> PRIMARY !in base && !AnyPrimary(desired[..n], current, server))
  {
    var n := |desired| - 1;
    ColumnsOkPrefix(desired, n, server);
    assert forall d :: d in desired <==> d in desired[..n] || d == desired[n];
    assert forall d :: d in desired[..n] ==> d.name in Names(desired[..n]);
  }

  /** When the ADD and MODIFY statements can run. */
  predicate CanPut(t: LiveTable, desired: seq<ColumnDef>, current: seq<ColumnDef>, server: Server) {
    && AllRead(desired, current, server)
    && NewNamesFit(t, desired, current, server)
    && OnePrimary(t.indexes, desired, current, server)
    && KeyTypesFit(desired, current, server)
  }

  lemma {:induction false} AllReadStep(desired: seq<ColumnDef>, current: seq<ColumnDef>, server: Server)
    requires desired != []
    ensures var n := |desired| - 1;
      AllRead(desired, current, server) <==>
        AllRead(desired[..n], current, server) && (Emitted(desired[n], current) ==> server.column(desired[n].raw).Some?)
  {
    assert forall d :: d in desired <==> d in desired[..|desired| - 1] || d == desired[|desired| - 1];
  }

  lemma {:induction false} KeyTypesStep(desired: seq<ColumnDef>, current: seq<ColumnDef>, server: Server)
    requires desired != []
    ensures var n := |desired| - 1;
            var d := desired[n];
      KeyTypesFit(desired, current, server) <==>
        && KeyTypesFit(desired[..n], current, server)
        && (PutsPrimary(d, current, server) || PutsUnique(d, current, server) ==>
              server.indexable(server.column(d.raw).value.coltype))
  {
    assert forall d :: d in desired <==> d in desired[..|desired| - 1] || d == desired[|desired| - 1];
  }

  lemma {:induction false} CanPutStep(t: LiveTable, desired: seq<ColumnDef>, current: seq<ColumnDef>, server: Server)
    requires PicksFreshNames(server) && "" !in t.indexes && ColumnsOk(desired, server)
    requires Names(current) == t.columns.Keys && desired != []
    ensures var n := |desired| - 1;
      CanPut(t, desired, current, server) <==>
        && CanPut(t, desired[..n], current, server)
        && PutFits(Put(t, desired[..n], current, server), desired[n], current, server)
  {
    AllReadStep(desired, current, server);
    NewNamesStep(t, desired, current, server);
    OnePrimaryStep(t.indexes, desired, current, server);
    KeyTypesStep(desired, current, server);
    if AllRead(desired[..|desired| - 1], current, server) {
      PutFitsExact(t, desired, current, server);
    }
  }

  /** They all succeed if and only if the server reads them and no name or key is in the way. */
  lemma {:induction false} PutsRunExact(t: LiveTable, desired: seq<ColumnDef>, current: seq<ColumnDef>, server: Server)
    requires PicksFreshNames(server) && "" !in t.indexes && ColumnsOk(desired, server)
    requires Names(current) == t.columns.Keys
    ensures PutsRun(t, desired, current, server) <==> CanPut(t, desired, current, server)
  {
    if desired == [] {
    } else {
      ColumnsOkPrefix(desired, |desired| - 1, server);
      PutsRunExact(t, desired[..|desired| - 1], current, server);
      CanPutStep(t, desired, current, server);
    }
  }

  // --- DROP COLUMN ---------------------------------------------------------

  lemma {:induction false} ShrinkNothing(indexes: map<string, set<string>>)
    requires forall n :: n in indexes ==> indexes[n] != {}
    ensures Shrink(indexes, {}) == indexes
  {
    forall n | n in indexes ensures indexes[n] - {} == indexes[n] { }
  }

  lemma {:induction false} ShrinkTwice(indexes: map<string, set<string>>, gone: set<string>, name: string)
    ensures Shrink(Shrink(indexes, gone), {name}) == Shrink(indexes, gone + {name})
  {
    forall n | n in indexes ensures indexes[n] - gone - {name} == indexes[n] - (gone + {name}) { }
  }

  /** Dropping columns succeeds as long as one is left at the end. */
  lemma {:induction false} DropsRun(names: seq<string>, t: LiveTable, server: Server)
    requires Distinct(names) && SetOf(names) < t.columns.Keys
    requires forall n :: n in t.indexes ==> t.indexes[n] != {}
    ensures RunOps(DropColumnOps(names), At(Some(t)), server)
         == At(Some(LiveTable(t.columns - SetOf(names), Shrink(t.indexes, SetOf(names)))))
  {
    if names == [] {
      assert SetOf(names) == {} && DropColumnOps(names) == [];
      ShrinkNothing(t.indexes);
      assert t.columns - SetOf(names) == t.columns;
    } else {
      var n := |names| - 1;
      var init := names[..n];
      assert SetOf(names) == SetOf(init) + {names[n]} && names[n] !in SetOf(init);
      DropsRun(init, t, server);
      assert DropColumnOps(names)[..n] == DropColumnOps(init);
      var mid := LiveTable(t.columns - SetOf(init), Shrink(t.indexes, SetOf(init)));
      assert mid.columns.Keys != {names[n]} by {
        var kept :| kept in t.columns.Keys && kept !in SetOf(names);
        assert kept in mid.columns.Keys;
      }
      ShrinkTwice(t.indexes, SetOf(init), names[n]);
      assert mid.columns - {names[n]} == t.columns - SetOf(names);
    }
  }

  lemma {:induction false} AllButLast(names: seq<string>)
    requires Distinct(names) && names != []
    ensures var n := |names| - 1;
      SetOf(names[..n]) < SetOf(names) && SetOf(names) - SetOf(names[..n]) == {names[n]}
  {
    var n := |names| - 1;
    assert SetOf(names) == SetOf(names[..n]) + {names[n]} && names[n] !in SetOf(names[..n]);
  }

  lemma {:induction false} LastDropFails(t: LiveTable, name: string, server: Server)
    requires t.columns.Keys == {name}
    ensures RunOp(DropColumn(name), Some(t), server) == Failed
  {
  }

  /** The last column cannot be dropped. */
  lemma {:induction false} DropAllFails(names: seq<string>, t: LiveTable, server: Server)
    requires Distinct(names) && names != [] && SetOf(names) == t.columns.Keys
    requires forall n :: n in t.indexes ==> t.indexes[n] != {}
    ensures RunOps(DropColumnOps(names), At(Some(t)), server) == Failed
  {
    var n := |names| - 1;
    var init := names[..n];
    AllButLast(names);
    DropsRun(init, t, server);
    LastDropFails(LiveTable(t.columns - SetOf(init), Shrink(t.indexes, SetOf(init))), names[n], server);
    assert DropColumnOps(names) == DropColumnOps(init) + [DropColumn(names[n])];
    RunLast(DropColumnOps(init), DropColumn(names[n]), At(Some(t)), server);
  }

  // --- ADD INDEX and DROP INDEX ----------------------------------------------

  function PutIndexes(t: LiveTable, indexes: seq<IndexDef>, server: Server): map<string, set<string>> {
    if indexes == [] then t.indexes
    else
      var i := indexes[|indexes| - 1];
      PutIndexes(t, indexes[..|indexes| - 1], server)[i.name := Resolved(t, i.columns, server)]
  }

  lemma {:induction false} IndexNamesStep(indexes: seq<IndexDef>)
    requires indexes != []
    ensures var n := |indexes| - 1;
      && IndexNames(indexes) == IndexNames(indexes[..n]) + {indexes[n].name}
      && (DistinctNames(indexes) ==> indexes[n].name !in IndexNames(indexes[..n]))
  {
    var n := |indexes| - 1;
    assert forall i :: i in indexes <==> i in indexes[..n] || i == indexes[n];
  }

  lemma {:induction false} PutIndexesExact(t: LiveTable, indexes: seq<IndexDef>, server: Server)
    ensures PutIndexes(t, indexes, server).Keys == t.indexes.Keys + IndexNames(indexes)
    ensures PRIMARY !in IndexNames(indexes) ==>
      PrimaryColumns(PutIndexes(t, indexes, server)) == PrimaryColumns(t.indexes)
  {
    if indexes == [] {
    } else {
      PutIndexesExact(t, indexes[..|indexes| - 1], server);
      IndexNamesStep(indexes);
    }
  }

  lemma {:induction false} AddIndexOpsStep(indexes: seq<IndexDef>)
    requires indexes != []
    ensures AddIndexOps(indexes) == AddIndexOps(indexes[..|indexes| - 1]) + [AddIndex(indexes[|indexes| - 1])]
  {
  }

  lemma {:induction false} DropIndexOpsStep(indexes: seq<IndexDef>)
    requires indexes != []
    ensures DropIndexOps(indexes)
         == DropIndexOps(indexes[..|indexes| - 1]) + [DropIndex(indexes[|indexes| - 1].name)]
  {
  }

  /** Each fits the table, and no two have one name for the server. */
  predicate AllFit(indexes: seq<IndexDef>, t: LiveTable, server: Server) {
    && (forall i :: i in indexes ==> IndexFits(t, i, server))
    && (forall i, j :: i in indexes && j in indexes && SameName(i.name, j.name, server) ==> i.name == j.name)
  }

  lemma {:induction false} OneMoreIndex(indexes: seq<IndexDef>, t: LiveTable, server: Server)
    requires indexes != []
    ensures var init, last := indexes[..|indexes| - 1], indexes[|indexes| - 1];
            var before := t.(indexes := PutIndexes(t, init, server));
      RunOp(AddIndex(last), Some(before), server) ==
        if IndexFits(before, last, server) then At(Some(t.(indexes := PutIndexes(t, indexes, server)))) else Failed
  {
  }

  lemma {:induction false} AllFitStep(indexes: seq<IndexDef>, t: LiveTable, server: Server)
    requires indexes != [] && DistinctNames(indexes)
    ensures var n := |indexes| - 1;
      AllFit(indexes, t, server) <==>
        && AllFit(indexes[..n], t, server) && IndexFits(t, indexes[n], server)
        && server.fold(indexes[n].name) !in Folds(IndexNames(indexes[..n]), server)
  {
    var n := |indexes| - 1;
    IndexNamesStep(indexes);
    assert forall i :: i in indexes <==> i in indexes[..n] || i == indexes[n];
    assert forall i :: i in indexes[..n] ==> i.name in IndexNames(indexes[..n]);
  }

  lemma {:induction false} StillFits(init: seq<IndexDef>, i: IndexDef, t: LiveTable, server: Server)
    ensures IndexFits(t.(indexes := PutIndexes(t, init, server)), i, server) <==>
            IndexFits(t, i, server) && server.fold(i.name) !in Folds(IndexNames(init), server)
  {
    PutIndexesExact(t, init, server);
    FoldsOfUnion(t.indexes.Keys + {PRIMARY}, IndexNames(init), server);
    assert t.indexes.Keys + IndexNames(init) + {PRIMARY} == t.indexes.Keys + {PRIMARY} + IndexNames(init);
  }

  /** Creating indexes succeeds exactly when each of them fits the table. */
  lemma {:induction false} AddIndexesRun(indexes: seq<IndexDef>, t: LiveTable, server: Server)
    requires DistinctNames(indexes)
    ensures RunOps(AddIndexOps(indexes), At(Some(t)), server) ==
      if AllFit(indexes, t, server) then At(Some(t.(indexes := PutIndexes(t, indexes, server)))) else Failed
  {
    if indexes == [] {
    } else {
      var n := |indexes| - 1;
      var init := indexes[..n];
      AddIndexesRun(init, t, server);
      AddIndexOpsStep(indexes);
      RunLast(AddIndexOps(init), AddIndex(indexes[n]), At(Some(t)), server);
      AllFitStep(indexes, t, server);
      StillFits(init, indexes[n], t, server);
      OneMoreIndex(indexes, t, server);
    }
  }

  /** Dropping indexes succeeds exactly when all of them are still there. */
  lemma {:induction false} DropIndexesRun(indexes: seq<IndexDef>, t: LiveTable, server: Server)
    requires DistinctNames(indexes)
    ensures RunOps(DropIndexOps(indexes), At(Some(t)), server) ==
      if IndexNames(indexes) <= t.indexes.Keys then At(Some(t.(indexes := t.indexes - IndexNames(indexes)))) else Failed
  {
    if indexes == [] {
      assert t.indexes - IndexNames(indexes) == t.indexes;
    } else {
      var n := |indexes| - 1;
      DropIndexesRun(indexes[..n], t, server);
      IndexNamesStep(indexes);
      DropIndexOpsStep(indexes);
      RunLast(DropIndexOps(indexes[..n]), DropIndex(indexes[n].name), At(Some(t)), server);
      assert t.indexes - IndexNames(indexes[..n]) - {indexes[n].name} == t.indexes - IndexNames(indexes);
    }
  }
}
