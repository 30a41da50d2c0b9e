/** What a restore does table by table (backup/sqldump/restore.go): tables do not affect each
    other, so statements about one table carry over to whole archives, in any mode and
    under any schema drift. */
module TableByTable {
  import opened Bytes
  import opened Seqs
  import opened Frame
  import opened Tables
  import opened Restore
  import opened Archive

  function At(db: Database, name: string): Option<Table> {
    if name in db then Some(db[name]) else None
  }

  /** One table's stream against one table, nothing else in sight. */
  function Effect(c: Codec, tm: TableMeta, data: bytes, t: Option<Table>, mode: Mode): Outcome<Option<Table>> {
    match ApplyTable(c, tm, data, if t.Some? then map[tm.name := t.value] else map[], mode)
    case Err(f) => Err(f)
    case Ok(a) => Ok(At(a.db, tm.name))
  }

  lemma ApplyIsEffect(c: Codec, tm: TableMeta, data: bytes, db: Database, mode: Mode)
    ensures var a, e := ApplyTable(c, tm, data, db, mode), Effect(c, tm, data, At(db, tm.name), mode);
            && (a.Ok? <==> e.Ok?)
            && (a.Ok? ==> At(a.v.db, tm.name) == e.v && forall x :: x != tm.name ==> At(a.v.db, x) == At(db, x))
  {
  }

  ghost predicate DistinctTables(metas: seq<TableMeta>) {
    forall i, j :: 0 <= i < j < |metas| ==> metas[i].name != metas[j].name
  }

  /** The i-th table of an archive against the table of its name. */
  function EffectAt(c: Codec, metas: seq<TableMeta>, datas: seq<bytes>, db: Database, mode: Mode, i: int): Outcome<Option<Table>>
    requires 0 <= i < |metas| == |datas|
  {
    Effect(c, metas[i], datas[i], At(db, metas[i].name), mode)
  }

  ghost predicate EachWorks(c: Codec, metas: seq<TableMeta>, datas: seq<bytes>, db: Database, mode: Mode)
    requires |metas| == |datas|
  {
    forall i :: 0 <= i < |metas| ==> EffectAt(c, metas, datas, db, mode, i).Ok?
  }

  ghost predicate Names(metas: seq<TableMeta>, x: string) {
    exists i :: 0 <= i < |metas| && metas[i].name == x
  }

  ghost predicate EachDone(c: Codec, metas: seq<TableMeta>, datas: seq<bytes>, db: Database, mode: Mode, after: Database)
    requires |metas| == |datas|
  {
    && (forall i :: 0 <= i < |metas| ==> EffectAt(c, metas, datas, db, mode, i) == Ok(At(after, metas[i].name)))
    && forall x :: !Names(metas, x) ==> At(after, x) == At(db, x)
  }

  lemma EachWorksOneMore(c: Codec, metas: seq<TableMeta>, datas: seq<bytes>, db: Database, mode: Mode)
    requires |metas| == |datas| > 0
    ensures var n := |metas| - 1;
            EachWorks(c, metas, datas, db, mode) <==>
              EachWorks(c, metas[..n], datas[..n], db, mode) && EffectAt(c, metas, datas, db, mode, n).Ok?
  {
    var n := |metas| - 1;
    assert forall i :: 0 <= i < n ==> EffectAt(c, metas[..n], datas[..n], db, mode, i) == EffectAt(c, metas, datas, db, mode, i);
  }

  lemma EachDoneOneMore(c: Codec, metas: seq<TableMeta>, datas: seq<bytes>, db: Database, mode: Mode, before: Database, after: Database)
    requires |metas| == |datas| > 0 && DistinctTables(metas)
    requires EachDone(c, metas[..|metas| - 1], datas[..|metas| - 1], db, mode, before)
    requires var n := |metas| - 1;
             && EffectAt(c, metas, datas, db, mode, n) == Ok(At(after, metas[n].name))
             && forall x :: x != metas[n].name ==> At(after, x) == At(before, x)
    ensures EachDone(c, metas, datas, db, mode, after)
  {
    var n := |metas| - 1;
    var front, streams := metas[..n], datas[..n];
    assert forall i :: 0 <= i < n ==> front[i] == metas[i] && metas[i].name != metas[n].name;
    forall x | !Names(metas, x) ensures At(after, x) == At(db, x) {
      assert x != metas[n].name && !Names(front, x);
    }
    forall i | 0 <= i < |metas| ensures EffectAt(c, metas, datas, db, mode, i) == Ok(At(after, metas[i].name)) {
      if i < n {
        assert EffectAt(c, front, streams, db, mode, i) == Ok(At(before, metas[i].name));
      }
    }
  }

  /** Restoring several tables is restoring each of them alone. */
  lemma {:induction false} ApplyPointwise(c: Codec, metas: seq<TableMeta>, datas: seq<bytes>, db: Database, mode: Mode)
    requires |metas| == |datas| && DistinctTables(metas)
    ensures ApplyTables(c, metas, datas, db, mode).Ok? <==> EachWorks(c, metas, datas, db, mode)
    ensures var a := ApplyTables(c, metas, datas, db, mode); a.Ok? ==> EachDone(c, metas, datas, db, mode, a.v.0)
  {
    if metas != [] {
      var n := |metas| - 1;
      var front, streams := metas[..n], datas[..n];
      ApplyPointwise(c, front, streams, db, mode);
      EachWorksOneMore(c, metas, datas, db, mode);
      var before := ApplyTables(c, front, streams, db, mode);
      if before.Ok? {
        assert At(before.v.0, metas[n].name) == At(db, metas[n].name) by {
          assert !Names(front, metas[n].name);
        }
        ApplyIsEffect(c, metas[n], datas[n], before.v.0, mode);
        var a := ApplyTable(c, metas[n], datas[n], before.v.0, mode);
        if a.Ok? {
          EachDoneOneMore(c, metas, datas, db, mode, before.v.0, a.v.db);
        }
      }
    }
  }

  // ------------------------------------------------------ MERGE, once and twice

  /** The unique index of a table is intact. */
  ghost predicate Indexed(t: Option<Table>) {
    t.Some? ==> KeyHolds(t.value.rows, t.value.meta.pk)
  }

  /** The rows a table's stream stages. */
  function Staged(c: Codec, tm: TableMeta, data: bytes): seq<Row> {
    var stg := Load(c, tm.ColNames(), Lines(data));
    if stg.None? then [] else stg.value
  }

  /** The target has the table, with some column of the backup's. */
  predicate Overlaps(tm: TableMeta, t: Option<Table>) {
    t.Some? && t.value.meta.columns != [] && PlanFor(t.value, tm.ColNames()).cols != []
  }

  /** It also shares a key column. */
  predicate Keyed(tm: TableMeta, t: Option<Table>) {
    Overlaps(tm, t) && PlanFor(t.value, tm.ColNames()).pk != []
  }

  lemma UsedKeyIsWhole(live: Table, dumped: seq<string>)
    requires var p := PlanFor(live, dumped); p.pk != [] && forall x :: x in live.meta.pk ==> x in p.pk
    ensures var p := PlanFor(live, dumped); p.Valid() && p.pk == live.meta.pk
  {
    var p := PlanFor(live, dumped);
    PlanPartitions(live, dumped);
    FilterMembers(live.meta.pk, x => x in p.cols);
    FilterAll(live.meta.pk, x => x in p.cols);
  }

  lemma {:induction false} ResetAgain(c: Codec, columns: seq<Column>, rows: seq<Row>, sequences: map<string, int>)
    requires forall col :: col in columns && col.serial ==>
               col.name in sequences && sequences[col.name] == SequenceValue(c, rows, col.name)
    ensures ResetSequences(c, columns, rows, sequences) == sequences
  {
    if columns != [] {
      ResetAgain(c, columns[..|columns| - 1], rows, sequences);
    }
  }

  /** A keyed table under MERGE: the upsert, and the sequences that go with it. */
  lemma KeyedMerge(c: Codec, tm: TableMeta, data: bytes, t: Option<Table>)
    requires Effect(c, tm, data, t, Merge).Ok? && Indexed(t) && Keyed(tm, t)
    ensures var p, stg, live := PlanFor(t.value, tm.ColNames()), Staged(c, tm, data), t.value;
            && p.Valid() && p.pk == live.meta.pk && NoRepeats(live.rows, p.pk)
            && Stageable(tm) && Load(c, tm.ColNames(), Lines(data)).Some?
            && Upsert(p, live.rows, stg).Some?
            && var rows := Upsert(p, live.rows, stg).value;
               Effect(c, tm, data, t, Merge) ==
                 Ok(Some(live.(rows := rows, sequences := ResetSequences(c, live.meta.columns, rows, live.sequences))))
  {
    UsedKeyIsWhole(t.value, tm.ColNames());
  }

  lemma KeyedMergeOf(c: Codec, tm: TableMeta, data: bytes, live: Table)
    requires var p := PlanFor(live, tm.ColNames());
             && live.meta.columns != [] && p.cols != [] && p.pk != [] && p.pk == live.meta.pk
             && Stageable(tm) && Load(c, tm.ColNames(), Lines(data)).Some?
             && Upsert(p, live.rows, Staged(c, tm, data)).Some?
    ensures var rows := Upsert(PlanFor(live, tm.ColNames()), live.rows, Staged(c, tm, data)).value;
            Effect(c, tm, data, Some(live), Merge) ==
              Ok(Some(live.(rows := rows, sequences := ResetSequences(c, live.meta.columns, rows, live.sequences))))
  {
  }

  /** A second MERGE of the same stream changes nothing of this table. */
  ghost predicate Repeatable(c: Codec, tm: TableMeta, data: bytes, t: Option<Table>) {
    Keyed(tm, t) ==> WholeKeys(Staged(c, tm, data), PlanFor(t.value, tm.ColNames()).pk)
  }

  lemma KeyedMergeTwice(c: Codec, tm: TableMeta, data: bytes, t: Option<Table>)
    requires Effect(c, tm, data, t, Merge).Ok? && Indexed(t) && Keyed(tm, t)
    ensures var once := Effect(c, tm, data, t, Merge).v;
            var twice := Effect(c, tm, data, once, Merge);
            && twice.Ok? && (twice.v == once <==> Repeatable(c, tm, data, t))
  {
    var live, p, stg := t.value, PlanFor(t.value, tm.ColNames()), Staged(c, tm, data);
    KeyedMerge(c, tm, data, t);
    var once := Effect(c, tm, data, t, Merge).v.value;
    assert PlanFor(once, tm.ColNames()) == p;
    MergeIdempotent(p, live.rows, stg);
    KeyedMergeOf(c, tm, data, once);
    SequencesPastRows(c, live.meta.columns, once.rows, live.sequences);
    ResetAgain(c, live.meta.columns, once.rows, once.sequences);
  }

  /** One table restored twice by MERGE: the second time always works, and changes nothing
      exactly when no staged key contains NULL, or the table has no key to merge by. */
  lemma MergeTwiceTable(c: Codec, tm: TableMeta, data: bytes, t: Option<Table>)
    requires Effect(c, tm, data, t, Merge).Ok? && Indexed(t)
    ensures var once := Effect(c, tm, data, t, Merge).v;
            var twice := Effect(c, tm, data, once, Merge);
            && twice.Ok? && (twice.v == once <==> Repeatable(c, tm, data, t))
  {
    if Keyed(tm, t) {
      KeyedMergeTwice(c, tm, data, t);
    } else if Overlaps(tm, t) {
      var live := t.value;
      SequencesPastRows(c, live.meta.columns, live.rows, live.sequences);
      ResetAgain(c, live.meta.columns, live.rows, ResetSequences(c, live.meta.columns, live.rows, live.sequences));
    }
  }

  // ------------------------------------------------------------ whole archives

  /** The manifest and the table streams of an archive that can be read. */
  ghost predicate Reads(c: Codec, s: bytes, m: Manifest, datas: seq<bytes>) {
    && TakeHeader(c, s).Ok? && TakeHeader(c, s).v.0 == m
    && var scan := TakeTables(|m.tables|, TakeHeader(c, s).v.1);
       && scan.AllEnded? && scan.datas == datas && TakeExtras(m.extras, scan.rest).Ok?
  }

  /** A restore reads the archive and applies every table on its own. */
  lemma RestoreIsApply(c: Codec, s: bytes, db: Database, mode: Mode, m: Manifest, datas: seq<bytes>)
    requires Reads(c, s, m, datas)
    ensures |datas| == |m.tables|
    ensures var r, a := RestoreArchive(c, s, db, mode), ApplyTables(c, m.tables, datas, db, mode);
            && (r.Ok? <==> a.Ok?)
            && (r.Ok? ==>
                  && r.v.db == a.v.0 && r.v.manifest == m
                  && Ok((r.v.extras, r.v.rest)) == TakeExtras(m.extras, TakeTables(|m.tables|, TakeHeader(c, s).v.1).rest))
  {
    RestoreSeparates(c, m.tables, TakeHeader(c, s).v.1, db, mode);
  }

  lemma WhatWasRead(c: Codec, s: bytes, db: Database, mode: Mode) returns (m: Manifest, datas: seq<bytes>)
    requires RestoreArchive(c, s, db, mode).Ok?
    ensures Reads(c, s, m, datas) && m == RestoreArchive(c, s, db, mode).v.manifest
  {
    m := TakeHeader(c, s).v.0;
    RestoreSeparates(c, m.tables, TakeHeader(c, s).v.1, db, mode);
    datas := TakeTables(|m.tables|, TakeHeader(c, s).v.1).datas;
  }

  /** Under MERGE every keyed table of the target keeps the rows the backup does not have,
      takes the backup's shared columns where it has them, and gains the rest. */
  lemma MergeRestores(c: Codec, s: bytes, db: Database, m: Manifest, datas: seq<bytes>, i: nat)
    requires Reads(c, s, m, datas) && RestoreArchive(c, s, db, Merge).Ok?
    requires DistinctTables(m.tables) && i < |m.tables|
    requires var t := At(db, m.tables[i].name); Indexed(t) && Keyed(m.tables[i], t)
    ensures var tm, after := m.tables[i], RestoreArchive(c, s, db, Merge).v.db;
            var p, stg := PlanFor(db[tm.name], tm.ColNames()), Staged(c, tm, datas[i]);
            && tm.name in after
            && (NoRepeats(stg, p.pk) ==> Merged(p, db[tm.name].rows, stg, after[tm.name].rows))
            && (p.sets != [] ==> NoRepeats(stg, p.pk))
  {
    var tm := m.tables[i];
    var p, stg := PlanFor(db[tm.name], tm.ColNames()), Staged(c, tm, datas[i]);
    RestoreIsApply(c, s, db, Merge, m, datas);
    ApplyPointwise(c, m.tables, datas, db, Merge);
    assert EffectAt(c, m.tables, datas, db, Merge, i).Ok?;
    KeyedMerge(c, tm, datas[i], At(db, tm.name));
    UpsertFails(p, db[tm.name].rows, stg);
    if NoRepeats(stg, p.pk) {
      MergeEffect(p, db[tm.name].rows, stg);
    }
  }

  /** A keyed table under FULL_SYNC: the upsert, then the sweep. */
  lemma KeyedSync(c: Codec, tm: TableMeta, data: bytes, t: Option<Table>)
    requires Effect(c, tm, data, t, FullSync).Ok? && Indexed(t) && Keyed(tm, t)
    ensures var p, stg, live := PlanFor(t.value, tm.ColNames()), Staged(c, tm, data), t.value;
            && p.Valid() && p.pk == live.meta.pk && NoRepeats(live.rows, p.pk)
            && Upsert(p, live.rows, stg).Some?
            && var e := Effect(c, tm, data, t, FullSync).v;
               e.Some? && e.value.rows == Sweep(Upsert(p, live.rows, stg).value, stg, p.pk)
  {
    UsedKeyIsWhole(t.value, tm.ColNames());
  }

  /** Under FULL_SYNC every keyed table of the target, whatever the schema drift, ends with
      exactly one row for every row of the backup and no other, provided no key contains
      NULL: the live row of that key with the backup's shared columns, or the backup's row
      with defaults. So its keys are the backup's. */
  lemma FullSyncRestores(c: Codec, s: bytes, db: Database, m: Manifest, datas: seq<bytes>, i: nat)
    requires Reads(c, s, m, datas) && RestoreArchive(c, s, db, FullSync).Ok?
    requires DistinctTables(m.tables) && i < |m.tables|
    requires var t := At(db, m.tables[i].name); Indexed(t) && Keyed(m.tables[i], t)
    requires var tm := m.tables[i];
             var p, stg := PlanFor(db[tm.name], tm.ColNames()), Staged(c, tm, datas[i]);
             NoNulls(db[tm.name].rows, p.pk) && NoNulls(stg, p.pk) && NoRepeats(stg, p.pk)
    ensures var tm, after := m.tables[i], RestoreArchive(c, s, db, FullSync).v.db;
            var p, stg := PlanFor(db[tm.name], tm.ColNames()), Staged(c, tm, datas[i]);
            && tm.name in after
            && multiset(after[tm.name].rows) == multiset(SyncedRows(p, db[tm.name].rows, stg))
            && (forall k :: 0 <= k < |stg| ==> SyncedAs(p, db[tm.name].rows, stg[k], SyncedRows(p, db[tm.name].rows, stg)[k]))
            && (set r | r in after[tm.name].rows :: Key(r, p.pk)) == (set x | x in stg :: Key(x, p.pk))
  {
    var tm := m.tables[i];
    var p, stg := PlanFor(db[tm.name], tm.ColNames()), Staged(c, tm, datas[i]);
    RestoreIsApply(c, s, db, FullSync, m, datas);
    ApplyPointwise(c, m.tables, datas, db, FullSync);
    assert EffectAt(c, m.tables, datas, db, FullSync, i).Ok?;
    KeyedSync(c, tm, datas[i], At(db, tm.name));
    FullSyncRows(p, db[tm.name].rows, stg);
    SyncedMeans(p, db[tm.name].rows, stg);
    FullSyncKeys(p, db[tm.name].rows, stg);
  }

  ghost predicate AllIndexed(db: Database) {
    forall x :: Indexed(At(db, x))
  }

  ghost predicate AllRepeatable(c: Codec, metas: seq<TableMeta>, datas: seq<bytes>, db: Database)
    requires |metas| == |datas|
  {
    forall i :: 0 <= i < |metas| ==> Repeatable(c, metas[i], datas[i], At(db, metas[i].name))
  }

  lemma SameEverywhere(a: Database, b: Database)
    requires forall x :: At(a, x) == At(b, x)
    ensures a == b
  {
    forall x ensures x in a <==> x in b { assert At(a, x) == At(b, x); }
    forall x | x in a ensures a[x] == b[x] { assert At(a, x) == At(b, x); }
  }

  lemma ApplyTwice(c: Codec, metas: seq<TableMeta>, datas: seq<bytes>, db: Database)
    requires |metas| == |datas| && DistinctTables(metas) && AllIndexed(db)
    requires ApplyTables(c, metas, datas, db, Merge).Ok?
    ensures var once := ApplyTables(c, metas, datas, db, Merge).v.0;
            var twice := ApplyTables(c, metas, datas, once, Merge);
            && twice.Ok? && (twice.v.0 == once <==> AllRepeatable(c, metas, datas, db))
  {
    var once := ApplyTables(c, metas, datas, db, Merge).v.0;
    ApplyPointwise(c, metas, datas, db, Merge);
    ApplyPointwise(c, metas, datas, once, Merge);
    forall i | 0 <= i < |metas|
      ensures var e := EffectAt(c, metas, datas, once, Merge, i);
              e.Ok? && (e.v == At(once, metas[i].name) <==> Repeatable(c, metas[i], datas[i], At(db, metas[i].name)))
    {
      assert EffectAt(c, metas, datas, db, Merge, i) == Ok(At(once, metas[i].name));
      MergeTwiceTable(c, metas[i], datas[i], At(db, metas[i].name));
    }
    var twice := ApplyTables(c, metas, datas, once, Merge).v.0;
    if AllRepeatable(c, metas, datas, db) {
      forall x ensures At(twice, x) == At(once, x) {
        if i :| 0 <= i < |metas| && metas[i].name == x {
          assert Repeatable(c, metas[i], datas[i], At(db, metas[i].name));
          assert EffectAt(c, metas, datas, once, Merge, i) == Ok(At(twice, x));
        }
      }
      SameEverywhere(twice, once);
    } else {
      var i :| 0 <= i < |metas| && !Repeatable(c, metas[i], datas[i], At(db, metas[i].name));
      assert EffectAt(c, metas, datas, once, Merge, i) == Ok(At(twice, metas[i].name));
    }
  }

  /** Restoring one archive twice by MERGE: the second restore works, returns the same
      extras, and leaves the database as the first left it if and only if no staged key
      of a keyed table contains NULL. */
  lemma MergeTwice(c: Codec, s: bytes, db: Database) returns (m: Manifest, datas: seq<bytes>)
    requires RestoreArchive(c, s, db, Merge).Ok?
    requires DistinctTables(RestoreArchive(c, s, db, Merge).v.manifest.tables) && AllIndexed(db)
    ensures Reads(c, s, m, datas) && |datas| == |m.tables|
    ensures var once := RestoreArchive(c, s, db, Merge).v;
            var twice := RestoreArchive(c, s, once.db, Merge);
            && twice.Ok? && twice.v.extras == once.extras
            && (twice.v.db == once.db <==> AllRepeatable(c, m.tables, datas, db))
  {
    m, datas := WhatWasRead(c, s, db, Merge);
    RestoreIsApply(c, s, db, Merge, m, datas);
    RestoreIsApply(c, s, RestoreArchive(c, s, db, Merge).v.db, Merge, m, datas);
    ApplyTwice(c, m.tables, datas, db);
  }

  // ------------------------------------------- tables without a key to merge by

  /** The target has no such table (or one without columns). */
  predicate Absent(t: Option<Table>) {
    t.None? || t.value.meta.columns == []
  }

  /** The target's table and the dumped one have these columns in common. */
  ghost predicate Shared(tm: TableMeta, live: Table, x: string) {
    x in tm.ColNames() && x in live.meta.ColNames()
  }

  ghost predicate NothingShared(tm: TableMeta, live: Table) {
    forall x :: !Shared(tm, live, x)
  }

  ghost predicate NoKeyShared(tm: TableMeta, live: Table) {
    forall x :: x in live.meta.pk ==> !Shared(tm, live, x)
  }

  lemma PlanByColumns(tm: TableMeta, live: Table)
    ensures PlanFor(live, tm.ColNames()).cols == [] <==> NothingShared(tm, live)
    ensures PlanFor(live, tm.ColNames()).pk == [] <==> NoKeyShared(tm, live)
  {
    var p, names := PlanFor(live, tm.ColNames()), live.meta.ColNames();
    FilterMembers(tm.ColNames(), x => x in names);
    FilterMembers(live.meta.pk, x => x in p.cols);
    NoMembers(p.cols);
    NoMembers(p.pk);
    assert forall x :: x in p.cols <==> Shared(tm, live, x);
    assert forall x :: x in p.pk <==> x in live.meta.pk && Shared(tm, live, x);
  }

  lemma NoMembers(s: seq<string>)
    ensures s == [] <==> forall x :: x !in s
  {
    if s != [] {
      assert s[0] in s;
    }
  }

  /** What is reported of one table, alone. */
  function ReportOf(c: Codec, tm: TableMeta, data: bytes, t: Option<Table>, mode: Mode): Outcome<TableResult> {
    match ApplyTable(c, tm, data, if t.Some? then map[tm.name := t.value] else map[], mode)
    case Err(f) => Err(f)
    case Ok(a) => Ok(a.result)
  }

  lemma ReportIsLocal(c: Codec, tm: TableMeta, data: bytes, db: Database, mode: Mode)
    requires ApplyTable(c, tm, data, db, mode).Ok?
    ensures ReportOf(c, tm, data, At(db, tm.name), mode) == Ok(ApplyTable(c, tm, data, db, mode).v.result)
  {
  }

  /** The results of a restore are the tables' own, in order. */
  ghost predicate EachReported(c: Codec, metas: seq<TableMeta>, datas: seq<bytes>, db: Database, mode: Mode, results: seq<TableResult>)
    requires |metas| == |datas|
  {
    && |results| == |metas|
    && forall i :: 0 <= i < |metas| ==> ReportOf(c, metas[i], datas[i], At(db, metas[i].name), mode) == Ok(results[i])
  }

  lemma {:induction false} ReportsPointwise(c: Codec, metas: seq<TableMeta>, datas: seq<bytes>, db: Database, mode: Mode)
    requires |metas| == |datas| && DistinctTables(metas) && ApplyTables(c, metas, datas, db, mode).Ok?
    ensures EachReported(c, metas, datas, db, mode, ApplyTables(c, metas, datas, db, mode).v.1)
  {
    if metas != [] {
      var n := |metas| - 1;
      var front, streams := metas[..n], datas[..n];
      ReportsPointwise(c, front, streams, db, mode);
      ApplyPointwise(c, front, streams, db, mode);
      var (before, results) := ApplyTables(c, front, streams, db, mode).v;
      assert At(before, metas[n].name) == At(db, metas[n].name) by {
        assert !Names(front, metas[n].name);
      }
      ReportIsLocal(c, metas[n], datas[n], before, mode);
      forall i | 0 <= i < n ensures ReportOf(c, metas[i], datas[i], At(db, metas[i].name), mode) == Ok(results[i]) {
        assert front[i] == metas[i] && streams[i] == datas[i];
      }
    }
  }

  /** One table of a restore that goes through: what becomes of it and what is said. */
  lemma OneOfMany(c: Codec, s: bytes, db: Database, mode: Mode, m: Manifest, datas: seq<bytes>, i: nat)
    requires Reads(c, s, m, datas) && RestoreArchive(c, s, db, mode).Ok? && DistinctTables(m.tables) && i < |m.tables|
    ensures var r, tm := RestoreArchive(c, s, db, mode).v, m.tables[i];
            && |r.results| == |m.tables|
            && Effect(c, tm, datas[i], At(db, tm.name), mode) == Ok(At(r.db, tm.name))
            && ReportOf(c, tm, datas[i], At(db, tm.name), mode) == Ok(r.results[i])
  {
    RestoreIsApply(c, s, db, mode, m, datas);
    ApplyPointwise(c, m.tables, datas, db, mode);
    ReportsPointwise(c, m.tables, datas, db, mode);
    assert EffectAt(c, m.tables, datas, db, mode, i).Ok?;
    RestoreSeparates(c, m.tables, TakeHeader(c, s).v.1, db, mode);
  }

  lemma SkipAlone(c: Codec, tm: TableMeta, data: bytes, t: Option<Table>, mode: Mode)
    requires Effect(c, tm, data, t, mode).Ok?
    requires Absent(t) || NothingShared(tm, t.value) || (mode == Merge && NoKeyShared(tm, t.value))
    ensures var e, tr := Effect(c, tm, data, t, mode).v, ReportOf(c, tm, data, t, mode);
            if Absent(t) then e == t && tr == Ok(TableResult(tm.name, 0, 0, true, NotPresent))
            else if NothingShared(tm, t.value) then e == t && tr == Ok(TableResult(tm.name, 0, 0, true, NoOverlap))
            else
              && e.Some? && e.value.rows == t.value.rows && e.value.meta == t.value.meta && e.value.defaults == t.value.defaults
              && tr == Ok(TableResult(tm.name, 0, 0, true, NoUsableKey))
  {
    if !Absent(t) {
      PlanByColumns(tm, t.value);
    }
  }

  /** What a restore leaves alone. A listed table that the target does not have, or that
      shares no column with the backup, or, under MERGE, no key column, keeps every row it
      had, and is reported as skipped with the reason. */
  lemma SkippedKeepsRows(c: Codec, s: bytes, db: Database, mode: Mode, m: Manifest, datas: seq<bytes>, i: nat)
    requires Reads(c, s, m, datas) && RestoreArchive(c, s, db, mode).Ok? && DistinctTables(m.tables) && i < |m.tables|
    requires var t := At(db, m.tables[i].name);
             Absent(t) || NothingShared(m.tables[i], t.value) || (mode == Merge && NoKeyShared(m.tables[i], t.value))
    ensures var r, name, t := RestoreArchive(c, s, db, mode).v, m.tables[i].name, At(db, m.tables[i].name);
            && |r.results| == |m.tables|
            && (name in r.db <==> name in db)
            && (name in db ==> r.db[name].rows == db[name].rows)
            && r.results[i] ==
                 TableResult(name, 0, 0, true, if Absent(t) then NotPresent else if NothingShared(m.tables[i], t.value) then NoOverlap else NoUsableKey)
  {
    OneOfMany(c, s, db, mode, m, datas, i);
    SkipAlone(c, m.tables[i], datas[i], At(db, m.tables[i].name), mode);
  }

  lemma KeylessAlone(c: Codec, tm: TableMeta, data: bytes, t: Option<Table>)
    requires Effect(c, tm, data, t, FullSync).Ok? && !Absent(t) && !NothingShared(tm, t.value) && NoKeyShared(tm, t.value)
    ensures var e, p, stg := Effect(c, tm, data, t, FullSync).v, PlanFor(t.value, tm.ColNames()), Staged(c, tm, data);
            && e.Some? && |e.value.rows| == |stg|
            && (forall k :: 0 <= k < |stg| ==> InsertedAs(p, stg[k], e.value.rows[k]))
            && ReportOf(c, tm, data, t, FullSync) == Ok(TableResult(tm.name, |stg|, 0, false, NoNote))
  {
    PlanByColumns(tm, t.value);
    var p, stg := PlanFor(t.value, tm.ColNames()), Staged(c, tm, data);
    forall k | 0 <= k < |stg| ensures InsertedAs(p, stg[k], InsertAll(p, stg)[k]) {
      InsertedMeans(p, stg[k], InsertAll(p, stg)[k]);
    }
  }

  /** FULL_SYNC of a table whose key is not shared, under any schema drift, replaces its
      rows: one for each row of the backup, with the backup's values in the shared columns
      and the defaults in the others. */
  lemma KeylessReplaced(c: Codec, s: bytes, db: Database, m: Manifest, datas: seq<bytes>, i: nat)
    requires Reads(c, s, m, datas) && RestoreArchive(c, s, db, FullSync).Ok? && DistinctTables(m.tables) && i < |m.tables|
    requires var t := At(db, m.tables[i].name);
             !Absent(t) && !NothingShared(m.tables[i], t.value) && NoKeyShared(m.tables[i], t.value)
    ensures var r, tm := RestoreArchive(c, s, db, FullSync).v, m.tables[i];
            var p, stg := PlanFor(db[tm.name], tm.ColNames()), Staged(c, tm, datas[i]);
            && |r.results| == |m.tables|
            && tm.name in r.db && |r.db[tm.name].rows| == |stg|
            && (forall k :: 0 <= k < |stg| ==> InsertedAs(p, stg[k], r.db[tm.name].rows[k]))
            && r.results[i] == TableResult(tm.name, |stg|, 0, false, NoNote)
  {
    OneOfMany(c, s, db, FullSync, m, datas, i);
    KeylessAlone(c, m.tables[i], datas[i], At(db, m.tables[i].name));
  }

  // -------------------------------------------------- success and the report

  /** The statements for this table go through: the dumped columns make a staging table,
      every line loads, and the merge finds the unique index it names and no row twice. */
  ghost predicate Works(c: Codec, tm: TableMeta, data: bytes, t: Option<Table>, mode: Mode) {
    Absent(t) ||
    (&& tm.columns != [] && Distinct(tm.ColNames())
     && Load(c, tm.ColNames(), Lines(data)).Some?
     && (NothingShared(tm, t.value) ||
         var p, stg := PlanFor(t.value, tm.ColNames()), Staged(c, tm, data);
         if NoKeyShared(tm, t.value) then mode == Merge || KeyHolds(InsertAll(p, stg), t.value.meta.pk)
         else
           && (forall x :: x in t.value.meta.pk ==> Shared(tm, t.value, x))
           && (NoRepeats(stg, p.pk) || forall x :: Shared(tm, t.value, x) ==> x in t.value.meta.pk)))
  }

  lemma WorksMeans(c: Codec, tm: TableMeta, data: bytes, t: Option<Table>, mode: Mode)
    requires Indexed(t)
    ensures Effect(c, tm, data, t, mode).Ok? <==> Works(c, tm, data, t, mode)
  {
    if !Absent(t) {
      var p := PlanFor(t.value, tm.ColNames());
      assert (p.cols == [] <==> NothingShared(tm, t.value)) && (p.pk == [] <==> NoKeyShared(tm, t.value)) by {
        PlanByColumns(tm, t.value);
      }
      if p.cols != [] && p.pk != [] {
        KeyedWorks(tm, t.value, Staged(c, tm, data), mode, TableResult(tm.name, 0, 0, false, NoNote));
      }
    }
  }

  lemma KeyedWorks(tm: TableMeta, live: Table, stg: seq<Row>, mode: Mode, tr: TableResult)
    requires KeyHolds(live.rows, live.meta.pk) && PlanFor(live, tm.ColNames()).pk != []
    ensures var p := PlanFor(live, tm.ColNames());
            MergeTable(live, p, stg, mode, tr).Some? <==>
              && (forall x :: x in live.meta.pk ==> Shared(tm, live, x))
              && (NoRepeats(stg, p.pk) || forall x :: Shared(tm, live, x) ==> x in live.meta.pk)
  {
    var p := PlanFor(live, tm.ColNames());
    PlanMembers(tm, live);
    if forall x :: x in live.meta.pk ==> x in p.pk {
      UsedKeyIsWhole(live, tm.ColNames());
      UpsertFails(p, live.rows, stg);
    }
  }

  lemma PlanMembers(tm: TableMeta, live: Table)
    ensures var p := PlanFor(live, tm.ColNames());
            && (forall x :: x in p.pk <==> x in live.meta.pk && Shared(tm, live, x))
            && (p.sets == [] <==> forall x :: Shared(tm, live, x) ==> x in live.meta.pk)
  {
    var p, names := PlanFor(live, tm.ColNames()), live.meta.ColNames();
    FilterMembers(tm.ColNames(), x => x in names);
    FilterMembers(live.meta.pk, x => x in p.cols);
    FilterMembers(p.cols, x => x !in p.pk);
    NoMembers(p.sets);
    assert forall x :: x in p.sets <==> Shared(tm, live, x) && x !in live.meta.pk;
  }

  /** Restore succeeds on an archive it can read exactly when every table works. */
  lemma RestoreWorks(c: Codec, s: bytes, db: Database, mode: Mode, m: Manifest, datas: seq<bytes>)
    requires Reads(c, s, m, datas) && DistinctTables(m.tables) && AllIndexed(db)
    ensures |datas| == |m.tables|
    ensures RestoreArchive(c, s, db, mode).Ok? <==>
              forall i :: 0 <= i < |m.tables| ==> Works(c, m.tables[i], datas[i], At(db, m.tables[i].name), mode)
  {
    RestoreIsApply(c, s, db, mode, m, datas);
    ApplyPointwise(c, m.tables, datas, db, mode);
    forall i | 0 <= i < |m.tables|
      ensures EffectAt(c, m.tables, datas, db, mode, i).Ok? <==> Works(c, m.tables[i], datas[i], At(db, m.tables[i].name), mode)
    {
      WorksMeans(c, m.tables[i], datas[i], At(db, m.tables[i].name), mode);
    }
  }

  /** The live rows whose key is definitely not in the backup. */
  function Surplus(rows: seq<Row>, stg: seq<Row>, pk: seq<string>): nat {
    |Filter(rows, r => !Spared(r, stg, pk))|
  }

  /** The report agrees with what became of the rows. */
  ghost predicate Reported(p: Plan, tr: TableResult, mode: Mode, before: seq<Row>, stg: seq<Row>, after: seq<Row>) {
    && !tr.skipped && tr.note == NoNote
    && tr.deleted == (if mode == FullSync then Surplus(before, stg, p.pk) else 0)
    && (if p.sets != [] then tr.rows == |stg| else |before| + tr.rows == |after| + tr.deleted)
  }

  lemma MergeReported(live: Table, p: Plan, stg: seq<Row>, mode: Mode, tr: TableResult)
    requires p.Valid() && NoRepeats(live.rows, p.pk) && NoRepeats(stg, p.pk)
    requires tr.note == NoNote && !tr.skipped && tr.deleted == 0
    requires MergeTable(live, p, stg, mode, tr).Some?
    ensures var (rows, done) := MergeTable(live, p, stg, mode, tr).value;
            Reported(p, done, mode, live.rows, stg, rows) && done.table == tr.table
  {
    DeletedCount(p, live.rows, stg);
  }

  lemma KeyedReport(c: Codec, tm: TableMeta, data: bytes, live: Table, mode: Mode)
    requires Effect(c, tm, data, Some(live), mode).Ok? && Indexed(Some(live)) && Keyed(tm, Some(live))
    requires NoRepeats(Staged(c, tm, data), PlanFor(live, tm.ColNames()).pk)
    ensures var e, tr := Effect(c, tm, data, Some(live), mode).v, ReportOf(c, tm, data, Some(live), mode);
            && e.Some? && tr.Ok? && tr.v.table == tm.name
            && Reported(PlanFor(live, tm.ColNames()), tr.v, mode, live.rows, Staged(c, tm, data), e.value.rows)
  {
    UsedKeyIsWhole(live, tm.ColNames());
    MergeReported(live, PlanFor(live, tm.ColNames()), Staged(c, tm, data), mode, TableResult(tm.name, 0, 0, false, NoNote));
  }

  /** What is reported of a keyed table: as rows, all staged rows, or those inserted when
      there is nothing to update; as deleted, under FULL_SYNC, the live rows whose key is
      definitely not in the backup. */
  lemma ReportsCount(c: Codec, s: bytes, db: Database, mode: Mode, m: Manifest, datas: seq<bytes>, i: nat)
    requires Reads(c, s, m, datas) && RestoreArchive(c, s, db, mode).Ok? && DistinctTables(m.tables) && i < |m.tables|
    requires var t := At(db, m.tables[i].name); Indexed(t) && Keyed(m.tables[i], t)
    requires NoRepeats(Staged(c, m.tables[i], datas[i]), PlanFor(db[m.tables[i].name], m.tables[i].ColNames()).pk)
    ensures var r, tm := RestoreArchive(c, s, db, mode).v, m.tables[i];
            && |r.results| == |m.tables| && tm.name in r.db && r.results[i].table == tm.name
            && Reported(PlanFor(db[tm.name], tm.ColNames()), r.results[i], mode, db[tm.name].rows, Staged(c, tm, datas[i]), r.db[tm.name].rows)
  {
    OneOfMany(c, s, db, mode, m, datas, i);
    KeyedReport(c, m.tables[i], datas[i], db[m.tables[i].name], mode);
  }

  // ------------------------------------------------------- an archive cut short

  lemma {:induction false} SweepByNothing(now: seq<Row>, pk: seq<string>)
    ensures Sweep(now, [], pk) == []
  {
    if now != [] {
      SweepByNothing(now[1..], pk);
    }
  }

  /** FULL_SYNC from an empty stream leaves a table empty. */
  lemma EmptyStreamEmpties(c: Codec, tm: TableMeta, t: Option<Table>)
    requires Effect(c, tm, [], t, FullSync).Ok?
    requires Overlaps(tm, t)
    ensures var e := Effect(c, tm, [], t, FullSync); e.v.Some? && e.v.value.rows == []
  {
    var live, p := t.value, PlanFor(t.value, tm.ColNames());
    assert Lines([]) == [];
    SweepByNothing(live.rows, p.pk);
  }

  /** An archive without extras, cut at a seam, restored in FULL_SYNC mode: when the restore
      goes through, every table whose stream starts after the cut is committed empty. */
  lemma CutDeletes(c: Codec, m: Manifest, writes: seq<seq<bytes>>, cut: nat, db: Database, after: Database)
    requires Cuttable(c, m, writes, cut)
    requires DistinctTables(m.tables) && CommitsTo(c, ArchiveBytes(c, m, writes, [])[..cut], db, FullSync, after)
    ensures LaterTablesEmpty(m.tables, writes, cut - |Header(c, m)|, db, after)
  {
    CutApplies(c, m, writes, cut, db, after);
    CutEmpties(c, m.tables, writes, cut - |Header(c, m)|, db, after);
  }

  /** Every table of the target whose stream begins beyond the cut is empty. */
  ghost predicate LaterTablesEmpty(metas: seq<TableMeta>, writes: seq<seq<bytes>>, cut: int, db: Database, after: Database)
    requires |metas| == |writes|
  {
    forall i :: 0 <= i < |metas| && StartsAfter(writes, i, cut) && Overlaps(metas[i], At(db, metas[i].name)) ==>
      metas[i].name in after && after[metas[i].name].rows == []
  }

  lemma CutEmpties(c: Codec, metas: seq<TableMeta>, writes: seq<seq<bytes>>, cut: nat, db: Database, after: Database)
    requires |metas| == |writes| && DistinctTables(metas)
    requires AppliesTo(c, metas, Contents(CutWrites(writes, cut)), db, FullSync, after)
    ensures LaterTablesEmpty(metas, writes, cut, db, after)
  {
    forall i | 0 <= i < |metas| && StartsAfter(writes, i, cut) && Overlaps(metas[i], At(db, metas[i].name))
      ensures metas[i].name in after && after[metas[i].name].rows == []
    {
      LaterTableEmpty(c, metas, writes, cut, db, after, i);
    }
  }

  lemma LaterTableEmpty(c: Codec, metas: seq<TableMeta>, writes: seq<seq<bytes>>, cut: nat, db: Database, after: Database, i: nat)
    requires |metas| == |writes| && DistinctTables(metas) && i < |metas| && StartsAfter(writes, i, cut)
    requires AppliesTo(c, metas, Contents(CutWrites(writes, cut)), db, FullSync, after)
    requires Overlaps(metas[i], At(db, metas[i].name))
    ensures metas[i].name in after && after[metas[i].name].rows == []
  {
    NothingAfterCut(writes, cut, i);
    EmptyTableEmptied(c, metas, Contents(CutWrites(writes, cut)), db, after, i);
  }

  /** Restore goes through and leaves the database like this. */
  ghost predicate CommitsTo(c: Codec, s: bytes, db: Database, mode: Mode, after: Database) {
    var r := RestoreArchive(c, s, db, mode);
    r.Ok? && r.v.db == after
  }

  ghost predicate AppliesTo(c: Codec, metas: seq<TableMeta>, datas: seq<bytes>, db: Database, mode: Mode, after: Database)
    requires |metas| == |datas|
  {
    var a := ApplyTables(c, metas, datas, db, mode);
    a.Ok? && a.v.0 == after
  }

  /** The i-th table's stream begins beyond this place in the table section. */
  ghost predicate StartsAfter(writes: seq<seq<bytes>>, i: nat, cut: int)
    requires i <= |writes|
  {
    cut < |FramedAll(writes[..i])|
  }

  lemma EmptyTableEmptied(c: Codec, metas: seq<TableMeta>, datas: seq<bytes>, db: Database, after: Database, i: nat)
    requires |metas| == |datas| && DistinctTables(metas) && i < |metas| && datas[i] == []
    requires AppliesTo(c, metas, datas, db, FullSync, after)
    requires Overlaps(metas[i], At(db, metas[i].name))
    ensures metas[i].name in after && after[metas[i].name].rows == []
  {
    ApplyPointwise(c, metas, datas, db, FullSync);
    assert EffectAt(c, metas, datas, db, FullSync, i) == Ok(At(after, metas[i].name));
    EmptyStreamEmpties(c, metas[i], At(db, metas[i].name));
  }

  lemma CutApplies(c: Codec, m: Manifest, writes: seq<seq<bytes>>, cut: nat, db: Database, after: Database)
    requires Cuttable(c, m, writes, cut)
    requires CommitsTo(c, ArchiveBytes(c, m, writes, [])[..cut], db, FullSync, after)
    ensures cut >= |Header(c, m)|
    ensures AppliesTo(c, m.tables, Contents(CutWrites(writes, cut - |Header(c, m)|)), db, FullSync, after)
  {
    TruncatedWithoutExtras(c, m, writes, cut, db, FullSync);
  }

  lemma {:induction false} NothingAfterCut(writes: seq<seq<bytes>>, cut: nat, i: nat)
    requires i < |writes| && StartsAfter(writes, i, cut)
    ensures CutWrites(writes, cut)[i] == []
  {
    var n := |writes| - 1;
    var front := writes[..n];
    assert cut < |FramedAll(front)| by {
      assert front[..i] == writes[..i];
      FramedAllGrows(front, i);
    }
    assert CutWrites(writes, cut) == CutWrites(front, cut) + [[]];
    if i < n {
      assert front[..i] == writes[..i];
      NothingAfterCut(front, cut, i);
    }
  }

  lemma {:induction false} FramedAllGrows(writes: seq<seq<bytes>>, i: nat)
    requires i <= |writes|
    ensures |FramedAll(writes[..i])| <= |FramedAll(writes)|
  {
    if i == |writes| {
      assert writes[..i] == writes;
    } else {
      var n := |writes| - 1;
      assert writes[..n][..i] == writes[..i];
      FramedAllGrows(writes[..n], i);
    }
  }

  /** An empty stream can be restored into this table. */
  predicate TakesNothing(tm: TableMeta, t: Option<Table>) {
    t.Some? && t.value.meta.columns != [] ==>
      && Stageable(tm)
      && var p := PlanFor(t.value, tm.ColNames());
         p.cols == [] || p.pk == [] || forall x :: x in t.value.meta.pk ==> x in p.pk
  }

  lemma EmptyStreamWorks(c: Codec, tm: TableMeta, t: Option<Table>)
    ensures Effect(c, tm, [], t, FullSync).Ok? <==> TakesNothing(tm, t)
  {
    assert Lines([]) == [];
  }

  lemma {:induction false} NothingBeforeFirst(writes: seq<seq<bytes>>)
    ensures TableSeam(writes, 0)
    ensures forall i :: 0 <= i < |writes| ==> Contents(CutWrites(writes, 0))[i] == []
  {
    if writes != [] {
      var front, last := writes[..|writes| - 1], writes[|writes| - 1];
      NothingBeforeFirst(front);
      NothingDelivered(last);
      if front == [] {
        assert CutWrites(writes, 0) == [] + [Delivered(last, 0)];
      } else {
        FramedNotEmpty(front[|front| - 1]);
        assert CutWrites(writes, 0) == CutWrites(front, 0) + [[]];
        ContentsAppend(CutWrites(front, 0), []);
      }
    }
  }

  lemma {:induction false} NothingDelivered(pieces: seq<bytes>)
    ensures Seam(pieces, 0) && Flatten(Delivered(pieces, 0)) == []
  {
    if pieces != [] && pieces[0] == [] {
      NothingDelivered(pieces[1..]);
      assert Delivered(pieces, 0)[1..] == Delivered(pieces[1..], 0);
    }
  }

  lemma {:induction false} FramedNotEmpty(pieces: seq<bytes>)
    ensures |Framed(pieces)| >= 4
  {
    if pieces != [] { FramedNotEmpty(pieces[1..]); }
  }

  /** The worst cut, right behind the header: FULL_SYNC accepts it, and so empties every
      table that shares a column with the backup, if and only if every table can be staged
      and has its key among the shared columns. */
  lemma CutAfterHeader(c: Codec, m: Manifest, writes: seq<seq<bytes>>, db: Database)
    requires Cuttable(c, m, writes, |Header(c, m)|) && DistinctTables(m.tables)
    ensures RestoreArchive(c, ArchiveBytes(c, m, writes, [])[..|Header(c, m)|], db, FullSync).Ok? <==>
              forall i :: 0 <= i < |m.tables| ==> TakesNothing(m.tables[i], At(db, m.tables[i].name))
  {
    var datas := Contents(CutWrites(writes, 0));
    NothingBeforeFirst(writes);
    TruncatedWithoutExtras(c, m, writes, |Header(c, m)|, db, FullSync);
    ApplyPointwise(c, m.tables, datas, db, FullSync);
    forall i | 0 <= i < |m.tables|
      ensures EffectAt(c, m.tables, datas, db, FullSync, i).Ok? <==> TakesNothing(m.tables[i], At(db, m.tables[i].name))
    {
      EmptyStreamWorks(c, m.tables[i], At(db, m.tables[i].name));
    }
  }
}
