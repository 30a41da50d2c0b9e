/** Dump, then Restore in FULL_SYNC mode: the target's tables become the dumped ones. */
module DumpRestore {
  import opened Bytes
  import opened Seqs
  import opened Frame
  import opened Tables
  import opened Restore
  import opened Archive

  /** A table as PostgreSQL holds it: distinct columns, a key among them, full rows,
      and the unique index intact. */
  ghost predicate ValidTable(t: Table) {
    var names := t.meta.ColNames();
    && names != [] && Distinct(names)
    && ToSet(t.meta.pk) <= ToSet(names)
    && (forall i :: 0 <= i < |t.rows| ==> t.rows[i].Keys == ToSet(names))
    && KeyHolds(t.rows, t.meta.pk)
  }

  ghost predicate NoNullKeys(t: Table) {
    forall r :: r in t.rows ==> Null !in Key(r, t.meta.pk)
  }

  lemma SameSchemaPlan(live: Table)
    requires ValidTable(live)
    ensures var p := PlanFor(live, live.meta.ColNames());
            && p.cols == p.names == live.meta.ColNames() && p.pk == live.meta.pk
            && (p.pk != [] ==> p.Valid())
  {
    var names := live.meta.ColNames();
    FilterAll(names, x => x in names);
    forall x | x in live.meta.pk ensures x in names {
      assert x in ToSet(live.meta.pk);
      assert x in ToSet(names);
    }
    var cols := Filter(names, x => x in names);
    FilterAll(live.meta.pk, x => x in cols);
    PlanPartitions(live, names);
  }

  lemma InsertAllIsIdentity(p: Plan, stg: seq<Row>)
    requires p.cols == p.names
    requires forall i :: 0 <= i < |stg| ==> stg[i].Keys == ToSet(p.names)
    ensures InsertAll(p, stg) == stg
  {
    forall i | 0 <= i < |stg| ensures p.Inserted(stg[i]) == stg[i] {
      assert forall x :: x in p.names <==> x in ToSet(p.names);
    }
  }

  /** Every row the merge may leave in a full-schema table is a live row or a staged one. */
  lemma FullMergeRows(p: Plan, rows: seq<Row>, stg: seq<Row>)
    requires p.Valid() && NoRepeats(rows, p.pk) && NoRepeats(stg, p.pk)
    requires FullColumns(p, rows) && FullColumns(p, stg)
    ensures Upsert(p, rows, stg).Some?
    ensures forall r :: r in Upsert(p, rows, stg).value ==> r.Keys == ToSet(p.names)
  {
  }

  lemma KeyedFullSync(p: Plan, rows: seq<Row>, stg: seq<Row>)
    requires p.Valid() && NoRepeats(rows, p.pk) && NoRepeats(stg, p.pk)
    requires FullColumns(p, rows) && FullColumns(p, stg)
    ensures Upsert(p, rows, stg).Some?
    ensures var after := Sweep(Upsert(p, rows, stg).value, stg, p.pk);
            && NoRepeats(after, p.pk)
            && (forall i :: 0 <= i < |after| ==> after[i].Keys == ToSet(p.names))
            && (multiset(after) == multiset(stg) <==> forall r :: r in rows ==> !Ambiguous(r, stg, p.pk))
  {
    assert Upsert(p, rows, stg).Some? by { FullSyncExact(p, rows, stg); }
    var now := Upsert(p, rows, stg).value;
    var after := Sweep(now, stg, p.pk);
    assert multiset(after) == multiset(stg) <==> forall r :: r in rows ==> !Ambiguous(r, stg, p.pk) by {
      FullSyncExact(p, rows, stg);
    }
    assert NoRepeats(now, p.pk) by { UpsertKeys(p, rows, stg); }
    SweepKeepsKey(now, stg, p.pk);
    forall i | 0 <= i < |after| ensures after[i].Keys == ToSet(p.names) {
      assert after[i] in after;
      FullMergeRows(p, rows, stg);
    }
  }

  /** The merge step on equal schemas: always succeeds, keeps the table valid, and
      makes it equal to the backup exactly when no live row is ambiguous. */
  lemma FullSyncTable(live: Table, stg: seq<Row>, tr: TableResult)
    requires ValidTable(live) && ValidTable(live.(rows := stg))
    ensures var p := PlanFor(live, live.meta.ColNames());
            var m := MergeTable(live, p, stg, FullSync, tr);
            && m.Some?
            && ValidTable(live.(rows := m.value.0))
            && (multiset(m.value.0) == multiset(stg) <==>
                  live.meta.pk == [] || forall r :: r in live.rows ==> !Ambiguous(r, stg, live.meta.pk))
  {
    SameSchemaPlan(live);
    var p := PlanFor(live, live.meta.ColNames());
    if p.pk == [] {
      InsertAllIsIdentity(p, stg);
    } else {
      KeyedFullSync(p, live.rows, stg);
    }
  }

  /** One dumped table against a target table with the same schema. */
  lemma ApplyDumpedTable(c: Codec, src: Table, db: Database, data: bytes)
    requires c.Lawful() && ValidTable(src)
    requires src.meta.name in db && db[src.meta.name].meta == src.meta && ValidTable(db[src.meta.name])
    requires data == CopyText(c, src.meta.ColNames(), src.rows)
    ensures var name := src.meta.name;
            var a := ApplyTable(c, src.meta, data, db, FullSync);
            && a.Ok? && name in a.v.db
            && a.v.db == db[name := a.v.db[name]]
            && a.v.db[name].meta == src.meta && ValidTable(a.v.db[name])
            && (multiset(a.v.db[name].rows) == multiset(src.rows) <==>
                  src.meta.pk == [] || forall r :: r in db[name].rows ==> !Ambiguous(r, src.rows, src.meta.pk))
  {
    var live := db[src.meta.name];
    LoadInvertsCopy(c, src.meta.ColNames(), src.rows);
    SameSchemaPlan(live);
    FullSyncTable(live, src.rows, TableResult(src.meta.name, 0, 0, false, NoNote));
  }

  /** Source and target hold the table with the same schema and whole keys. */
  ghost predicate ReadyTable(src: Database, db: Database, tm: TableMeta) {
    && tm.name in src && tm.name in db
    && src[tm.name].meta == tm && db[tm.name].meta == tm
    && ValidTable(src[tm.name]) && ValidTable(db[tm.name])
    && NoNullKeys(src[tm.name]) && NoNullKeys(db[tm.name])
  }

  ghost predicate Ready(src: Database, db: Database, metas: seq<TableMeta>) {
    forall tm {:trigger ReadyTable(src, db, tm)} :: tm in metas ==> ReadyTable(src, db, tm)
  }

  ghost predicate SameRows(src: Database, db: Database, name: string) {
    name in src && name in db && multiset(src[name].rows) == multiset(db[name].rows)
  }

  /** One table became src's; the rest of the database is as before. */
  ghost predicate OneSynced(src: Database, before: Database, after: Database, tm: TableMeta) {
    && tm.name in after && after == before[tm.name := after[tm.name]]
    && after[tm.name].meta == tm && ValidTable(after[tm.name]) && NoNullKeys(after[tm.name])
    && SameRows(src, after, tm.name)
  }

  lemma WholeKeysSync(c: Codec, src: Database, tm: TableMeta, db: Database, data: bytes)
    requires c.Lawful() && ReadyTable(src, db, tm) && data == CopyText(c, tm.ColNames(), src[tm.name].rows)
    ensures var a := ApplyTable(c, tm, data, db, FullSync); a.Ok? && OneSynced(src, db, a.v.db, tm)
  {
    var name, t := tm.name, src[tm.name];
    ApplyDumpedTable(c, t, db, data);
    forall r | r in db[name].rows ensures !Ambiguous(r, t.rows, t.meta.pk) {
      if Ambiguous(r, t.rows, t.meta.pk) {
        NullsMakeAmbiguous(r, t.rows, t.meta.pk);
        assert false;
      }
    }
    var after := ApplyTable(c, tm, data, db, FullSync).v.db[name];
    forall r | r in after.rows ensures Null !in Key(r, after.meta.pk) {
      assert r in multiset(after.rows);
    }
  }

  ghost predicate Carried(c: Codec, src: Database, metas: seq<TableMeta>, datas: seq<bytes>) {
    |metas| == |datas| && forall i :: 0 <= i < |metas| ==>
      metas[i].name in src && datas[i] == CopyText(c, metas[i].ColNames(), src[metas[i].name].rows)
  }

  function TableNames(metas: seq<TableMeta>): set<string> {
    set tm | tm in metas :: tm.name
  }

  /** What restoring the listed tables does to a database. */
  ghost predicate Synced(src: Database, before: Database, after: Database, metas: seq<TableMeta>) {
    && (forall name {:trigger SameRows(src, after, name)} :: name in TableNames(metas) ==> SameRows(src, after, name))
    && after.Keys == before.Keys
    && forall name :: name in before && name !in TableNames(metas) ==> after[name] == before[name]
  }

  lemma SyncedOneMore(src: Database, db: Database, before: Database, after: Database, front: seq<TableMeta>, last: TableMeta)
    requires Synced(src, db, before, front) && OneSynced(src, before, after, last) && last.name in before
    ensures Synced(src, db, after, front + [last])
  {
    var names := TableNames(front + [last]);
    assert names == TableNames(front) + {last.name};
    forall name | name in names ensures SameRows(src, after, name) {
      assert name != last.name ==> SameRows(src, before, name);
    }
  }

  lemma ReadyOneMore(src: Database, before: Database, after: Database, last: TableMeta, all: seq<TableMeta>)
    requires Ready(src, before, all) && last in all && OneSynced(src, before, after, last)
    ensures Ready(src, after, all)
  {
    assert ReadyTable(src, before, last);
    forall tm | tm in all ensures ReadyTable(src, after, tm) {
      assert ReadyTable(src, before, tm);
    }
  }

  lemma NextTable(c: Codec, src: Database, db: Database, before: Database, front: seq<TableMeta>, last: TableMeta, all: seq<TableMeta>, data: bytes)
    requires c.Lawful() && Ready(src, before, all) && last in all && Synced(src, db, before, front)
    requires last.name in src && data == CopyText(c, last.ColNames(), src[last.name].rows)
    ensures var a := ApplyTable(c, last, data, before, FullSync);
            a.Ok? && Ready(src, a.v.db, all) && Synced(src, db, a.v.db, front + [last])
  {
    assert ReadyTable(src, before, last);
    var a := ApplyTable(c, last, data, before, FullSync);
    assert a.Ok? && OneSynced(src, before, a.v.db, last) by { WholeKeysSync(c, src, last, before, data); }
    assert Ready(src, a.v.db, all) by { ReadyOneMore(src, before, a.v.db, last, all); }
    assert Synced(src, db, a.v.db, front + [last]) by { SyncedOneMore(src, db, before, a.v.db, front, last); }
  }

  lemma LastTable(c: Codec, metas: seq<TableMeta>, datas: seq<bytes>, n: nat, db: Database)
    requires n < |metas| == |datas| && ApplyTables(c, metas[..n], datas[..n], db, FullSync).Ok?
    ensures var before := ApplyTables(c, metas[..n], datas[..n], db, FullSync).v.0;
            var a := ApplyTable(c, metas[n], datas[n], before, FullSync);
            var all := ApplyTables(c, metas[..n + 1], datas[..n + 1], db, FullSync);
            a.Ok? ==> all.Ok? && all.v.0 == a.v.db
  {
    assert metas[..n + 1][..n] == metas[..n] && datas[..n + 1][..n] == datas[..n];
  }

  /** The first n tables are restored and the database is ready for any of the others. */
  ghost predicate TablesRestored(c: Codec, src: Database, db: Database, all: seq<TableMeta>, datas: seq<bytes>, n: nat)
    requires n <= |all| == |datas|
  {
    var a := ApplyTables(c, all[..n], datas[..n], db, FullSync);
    a.Ok? && Ready(src, a.v.0, all) && Synced(src, db, a.v.0, all[..n])
  }

  lemma TablesRestoredOneMore(c: Codec, src: Database, db: Database, all: seq<TableMeta>, datas: seq<bytes>, n: nat)
    requires c.Lawful() && Carried(c, src, all, datas) && n < |all| && TablesRestored(c, src, db, all, datas, n)
    ensures TablesRestored(c, src, db, all, datas, n + 1)
  {
    var before := ApplyTables(c, all[..n], datas[..n], db, FullSync).v.0;
    NextTable(c, src, db, before, all[..n], all[n], all, datas[n]);
    assert all[..n + 1] == all[..n] + [all[n]];
    LastTable(c, all, datas, n, db);
  }

  /** The first n tables in turn; a table listed twice is simply restored twice. */
  lemma {:induction false} ApplyDumpedTables(c: Codec, src: Database, db: Database, all: seq<TableMeta>, datas: seq<bytes>, n: nat)
    requires c.Lawful() && Ready(src, db, all) && Carried(c, src, all, datas) && n <= |all|
    ensures TablesRestored(c, src, db, all, datas, n)
    decreases n
  {
    if n > 0 {
      ApplyDumpedTables(c, src, db, all, datas, n - 1);
      TablesRestoredOneMore(c, src, db, all, datas, n - 1);
    }
  }

  /** The law the engine is for. Whatever rows the target held, restoring a dump in
      FULL_SYNC mode leaves every dumped table with exactly the dumped rows, every
      other table alone, and hands back the same extras. The COPY stream may have
      arrived in any pieces; every framed block must be within maxBlock. */
  lemma DumpThenFullSync(c: Codec, src: Database, dst: Database, m: Manifest, writes: seq<seq<bytes>>, extras: Extras, tail: bytes)
    requires c.Lawful() && Ready(src, dst, m.tables)
    requires Carried(c, src, m.tables, Contents(writes))
    requires ToSet(m.extras) == extras.Keys
    requires |c.marshal(m)| <= MAX_BLOCK && AllFit(writes)
    requires forall x :: x in extras ==> |extras[x]| <= MAX_BLOCK
    ensures var r := RestoreArchive(c, ArchiveBytes(c, m, writes, BlobsOf(m.extras, extras)) + tail, dst, FullSync);
            r.Ok? && Synced(src, dst, r.v.db, m.tables) && r.v.extras == extras && r.v.manifest == m && r.v.rest == tail
  {
    var bs := BlobsOf(m.extras, extras);
    var s2 := Blocks(bs) + tail;
    var s1 := FramedAll(writes) + s2;
    assert TakeHeader(c, ArchiveBytes(c, m, writes, bs) + tail) == Ok((m, s1)) by {
      HeaderOfArchive(c, m, writes, bs, tail);
    }
    var r := RestoreTables(c, m.tables, s1, dst, FullSync);
    assert r.Ok? && Synced(src, dst, r.v.db, m.tables) && r.v.rest == s2 by {
      TablesRoundTrip(writes, s2);
      var n := |m.tables|;
      ApplyDumpedTables(c, src, dst, m.tables, Contents(writes), n);
      assert m.tables[..n] == m.tables && Contents(writes)[..n] == Contents(writes);
      RestoreSeparates(c, m.tables, s1, dst, FullSync);
    }
    assert TakeExtras(m.extras, s2) == Ok((extras, tail)) by {
      AllExtras(m.extras, extras, tail);
    }
  }

  /** What a table to be dumped needs: its COPY stream, in pieces of any size, and a target
      table with the same schema and whole keys. */
  ghost predicate Dumpable(c: Codec, src: Database, dst: Database, copyOut: string -> seq<bytes>, t: string) {
    && t in src && src[t].meta.name == t && ReadyTable(src, dst, src[t].meta)
    && LengthsFit(copyOut(t)) && Flatten(copyOut(t)) == CopyText(c, src[t].meta.ColNames(), src[t].rows)
  }

  lemma DumpedIsReady(c: Codec, src: Database, dst: Database, m: Manifest, names: seq<string>, copyOut: string -> seq<bytes>)
    requires Describes(m.tables, src, names)
    requires forall t :: t in names && t in src ==> Dumpable(c, src, dst, copyOut, t)
    ensures Ready(src, dst, m.tables) && Carried(c, src, m.tables, Contents(WritesOf(m, copyOut))) && AllLengthsFit(WritesOf(m, copyOut))
  {
    forall i | 0 <= i < |names|
      ensures m.tables[i] == src[names[i]].meta && m.tables[i].name == names[i] && Dumpable(c, src, dst, copyOut, names[i])
    {
      assert names[i] in names && Present(src, names[i]);
    }
    forall tm | tm in m.tables ensures ReadyTable(src, dst, tm) {
      var i :| 0 <= i < |m.tables| && m.tables[i] == tm;
      assert Dumpable(c, src, dst, copyOut, names[i]);
    }
  }

  /** What restoring the bytes of a dump gives: everything, if every framed piece is within
      maxBlock, and otherwise an error. */
  lemma RestoreOfDump(c: Codec, src: Database, dst: Database, m: Manifest, names: seq<string>, extras: Extras, copyOut: string -> seq<bytes>)
    requires c.Lawful() && Describes(m.tables, src, names) && ToSet(m.extras) == extras.Keys
    requires forall t :: t in names && t in src ==> Dumpable(c, src, dst, copyOut, t)
    requires |c.marshal(m)| < TWO_32 && forall x :: x in extras ==> |extras[x]| < TWO_32
    ensures var r := RestoreArchive(c, ArchiveBytes(c, m, WritesOf(m, copyOut), BlobsOf(m.extras, extras)), dst, FullSync);
            && (r.Ok? <==> WithinBounds(c, m, WritesOf(m, copyOut), extras))
            && (r.Ok? ==> r.v.extras == extras && Synced(src, dst, r.v.db, m.tables))
  {
    var writes, bs := WritesOf(m, copyOut), BlobsOf(m.extras, extras);
    var data := ArchiveBytes(c, m, writes, bs);
    assert data + [] == data;
    DumpedIsReady(c, src, dst, m, names, copyOut);
    if WithinBounds(c, m, writes, extras) {
      DumpThenFullSync(c, src, dst, m, writes, extras, []);
    } else {
      OversizedIsRefused(c, m, writes, extras, [], dst, FullSync);
    }
  }

  /** The names in a dump's manifest. */
  lemma ListedNames(src: Database, metas: seq<TableMeta>, tables: seq<string>, exclude: seq<string>)
    requires DumpsListed(metas, src, tables, exclude)
    ensures forall t :: t in TableNames(metas) <==> t in tables && t !in exclude
  {
    var at :| Selects(at, tables, exclude) && |metas| == |at|
      && forall i :: 0 <= i < |at| ==>
           var t := tables[at[i]];
           t in src && src[t].meta.columns != [] && metas[i] == src[t].meta.(name := t);
    forall t | t in tables && t !in exclude ensures t in TableNames(metas) {
      var k :| 0 <= k < |tables| && tables[k] == t;
      assert k in at;
      var i :| 0 <= i < |at| && at[i] == k;
      assert metas[i].name == t && metas[i] in metas;
    }
    forall tm | tm in metas ensures tm.name in tables && tm.name !in exclude {
      var i :| 0 <= i < |metas| && metas[i] == tm;
      assert tm.name == tables[at[i]] && at[i] in at;
    }
  }

  /** The same law on the stateful code: Dump into a sink, Restore from a source. */
  method DumpAndRestore(c: Codec, src: Database, tables: seq<string>, exclude: seq<string>, extras: Extras,
                        copyOut: string -> seq<bytes>, dst: Server)
    returns (manifest: Option<Manifest>, out: Outcome<Report>)
    requires c.Lawful()
    requires forall t :: t in tables && t !in exclude && t in src ==> Dumpable(c, src, dst.tables, copyOut, t)
    requires forall x :: x in extras ==> |extras[x]| < TWO_32
    modifies dst
    ensures manifest.None? <==> exists t :: t in tables && t !in exclude && !Present(src, t)
    ensures manifest.None? || out.Err? ==> dst.tables == old(dst.tables)
    ensures manifest.Some? && |c.marshal(manifest.value)| < TWO_32 ==>
              && (out.Ok? <==> WithinBounds(c, manifest.value, WritesOf(manifest.value, copyOut), extras))
              && (out.Ok? ==> out.v.extras == extras && Synced(src, old(dst.tables), dst.tables, manifest.value.tables))
              && (out.Ok? ==> forall t :: t in tables && t !in exclude ==> SameRows(src, dst.tables, t))
              && (out.Ok? ==> forall x :: x in old(dst.tables) && !(x in tables && x !in exclude) ==>
                    x in dst.tables && dst.tables[x] == old(dst.tables[x]))
  {
    var w := new Sink();
    manifest := Dump(c, src, tables, exclude, extras, "", "", copyOut, w);
    if manifest.None? {
      return None, Err(Connect);
    }
    ghost var m := manifest.value;
    FilterMembers(tables, t => t !in exclude);
    if |c.marshal(m)| < TWO_32 {
      RestoreOfDump(c, src, dst.tables, m, EffectiveTables(tables, exclude), extras, copyOut);
    }
    assert w.data == ArchiveBytes(c, m, WritesOf(m, copyOut), BlobsOf(m.extras, extras));
    var r := new Source(w.data);
    out := Restore.Restore(c, r, dst, FullSync, true, true);
    if out.Ok? && |c.marshal(m)| < TWO_32 {
      ListedNames(src, m.tables, tables, exclude);
    }
  }
}
