/** Theorems about whole archives: Dump then Restore, reading independent of
    applying, and archives cut short. */
module Archive {
  import opened Bytes
  import opened Seqs
  import opened Frame
  import opened Tables
  import opened Restore

  // ------------------------------------------------------------- the writer

  function Header(c: Codec, m: Manifest): bytes {
    MAGIC + Block(c.marshal(m))
  }

  /** The table streams one after the other. */
  function FramedAll(writes: seq<seq<bytes>>): bytes {
    if writes == [] then [] else FramedAll(writes[..|writes| - 1]) + Framed(writes[|writes| - 1])
  }

  function Blocks(bs: seq<bytes>): bytes {
    if bs == [] then [] else Blocks(bs[..|bs| - 1]) + Block(bs[|bs| - 1])
  }

  function ArchiveBytes(c: Codec, m: Manifest, writes: seq<seq<bytes>>, bs: seq<bytes>): bytes {
    Header(c, m) + FramedAll(writes) + Blocks(bs)
  }

  /** sort.Strings order. */
  predicate LexLe(a: string, b: string) {
    a == [] || (b != [] && (a[0] < b[0] || (a[0] == b[0] && LexLe(a[1..], b[1..]))))
  }

  lemma {:induction false} LexTotal(a: string, b: string)
    ensures LexLe(a, b) || LexLe(b, a)
  {
    if a != [] && b != [] && a[0] == b[0] { LexTotal(a[1..], b[1..]); }
  }

  lemma {:induction false} LexTransitive(a: string, b: string, d: string)
    requires LexLe(a, b) && LexLe(b, d)
    ensures LexLe(a, d)
  {
    if a != [] && a[0] == b[0] == d[0] { LexTransitive(a[1..], b[1..], d[1..]); }
  }

  lemma {:induction false} LeastName(keys: set<string>) returns (x: string)
    requires keys != {}
    ensures x in keys && forall y :: y in keys ==> LexLe(x, y)
    decreases keys
  {
    var a :| a in keys;
    if keys == {a} {
      LexTotal(a, a);
      return a;
    }
    var b := LeastName(keys - {a});
    LexTotal(a, b);
    LexTotal(a, a);
    x := if LexLe(a, b) then a else b;
    forall y | y in keys ensures LexLe(x, y) {
      if y != a && x == a { LexTransitive(a, b, y); }
    }
  }

  /** Byte by byte, a proper prefix first. */
  lemma {:induction false} LexMeans(a: string, b: string)
    ensures LexLe(a, b) <==> a <= b || exists k :: FirstDifference(a, b, k) && a[k] < b[k]
  {
    if a != [] && b != [] && a[0] == b[0] {
      LexMeans(a[1..], b[1..]);
      if k :| FirstDifference(a[1..], b[1..], k) && a[1..][k] < b[1..][k] {
        assert a[..k + 1] == [a[0]] + a[1..][..k] && b[..k + 1] == [b[0]] + b[1..][..k];
        assert FirstDifference(a, b, k + 1);
      }
      if k :| FirstDifference(a, b, k) && a[k] < b[k] {
        assert k > 0 && a[1..][..k - 1] == a[..k][1..] && b[1..][..k - 1] == b[..k][1..];
        assert FirstDifference(a[1..], b[1..], k - 1);
      }
      assert a <= b <==> a[1..] <= b[1..];
    } else if a != [] && b != [] {
      assert FirstDifference(a, b, 0);
      assert !(a <= b);
      forall k | FirstDifference(a, b, k) ensures k == 0 {
        if k > 0 {
          HeadsAgree(a, b, k);
          assert false;
        }
      }
    }
  }

  lemma HeadsAgree(a: string, b: string, k: int)
    requires FirstDifference(a, b, k) && k > 0
    ensures a[0] == b[0]
  {
    assert a[..k][0] == b[..k][0];
  }

  predicate FirstDifference(a: string, b: string, k: int) {
    0 <= k < |a| && k < |b| && a[..k] == b[..k] && a[k] != b[k]
  }

  predicate SortedNames(names: seq<string>) {
    forall i, j :: 0 <= i < j < |names| ==> LexLe(names[i], names[j])
  }

  method SortNames(keys: set<string>) returns (names: seq<string>)
    ensures SortedNames(names) && Distinct(names) && ToSet(names) == keys
  {
    names := [];
    var left := keys;
    while left != {}
      invariant SortedNames(names) && Distinct(names)
      invariant ToSet(names) !! left && ToSet(names) + left == keys
      invariant forall x, y :: x in names && y in left ==> LexLe(x, y)
      decreases left
    {
      ghost var least := LeastName(left);
      var x :| x in left && forall y :: y in left ==> LexLe(x, y);
      assert x !in ToSet(names);
      names := names + [x];
      left := left - {x};
    }
  }

  function WritesOf(m: Manifest, copyOut: string -> seq<bytes>): (writes: seq<seq<bytes>>)
    ensures |writes| == |m.tables|
  {
    seq(|m.tables|, i requires 0 <= i < |m.tables| => copyOut(m.tables[i].name))
  }

  function BlobsOf(names: seq<string>, extras: Extras): (bs: seq<bytes>)
    requires ToSet(names) <= extras.Keys
    ensures |bs| == |names|
  {
    seq(|names|, i requires 0 <= i < |names| => assert names[i] in ToSet(names); extras[names[i]])
  }

  /** Options.Tables minus Options.Exclude, order preserved. */
  function EffectiveTables(tables: seq<string>, exclude: seq<string>): seq<string> {
    Filter(tables, t => t !in exclude)
  }

  /** at points, in order, at exactly the listed tables that are not excluded. */
  ghost predicate Selects(at: seq<nat>, tables: seq<string>, exclude: seq<string>) {
    && (forall i :: 0 <= i < |at| ==> at[i] < |tables|)
    && (forall i, j :: 0 <= i < j < |at| ==> at[i] < at[j])
    && forall k :: 0 <= k < |tables| ==> (k in at <==> tables[k] !in exclude)
  }

  /** The dumped tables are the listed ones that are not excluded, as often as they are
      listed and in that order. */
  ghost predicate DumpsListed(metas: seq<TableMeta>, db: Database, tables: seq<string>, exclude: seq<string>) {
    exists at :: Selects(at, tables, exclude) && |metas| == |at|
      && forall i :: 0 <= i < |at| ==>
           var t := tables[at[i]];
           t in db && db[t].meta.columns != [] && metas[i] == db[t].meta.(name := t)
  }

  lemma {:induction false} EffectiveAt(tables: seq<string>, exclude: seq<string>) returns (at: seq<nat>)
    ensures Selects(at, tables, exclude) && |at| == |EffectiveTables(tables, exclude)|
    ensures forall i :: 0 <= i < |at| ==> EffectiveTables(tables, exclude)[i] == tables[at[i]]
  {
    if tables == [] {
      return [];
    }
    var n := |tables| - 1;
    var front, last := tables[..n], tables[n];
    at := EffectiveAt(front, exclude);
    assert EffectiveTables(tables, exclude) == EffectiveTables(front, exclude) + if last !in exclude then [last] else [] by {
      assert tables == front + [last];
      FilterAppend(front, [last], t => t !in exclude);
    }
    if last !in exclude {
      at := at + [n];
    }
  }

  lemma DescribedAreListed(metas: seq<TableMeta>, db: Database, tables: seq<string>, exclude: seq<string>)
    requires Describes(metas, db, EffectiveTables(tables, exclude))
    ensures DumpsListed(metas, db, tables, exclude)
  {
    var at := EffectiveAt(tables, exclude);
    forall i | 0 <= i < |at|
      ensures var t := tables[at[i]]; t in db && db[t].meta.columns != [] && metas[i] == db[t].meta.(name := t)
    {
      assert EffectiveTables(tables, exclude)[i] == tables[at[i]] && Present(db, tables[at[i]]);
    }
  }

  /** The metadata of these tables, in order; all of them are there. */
  ghost predicate Describes(metas: seq<TableMeta>, db: Database, names: seq<string>) {
    && |metas| == |names|
    && forall i :: 0 <= i < |metas| ==> Present(db, names[i]) && metas[i] == db[names[i]].meta.(name := names[i])
  }

  /** Dump. db is the repeatable-read snapshot; copyOut(t) is the sequence of Writes in
      which the server delivers table t's COPY stream. */
  method Dump(c: Codec, db: Database, tables: seq<string>, exclude: seq<string>, extras: Extras,
              owner: string, createdAt: string, copyOut: string -> seq<bytes>, w: Sink)
    returns (out: Option<Manifest>)
    modifies w
    ensures out.None? <==> exists t :: t in tables && t !in exclude && !Present(db, t)
    ensures out.None? ==> w.data == old(w.data)
    ensures out.Some? ==>
              var m := out.value;
              && Describes(m.tables, db, EffectiveTables(tables, exclude))
              && DumpsListed(m.tables, db, tables, exclude)
              && SortedNames(m.extras) && Distinct(m.extras) && ToSet(m.extras) == extras.Keys
              && m.format == "copy-text-v1" && m.owner == owner && m.createdAt == createdAt
              && w.data == old(w.data) + ArchiveBytes(c, m, WritesOf(m, copyOut), BlobsOf(m.extras, extras))
  {
    var metas := CollectMetas(db, tables, exclude);
    if metas.None? {
      return None;
    }
    var names := SortNames(extras.Keys);
    var m := Manifest(owner, ARCHIVE_FORMAT, createdAt, metas.value, names);
    WriteHeader(c, w, m);
    WriteTables(w, m, copyOut);
    WriteExtras(w, names, extras);
    ghost var h, f, b := Header(c, m), FramedAll(WritesOf(m, copyOut)), Blocks(BlobsOf(names, extras));
    assert w.data == old(w.data) + h + f + b;
    Regroup(old(w.data), h, f, b);
    return Some(m);
  }

  method WriteHeader(c: Codec, w: Sink, m: Manifest)
    modifies w
    ensures w.data == old(w.data) + Header(c, m)
  {
    w.Write(MAGIC);
    WriteBlock(w, c.marshal(m));
  }

  lemma Regroup(a: bytes, b: bytes, x: bytes, y: bytes)
    ensures a + b + x + y == a + (b + x + y)
  {
  }

  /** The introspection loop over the effective tables (Tables minus Exclude). */
  method CollectMetas(db: Database, tables: seq<string>, exclude: seq<string>) returns (out: Option<seq<TableMeta>>)
    ensures out.None? <==> exists t :: t in tables && t !in exclude && !Present(db, t)
    ensures out.Some? ==>
              && Describes(out.value, db, EffectiveTables(tables, exclude))
              && DumpsListed(out.value, db, tables, exclude)
  {
    var effective := Diff(tables, exclude);
    FilterMembers(tables, t => t !in exclude);
    var metas: seq<TableMeta> := [];
    for i := 0 to |effective|
      invariant |metas| == i
      invariant forall j :: 0 <= j < i ==> Present(db, effective[j]) && metas[j] == db[effective[j]].meta.(name := effective[j])
    {
      if !Present(db, effective[i]) {
        assert effective[i] in effective;
        return None;
      }
      metas := metas + [db[effective[i]].meta.(name := effective[i])];
    }
    DescribedAreListed(metas, db, tables, exclude);
    return Some(metas);
  }

  method WriteTables(w: Sink, m: Manifest, copyOut: string -> seq<bytes>)
    modifies w
    ensures w.data == old(w.data) + FramedAll(WritesOf(m, copyOut))
  {
    ghost var writes := WritesOf(m, copyOut);
    for i := 0 to |m.tables|
      invariant w.data == old(w.data) + FramedAll(writes[..i])
    {
      WriteAll(w, copyOut(m.tables[i].name));
      assert writes[..i + 1][..i] == writes[..i];
    }
    assert writes[..|m.tables|] == writes;
  }

  method WriteExtras(w: Sink, names: seq<string>, extras: Extras)
    requires ToSet(names) <= extras.Keys
    modifies w
    ensures w.data == old(w.data) + Blocks(BlobsOf(names, extras))
  {
    ghost var bs := BlobsOf(names, extras);
    for i := 0 to |names|
      invariant w.data == old(w.data) + Blocks(bs[..i])
    {
      assert names[i] in ToSet(names);
      WriteBlock(w, extras[names[i]]);
      assert bs[..i + 1][..i] == bs[..i];
    }
    assert bs[..|names|] == bs;
  }

  // ------------------------------------------- reading apart from applying

  datatype TablesScan = AllEnded(datas: seq<bytes>, rest: bytes) | OneBroken

  /** n tables' streams, without looking at any database. */
  function TakeTables(n: nat, s: bytes): (scan: TablesScan)
    ensures scan.AllEnded? ==> |scan.datas| == n
  {
    if n == 0 then AllEnded([], s)
    else
      match TakeTables(n - 1, s)
      case OneBroken => OneBroken
      case AllEnded(datas, rest) =>
        match TakeTable(rest)
        case Broken(_, _) => OneBroken
        case Ended(data, rest') => AllEnded(datas + [data], rest')
  }

  function ApplyTables(c: Codec, metas: seq<TableMeta>, datas: seq<bytes>, db: Database, mode: Mode)
    : Outcome<(Database, seq<TableResult>)>
    requires |metas| == |datas|
  {
    if metas == [] then Ok((db, []))
    else
      var n := |metas| - 1;
      match ApplyTables(c, metas[..n], datas[..n], db, mode)
      case Err(f) => Err(f)
      case Ok((before, results)) =>
        match ApplyTable(c, metas[n], datas[n], before, mode)
        case Err(f) => Err(f)
        case Ok(a) => Ok((a.db, results + [a.result]))
  }

  /** Restoring succeeds exactly when the streams read cleanly and their contents can
      be applied, and then equals reading everything first and applying it after. So
      which tables the target has, and hence which streams are drained and which
      loaded, has no effect on how any stream or extra is decoded. */
  lemma {:induction false} RestoreSeparates(c: Codec, metas: seq<TableMeta>, s: bytes, db: Database, mode: Mode)
    ensures var r, scan := RestoreTables(c, metas, s, db, mode), TakeTables(|metas|, s);
            && (r.Ok? <==> scan.AllEnded? && ApplyTables(c, metas, scan.datas, db, mode).Ok?)
            && (r.Ok? ==> ApplyTables(c, metas, scan.datas, db, mode) == Ok((r.v.db, r.v.results)) && r.v.rest == scan.rest)
  {
    if metas != [] {
      var n := |metas| - 1;
      RestoreSeparates(c, metas[..n], s, db, mode);
      var before := TakeTables(n, s);
      if before.AllEnded? && ApplyTables(c, metas[..n], before.datas, db, mode).Ok? {
        var (now, results) := ApplyTables(c, metas[..n], before.datas, db, mode).v;
        assert RestoreTables(c, metas[..n], s, db, mode) == Ok(Progress(now, results, before.rest));
        TableSeparates(c, metas[n], before.rest, now, mode);
        var scan := TakeTable(before.rest);
        if scan.Ended? {
          ApplyOneMore(c, metas, before.datas, scan.data, db, mode);
        }
      } else if before.AllEnded? && TakeTable(before.rest).Ended? {
        ApplyOneMore(c, metas, before.datas, TakeTable(before.rest).data, db, mode);
      }
    }
  }

  lemma TableSeparates(c: Codec, tm: TableMeta, s: bytes, db: Database, mode: Mode)
    ensures var r, scan := RestoreTable(c, tm, s, db, mode), TakeTable(s);
            && (r.Ok? <==> scan.Ended? && ApplyTable(c, tm, scan.data, db, mode).Ok?)
            && (r.Ok? ==> r.v == (ApplyTable(c, tm, scan.data, db, mode).v, scan.rest))
  {
  }

  lemma ApplyOneMore(c: Codec, metas: seq<TableMeta>, datas: seq<bytes>, data: bytes, db: Database, mode: Mode)
    requires |metas| == |datas| + 1
    ensures ApplyTables(c, metas, datas + [data], db, mode) ==
            match ApplyTables(c, metas[..|datas|], datas, db, mode)
            case Err(f) => Err(f)
            case Ok((before, results)) =>
              match ApplyTable(c, metas[|datas|], data, before, mode)
              case Err(f) => Err(f)
              case Ok(a) => Ok((a.db, results + [a.result]))
  {
    assert (datas + [data])[..|datas|] == datas;
  }

  /** Two restores of one archive, into any databases and in any modes, that both
      succeed agree on the manifest, every extra and where the archive ends. */
  lemma DecodingIgnoresTarget(c: Codec, s: bytes, db1: Database, mode1: Mode, db2: Database, mode2: Mode)
    requires RestoreArchive(c, s, db1, mode1).Ok? && RestoreArchive(c, s, db2, mode2).Ok?
    ensures var a, b := RestoreArchive(c, s, db1, mode1).v, RestoreArchive(c, s, db2, mode2).v;
            a.manifest == b.manifest && a.extras == b.extras && a.rest == b.rest
  {
    var (m, s1) := TakeHeader(c, s).v;
    RestoreSeparates(c, m.tables, s1, db1, mode1);
    RestoreSeparates(c, m.tables, s1, db2, mode2);
  }

  // ------------------------------------------------------------ round trips

  lemma HeaderRoundTrip(c: Codec, m: Manifest, rest: bytes)
    requires c.Lawful() && |c.marshal(m)| <= MAX_BLOCK
    ensures TakeHeader(c, Header(c, m) + rest) == Ok((m, rest))
  {
    var s := Header(c, m) + rest;
    assert s[..8] == MAGIC && s[8..] == Block(c.marshal(m)) + rest;
    BlockRoundTrip(c.marshal(m), rest);
  }

  /** A manifest that does not fit is written all the same and refused by the reader. */
  lemma LongManifest(c: Codec, m: Manifest, rest: bytes)
    requires MAX_BLOCK < |c.marshal(m)| < TWO_32
    ensures TakeHeader(c, Header(c, m) + rest) == Err(Read(TooLarge))
  {
    var s, b := Header(c, m) + rest, c.marshal(m);
    assert s[..8] == MAGIC && s[8..] == Block(b) + rest;
    assert (Block(b) + rest)[..4] == U32(|b|);
  }

  ghost predicate AllFit(writes: seq<seq<bytes>>) {
    forall i :: 0 <= i < |writes| ==> Fits(writes[i])
  }

  function Contents(writes: seq<seq<bytes>>): (datas: seq<bytes>)
    ensures |datas| == |writes|
  {
    seq(|writes|, i requires 0 <= i < |writes| => Flatten(writes[i]))
  }

  ghost predicate AllLengthsFit(writes: seq<seq<bytes>>) {
    forall i :: 0 <= i < |writes| ==> LengthsFit(writes[i])
  }

  /** Every table's stream is read back and the next begins where it ended, exactly when no
      Write of any table is above maxBlock. */
  lemma {:induction false} TablesRoundTrip(writes: seq<seq<bytes>>, rest: bytes)
    requires AllLengthsFit(writes)
    ensures TakeTables(|writes|, FramedAll(writes) + rest) == if AllFit(writes) then AllEnded(Contents(writes), rest) else OneBroken
  {
    if writes == [] {
      assert FramedAll(writes) + rest == rest;
    } else {
      var front, last := writes[..|writes| - 1], writes[|writes| - 1];
      assert writes == front + [last];
      assert FramedAll(writes) + rest == FramedAll(front) + (Framed(last) + rest);
      TablesRoundTrip(front, Framed(last) + rest);
      assert LengthsFit(last);
      LastTableRead(front, last, FramedAll(writes) + rest, rest);
    }
  }

  lemma LastTableRead(front: seq<seq<bytes>>, last: seq<bytes>, s: bytes, rest: bytes)
    requires LengthsFit(last)
    requires TakeTables(|front|, s) == if AllFit(front) then AllEnded(Contents(front), Framed(last) + rest) else OneBroken
    ensures TakeTables(|front| + 1, s) == if AllFit(front + [last]) then AllEnded(Contents(front + [last]), rest) else OneBroken
  {
    AllFitFront(front, last);
    ContentsAppend(front, last);
    FramedReads(last, rest);
  }

  lemma AllFitFront(front: seq<seq<bytes>>, last: seq<bytes>)
    ensures AllFit(front + [last]) <==> AllFit(front) && Fits(last)
  {
    assert (front + [last])[|front|] == last && forall i :: 0 <= i < |front| ==> (front + [last])[i] == front[i];
  }

  ghost predicate NamedFit(names: seq<string>, extras: Extras) {
    forall x :: x in names ==> x in extras && |extras[x]| <= MAX_BLOCK
  }

  /** Every extra is read back under its name, exactly when none is above maxBlock. */
  lemma {:induction false} ExtrasRoundTrip(names: seq<string>, extras: Extras, rest: bytes)
    requires ToSet(names) <= extras.Keys
    requires forall x :: x in names ==> x in extras && |extras[x]| < TWO_32
    ensures TakeExtras(names, Blocks(BlobsOf(names, extras)) + rest) ==
            if NamedFit(names, extras) then Ok((map x | x in names :: extras[x], rest)) else Err(Read(TooLarge))
  {
    var bs := BlobsOf(names, extras);
    if names == [] {
      assert Blocks(bs) + rest == rest;
    } else {
      var n := |names| - 1;
      var front, last := names[..n], names[n];
      assert forall x :: x in names <==> x in front || x == last;
      assert ToSet(front) <= ToSet(names);
      assert BlobsOf(front, extras) == bs[..n];
      assert Blocks(bs) + rest == Blocks(bs[..n]) + (Block(bs[n]) + rest);
      ExtrasRoundTrip(front, extras, Block(bs[n]) + rest);
      if |bs[n]| <= MAX_BLOCK {
        BlockRoundTrip(bs[n], rest);
      } else {
        LongBlock(bs[n], rest);
      }
      assert (map x | x in front :: extras[x])[last := bs[n]] == map x | x in names :: extras[x];
    }
  }

  ghost predicate ExtrasFit(extras: Extras) {
    forall x :: x in extras ==> |extras[x]| <= MAX_BLOCK
  }

  lemma AllExtras(names: seq<string>, extras: Extras, tail: bytes)
    requires ToSet(names) == extras.Keys
    requires forall x :: x in extras ==> |extras[x]| < TWO_32
    ensures TakeExtras(names, Blocks(BlobsOf(names, extras)) + tail) == if ExtrasFit(extras) then Ok((extras, tail)) else Err(Read(TooLarge))
  {
    forall x | x in names ensures x in extras { assert x in ToSet(names); }
    ExtrasRoundTrip(names, extras, tail);
    assert forall x :: x in names <==> x in ToSet(names);
    assert (map x | x in names :: extras[x]) == extras;
  }

  lemma RegroupTail(h: bytes, f: bytes, b: bytes, tail: bytes)
    ensures h + f + b + tail == h + (f + (b + tail))
  {
  }

  lemma HeaderOfArchive(c: Codec, m: Manifest, writes: seq<seq<bytes>>, bs: seq<bytes>, tail: bytes)
    requires c.Lawful() && |c.marshal(m)| <= MAX_BLOCK
    ensures TakeHeader(c, ArchiveBytes(c, m, writes, bs) + tail) == Ok((m, FramedAll(writes) + (Blocks(bs) + tail)))
  {
    var h, f, b := Header(c, m), FramedAll(writes), Blocks(bs);
    assert h + f + b + tail == h + (f + (b + tail)) by { RegroupTail(h, f, b, tail); }
    HeaderRoundTrip(c, m, f + (b + tail));
  }

  /** Every piece of an archive is within maxBlock. The writer checks none of them. */
  ghost predicate WithinBounds(c: Codec, m: Manifest, writes: seq<seq<bytes>>, extras: Extras) {
    |c.marshal(m)| <= MAX_BLOCK && AllFit(writes) && ExtrasFit(extras)
  }

  /** A dump can be read back, in full, if and only if every piece of it is within maxBlock:
      manifest, Writes and extras. A longer one is written without complaint. */
  lemma DumpReadsBack(c: Codec, m: Manifest, writes: seq<seq<bytes>>, extras: Extras, tail: bytes)
    requires c.Lawful() && |m.tables| == |writes| && ToSet(m.extras) == extras.Keys
    requires |c.marshal(m)| < TWO_32 && AllLengthsFit(writes) && forall x :: x in extras ==> |extras[x]| < TWO_32
    ensures Decode(c, ArchiveBytes(c, m, writes, BlobsOf(m.extras, extras)) + tail) ==
            if WithinBounds(c, m, writes, extras) then Some((m, tail)) else None
  {
    var bs := BlobsOf(m.extras, extras);
    var s2 := Blocks(bs) + tail;
    var s1 := FramedAll(writes) + s2;
    if |c.marshal(m)| > MAX_BLOCK {
      RegroupTail(Header(c, m), FramedAll(writes), Blocks(bs), tail);
      LongManifest(c, m, s1);
    } else {
      HeaderOfArchive(c, m, writes, bs, tail);
      TablesRoundTrip(writes, s2);
      AllExtras(m.extras, extras, tail);
    }
  }

  /** So Restore refuses an archive with an oversized piece, in every mode and on every
      target. */
  lemma OversizedIsRefused(c: Codec, m: Manifest, writes: seq<seq<bytes>>, extras: Extras, tail: bytes, db: Database, mode: Mode)
    requires c.Lawful() && |m.tables| == |writes| && ToSet(m.extras) == extras.Keys
    requires |c.marshal(m)| < TWO_32 && AllLengthsFit(writes) && forall x :: x in extras ==> |extras[x]| < TWO_32
    requires !WithinBounds(c, m, writes, extras)
    ensures RestoreArchive(c, ArchiveBytes(c, m, writes, BlobsOf(m.extras, extras)) + tail, db, mode).Err?
  {
    var s := ArchiveBytes(c, m, writes, BlobsOf(m.extras, extras)) + tail;
    DumpReadsBack(c, m, writes, extras, tail);
    if RestoreArchive(c, s, db, mode).Ok? {
      RestoreNeedsDecoding(c, s, db, mode);
    }
  }

  // -------------------------------------------------------------- truncation

  /** The reader's side of Restore after the header: every table stream, then every
      extra; what is left. */
  function DecodeBody(m: Manifest, s: bytes): Option<bytes> {
    match TakeTables(|m.tables|, s)
    case OneBroken => None
    case AllEnded(_, s') =>
      match TakeExtras(m.extras, s')
      case Err(_) => None
      case Ok((_, rest)) => Some(rest)
  }

  /** The whole reader's side: the manifest and what follows the archive. */
  function Decode(c: Codec, s: bytes): Option<(Manifest, bytes)> {
    match TakeHeader(c, s)
    case Err(_) => None
    case Ok((m, s')) =>
      match DecodeBody(m, s')
      case None => None
      case Some(rest) => Some((m, rest))
  }

  lemma RestoreNeedsDecoding(c: Codec, s: bytes, db: Database, mode: Mode)
    requires RestoreArchive(c, s, db, mode).Ok?
    ensures var done := RestoreArchive(c, s, db, mode).v; Decode(c, s) == Some((done.manifest, done.rest))
  {
    var (m, s1) := TakeHeader(c, s).v;
    RestoreSeparates(c, m.tables, s1, db, mode);
  }

  /** How a reader that stops at `rest` behaves on s cut short: a later cut is
      invisible, an earlier one leaves nothing if it is not noticed. */
  ghost predicate LooseCut(s: bytes, cut: nat, rest: bytes, clean: bool, left: bytes) {
    var used := |s| - |rest|;
    && used >= 0 && cut <= |s| && rest == s[used..]
    && (cut >= used ==> clean && left == s[used..cut])
    && (cut < used && clean ==> left == [])
  }

  lemma LooseCutThen(s: bytes, cut: nat, rest: bytes, left: bytes, rest2: bytes, clean2: bool, left2: bytes)
    requires LooseCut(s, cut, rest, true, left)
    requires LooseCut(rest, if cut >= |s| - |rest| then cut - (|s| - |rest|) else 0, rest2, clean2, left2)
    ensures left == rest[..if cut >= |s| - |rest| then cut - (|s| - |rest|) else 0]
    ensures LooseCut(s, cut, rest2, clean2, left2)
  {
  }

  lemma {:induction false} CutTables(n: nat, s: bytes, cut: nat)
    requires cut <= |s| && TakeTables(n, s).AllEnded?
    ensures var part := TakeTables(n, s[..cut]);
            LooseCut(s, cut, TakeTables(n, s).rest, part.AllEnded?, if part.AllEnded? then part.rest else [])
  {
    if n > 0 {
      var rest := TakeTables(n - 1, s).rest;
      var part := TakeTables(n - 1, s[..cut]);
      assert LooseCut(s, cut, rest, part.AllEnded?, if part.AllEnded? then part.rest else []) by {
        CutTables(n - 1, s, cut);
      }
      var c := if cut >= |s| - |rest| then cut - (|s| - |rest|) else 0;
      var scan := TakeTable(rest[..c]);
      assert LooseCut(rest, c, TakeTable(rest).rest, scan.Ended?, if scan.Ended? then scan.rest else []) by {
        CutTable(rest, c);
      }
      if part.AllEnded? {
        LooseCutThen(s, cut, rest, part.rest, TakeTable(rest).rest, scan.Ended?, if scan.Ended? then scan.rest else []);
      } else {
        SliceOfRest(s, |s| - |rest|, |rest| - |TakeTable(rest).rest|, |rest|);
      }
    }
  }

  /** A reader that notices every earlier cut. */
  ghost predicate TightCut(s: bytes, cut: nat, rest: bytes, ok: bool, left: bytes) {
    var used := |s| - |rest|;
    && used >= 0 && cut <= |s| && rest == s[used..]
    && (cut >= used ==> ok && left == s[used..cut])
    && (cut < used ==> !ok)
  }

  lemma TightCutThen(s: bytes, cut: nat, rest: bytes, ok: bool, left: bytes, rest2: bytes, ok2: bool, left2: bytes)
    requires TightCut(s, cut, rest, ok, left)
    requires ok ==> TightCut(rest, |left|, rest2, ok2, left2)
    requires |rest2| <= |rest| && rest2 == rest[|rest| - |rest2|..]
    ensures ok ==> left == rest[..|left|]
    ensures TightCut(s, cut, rest2, ok && ok2, left2)
  {
    var used, more := |s| - |rest|, |rest| - |rest2|;
    assert rest2 == s[used + more..] by { SliceOfRest(s, used, more, |rest|); }
    if ok {
      assert left == rest[..|left|] by { SliceOfRest(s, used, 0, |left|); }
      if ok2 { SliceOfRest(s, used, more, |left|); }
    }
  }

  /** Where a block reader stands when the stream is cut. */
  lemma TightBlock(s: bytes, cut: nat)
    requires cut <= |s| && TakeBlock(s).Got?
    ensures TakeBlock(s).rest == s[|s| - |TakeBlock(s).rest|..] && |TakeBlock(s).rest| < |s|
    ensures var part := TakeBlock(s[..cut]);
            TightCut(s, cut, TakeBlock(s).rest, part.Got?, if part.Got? then part.rest else [])
  {
    CutBlock(s, cut);
  }

  lemma {:induction false} CutExtras(names: seq<string>, s: bytes, cut: nat)
    requires cut <= |s| && TakeExtras(names, s).Ok?
    ensures var rest, part := TakeExtras(names, s).v.1, TakeExtras(names, s[..cut]);
            && TightCut(s, cut, rest, part.Ok?, if part.Ok? then part.v.1 else [])
            && (names != [] ==> |rest| < |s|)
  {
    if names != [] {
      var front := names[..|names| - 1];
      var rest, part := TakeExtras(front, s).v.1, TakeExtras(front, s[..cut]);
      CutExtras(front, s, cut);
      var left := if part.Ok? then part.v.1 else [];
      var rest2 := TakeBlock(rest).rest;
      TightBlock(rest, |left|);
      assert part.Ok? ==> left == rest[..|left|] by { SliceOfRest(s, |s| - |rest|, 0, |left|); }
      var part2 := TakeBlock(left);
      TightCutThen(s, cut, rest, part.Ok?, left, rest2, part2.Got?, if part2.Got? then part2.rest else []);
    }
  }

  lemma CutHeader(c: Codec, s: bytes, cut: nat)
    requires cut <= |s| && TakeHeader(c, s).Ok?
    ensures var (m, rest) := TakeHeader(c, s).v; var part := TakeHeader(c, s[..cut]); var used := |s| - |rest|;
            && used >= 0 && rest == s[used..]
            && (cut >= used ==> part == Ok((m, s[used..cut])))
            && (cut < used ==> part.Err?)
  {
    var t := s[..cut];
    CutBlock(s[8..], if cut >= 8 then cut - 8 else 0);
    var more := |s[8..]| - |TakeBlock(s[8..]).rest|;
    SliceOfRest(s, 8, more, if cut >= 8 + more then cut - 8 else |s| - 8);
    if cut >= 8 {
      assert t[..8] == s[..8] && t[8..] == s[8..][..cut - 8];
    }
  }

  lemma CutBody(m: Manifest, s: bytes, cut: nat)
    requires m.extras != [] && DecodeBody(m, s).Some? && cut < |s| - |DecodeBody(m, s).value|
    ensures DecodeBody(m, s[..cut]).None?
    ensures |DecodeBody(m, s).value| <= |s|
  {
    var s' := TakeTables(|m.tables|, s).rest;
    var used := |s| - |s'|;
    var part := TakeTables(|m.tables|, s[..cut]);
    CutTables(|m.tables|, s, cut);
    var c := if cut >= used then cut - used else 0;
    assert part.AllEnded? ==> part.rest == s'[..c] by { SliceOfRest(s, used, 0, c); }
    assert TakeExtras(m.extras, s'[..c]).Err? by { CutExtras(m.extras, s', c); }
    assert |DecodeBody(m, s).value| <= |s'| by { CutExtras(m.extras, s', 0); }
  }

  /** An archive with at least one extra, cut anywhere before its end, does not decode,
      even where a table reader takes the cut for the end of a table. */
  lemma TruncatedDoesNotDecode(c: Codec, s: bytes, cut: nat)
    requires Decode(c, s).Some? && Decode(c, s).value.0.extras != []
    requires cut < |s| - |Decode(c, s).value.1|
    ensures Decode(c, s[..cut]).None?
  {
    var (m, s1) := TakeHeader(c, s).v;
    CutHeader(c, s, cut);
    var h := |s| - |s1|;
    if cut >= h {
      assert s[h..cut] == s1[..cut - h];
      CutBody(m, s1, cut - h);
    }
  }

  /** So Restore rejects every strict prefix of it, in every mode and on every target. */
  lemma TruncatedIsRejected(c: Codec, s: bytes, db: Database, mode: Mode, cut: nat, db2: Database, mode2: Mode)
    requires RestoreArchive(c, s, db, mode).Ok?
    requires RestoreArchive(c, s, db, mode).v.manifest.extras != []
    requires cut < |s| - |RestoreArchive(c, s, db, mode).v.rest|
    ensures RestoreArchive(c, s[..cut], db2, mode2).Err?
  {
    RestoreNeedsDecoding(c, s, db, mode);
    TruncatedDoesNotDecode(c, s, cut);
    if RestoreArchive(c, s[..cut], db2, mode2).Ok? {
      RestoreNeedsDecoding(c, s[..cut], db2, mode2);
    }
  }

  /** Cuts in the table section that every table reader takes for an ordinary end. */
  predicate TableSeam(writes: seq<seq<bytes>>, cut: nat) {
    if writes == [] then cut == 0
    else
      var front := writes[..|writes| - 1];
      if cut < |FramedAll(front)| then TableSeam(front, cut)
      else Seam(writes[|writes| - 1], cut - |FramedAll(front)|)
  }

  /** What is left of every table's Writes when the table section is cut. */
  function CutWrites(writes: seq<seq<bytes>>, cut: nat): (left: seq<seq<bytes>>)
    ensures |left| == |writes|
  {
    if writes == [] then []
    else
      var front, last := writes[..|writes| - 1], writes[|writes| - 1];
      if cut < |FramedAll(front)| then CutWrites(front, cut) + [[]]
      else front + [Delivered(last, cut - |FramedAll(front)|)]
  }

  lemma ContentsAppend(front: seq<seq<bytes>>, last: seq<bytes>)
    ensures Contents(front + [last]) == Contents(front) + [Flatten(last)]
  {
  }

  /** The streams of a cut table section, as far as the cut lets them be read. */
  ghost predicate CutReads(writes: seq<seq<bytes>>, cut: nat, part: bytes) {
    var scan := TakeTables(|writes|, part);
    if TableSeam(writes, cut) then scan == AllEnded(Contents(CutWrites(writes, cut)), []) else scan.OneBroken?
  }

  lemma CutInFront(writes: seq<seq<bytes>>, cut: nat, part: bytes)
    requires writes != [] && cut < |FramedAll(writes[..|writes| - 1])| && CutReads(writes[..|writes| - 1], cut, part)
    ensures CutReads(writes, cut, part)
  {
    var front := writes[..|writes| - 1];
    assert TakeTable([]) == Ended([], []);
    ContentsAppend(CutWrites(front, cut), []);
  }

  lemma CutInLast(writes: seq<seq<bytes>>, cut: nat, c: nat)
    requires writes != [] && AllFit(writes)
    requires var front, last := writes[..|writes| - 1], writes[|writes| - 1];
             cut == |FramedAll(front)| + c && c <= |Framed(last)|
    ensures CutReads(writes, cut, FramedAll(writes[..|writes| - 1]) + Framed(writes[|writes| - 1])[..c])
  {
    var front, last := writes[..|writes| - 1], writes[|writes| - 1];
    var piece := Framed(last)[..c];
    assert TakeTables(|front|, FramedAll(front) + piece) == AllEnded(Contents(front), piece) by { TablesRoundTrip(front, piece); }
    CutFramed(last, c);
    ContentsAppend(front, Delivered(last, c));
  }

  lemma {:induction false} CutFramedAll(writes: seq<seq<bytes>>, cut: nat)
    requires AllFit(writes) && cut <= |FramedAll(writes)|
    ensures CutReads(writes, cut, FramedAll(writes)[..cut])
  {
    if writes != [] {
      var front, last := writes[..|writes| - 1], writes[|writes| - 1];
      var t := FramedAll(writes)[..cut];
      if cut < |FramedAll(front)| {
        assert t == FramedAll(front)[..cut];
        CutFramedAll(front, cut);
        CutInFront(writes, cut, t);
      } else {
        var c := cut - |FramedAll(front)|;
        assert t == FramedAll(front) + Framed(last)[..c];
        CutInLast(writes, cut, c);
      }
    }
  }

  /** A dumped archive without extras, and a place in it. */
  ghost predicate Cuttable(c: Codec, m: Manifest, writes: seq<seq<bytes>>, cut: nat) {
    && c.Lawful() && |c.marshal(m)| <= MAX_BLOCK && AllFit(writes)
    && m.extras == [] && |m.tables| == |writes| && cut <= |ArchiveBytes(c, m, writes, [])|
  }

  /** How a dumped archive without extras reads when it is cut short. */
  lemma CutArchive(c: Codec, m: Manifest, writes: seq<seq<bytes>>, cut: nat)
    requires Cuttable(c, m, writes, cut)
    ensures var h, part := |Header(c, m)|, ArchiveBytes(c, m, writes, [])[..cut];
            if cut < h then TakeHeader(c, part).Err?
            else cut - h <= |FramedAll(writes)| && TakeHeader(c, part) == Ok((m, FramedAll(writes)[..cut - h]))
  {
    var h := Header(c, m);
    var s := h + FramedAll(writes);
    assert ArchiveBytes(c, m, writes, []) == s;
    HeaderRoundTrip(c, m, FramedAll(writes));
    CutHeader(c, s, cut);
    assert s[|h|..] == FramedAll(writes);
    if cut >= |h| {
      assert s[|h|..cut] == FramedAll(writes)[..cut - |h|];
    }
  }

  /** Without extras the guard is gone: a dumped archive cut short still decodes exactly
      when the cut falls on a seam of the table section. Restore then commits what is left
      as if it were the backup: whole Writes before the cut, and nothing after it. */
  lemma TruncatedWithoutExtras(c: Codec, m: Manifest, writes: seq<seq<bytes>>, cut: nat, db: Database, mode: Mode)
    requires Cuttable(c, m, writes, cut)
    ensures var h, part := |Header(c, m)|, ArchiveBytes(c, m, writes, [])[..cut];
            var r := RestoreArchive(c, part, db, mode);
            && (Decode(c, part).Some? <==> cut >= h && TableSeam(writes, cut - h))
            && if cut >= h && TableSeam(writes, cut - h) then
                 var a := ApplyTables(c, m.tables, Contents(CutWrites(writes, cut - h)), db, mode);
                 if a.Ok? then r == Ok(Restored(m, a.v.0, a.v.1, map[], [])) else r.Err?
               else r.Err?
  {
    var h := |Header(c, m)|;
    CutArchive(c, m, writes, cut);
    if cut >= h {
      SeamRestores(c, m, writes, cut - h, db, mode);
    }
  }

  /** The table section alone, cut short. */
  lemma SeamRestores(c: Codec, m: Manifest, writes: seq<seq<bytes>>, cut: nat, db: Database, mode: Mode)
    requires AllFit(writes) && |m.tables| == |writes| && cut <= |FramedAll(writes)|
    ensures var s := FramedAll(writes)[..cut];
            var r := RestoreTables(c, m.tables, s, db, mode);
            && (TakeTables(|writes|, s).AllEnded? <==> TableSeam(writes, cut))
            && if TableSeam(writes, cut) then
                 var a := ApplyTables(c, m.tables, Contents(CutWrites(writes, cut)), db, mode);
                 && TakeTables(|writes|, s).rest == []
                 && if a.Ok? then r == Ok(Progress(a.v.0, a.v.1, [])) else r.Err?
               else r.Err?
  {
    CutFramedAll(writes, cut);
    RestoreSeparates(c, m.tables, FramedAll(writes)[..cut], db, mode);
  }
}
