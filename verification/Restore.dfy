/** Restore (backup/sqldump/restore.go, backup/sqldump/frame.go): COPY text, one table's
    staging and merge, the archive's reader and the transaction around it, as functions
    and as the stateful code. */
module Restore {
  import opened Bytes
  import opened Seqs
  import opened Frame
  import opened Tables

  /** The magic: T N G S Q L D 1. */
  const MAGIC: bytes := [84, 78, 71, 83, 81, 76, 68, 49]
  const NEWLINE: byte := 10
  const ARCHIVE_FORMAT := "copy-text-v1"

  datatype Manifest = Manifest(owner: string, format: string, createdAt: string, tables: seq<TableMeta>, extras: seq<string>)

  /** The libraries underneath: JSON for the manifest, the text form of one COPY row,
      and the numeric reading of a value. */
  datatype Codec = Codec(
    marshal: Manifest -> bytes,
    unmarshal: bytes -> Option<Manifest>,
    encodeRow: seq<Value> -> bytes,
    decodeRow: bytes -> Option<seq<Value>>,
    number: Value -> int)
  {
    /** Decoding inverts encoding, and an encoded row has no raw newline. A row without
        values is left out: its line is empty, like that of one empty string. */
    ghost predicate Lawful() {
      && (forall m :: unmarshal(marshal(m)) == Some(m))
      && (forall v :: v != [] ==> NEWLINE !in encodeRow(v) && decodeRow(encodeRow(v)) == Some(v))
    }
  }

  datatype Fault = Read(e: IoError) | BadMagic | BadManifest | Connect | Staging | Copy | Apply | Commit
  datatype Outcome<+T> = Ok(v: T) | Err(fault: Fault)

  type Database = map<string, Table>

  // ------------------------------------------------------------- COPY text

  /** The stream COPY TO produces: one newline-terminated line per row. */
  function CopyText(c: Codec, names: seq<string>, rows: seq<Row>): bytes {
    if rows == [] then []
    else c.encodeRow(Key(rows[0], names)) + [NEWLINE] + CopyText(c, names, rows[1..])
  }

  /** The lines COPY FROM sees; a last line without a newline is a line too. */
  function Lines(data: bytes): seq<bytes> {
    var parts := Split(data, NEWLINE);
    if parts[|parts| - 1] == [] then parts[..|parts| - 1] else parts
  }

  function MakeRow(names: seq<string>, values: seq<Value>): Row
    requires |names| == |values|
  {
    if names == [] then map[] else MakeRow(names[1..], values[1..])[names[0] := values[0]]
  }

  /** COPY FROM into the staging table: fails on a line that does not decode or has
      the wrong number of fields. */
  function Load(c: Codec, names: seq<string>, lines: seq<bytes>): Option<seq<Row>> {
    if lines == [] then Some([])
    else
      match c.decodeRow(lines[0])
      case None => None
      case Some(values) =>
        if |values| != |names| then None
        else
          match Load(c, names, lines[1..])
          case None => None
          case Some(more) => Some([MakeRow(names, values)] + more)
  }

  lemma {:induction false} MakeRowOfKey(names: seq<string>, row: Row)
    ensures MakeRow(names, Key(row, names)) == map x | x in names :: Get(row, x)
  {
    if names != [] {
      MakeRowOfKey(names[1..], row);
      assert Key(row, names)[1..] == Key(row, names[1..]);
      assert forall x :: x in names <==> x == names[0] || x in names[1..];
    }
  }

  function EncodedLines(c: Codec, names: seq<string>, rows: seq<Row>): seq<bytes> {
    if rows == [] then [] else [c.encodeRow(Key(rows[0], names))] + EncodedLines(c, names, rows[1..])
  }

  lemma {:induction false} SplitCopyText(c: Codec, names: seq<string>, rows: seq<Row>)
    requires c.Lawful() && names != []
    ensures Split(CopyText(c, names, rows), NEWLINE) == EncodedLines(c, names, rows) + [[]]
  {
    if rows != [] {
      var line, tail := c.encodeRow(Key(rows[0], names)), CopyText(c, names, rows[1..]);
      calc {
        Split(line + [NEWLINE] + tail, NEWLINE);
        { SplitPiece(line, tail, NEWLINE); }
        [line] + Split(tail, NEWLINE);
        { SplitCopyText(c, names, rows[1..]); }
        [line] + (EncodedLines(c, names, rows[1..]) + [[]]);
        EncodedLines(c, names, rows) + [[]];
      }
    }
  }

  /** Rows are found again by their newlines. */
  lemma LinesOfCopyText(c: Codec, names: seq<string>, rows: seq<Row>)
    requires c.Lawful() && names != []
    ensures Lines(CopyText(c, names, rows)) == EncodedLines(c, names, rows)
  {
    SplitCopyText(c, names, rows);
    var lines := EncodedLines(c, names, rows);
    assert (lines + [[]])[..|lines|] == lines;
  }

  lemma {:induction false} LoadEncoded(c: Codec, names: seq<string>, rows: seq<Row>)
    requires c.Lawful() && names != []
    requires forall i :: 0 <= i < |rows| ==> rows[i].Keys == ToSet(names)
    ensures Load(c, names, EncodedLines(c, names, rows)) == Some(rows)
  {
    if rows != [] {
      var lines := EncodedLines(c, names, rows);
      assert lines[1..] == EncodedLines(c, names, rows[1..]);
      LoadEncoded(c, names, rows[1..]);
      MakeRowOfKey(names, rows[0]);
      assert [rows[0]] + rows[1..] == rows;
      assert (map x | x in names :: Get(rows[0], x)) == rows[0] by {
        assert forall x :: x in names <==> x in ToSet(names);
      }
    }
  }

  /** Lines as a text file has them: each ended by a newline. */
  function Terminated(lines: seq<bytes>): bytes {
    if lines == [] then [] else lines[0] + [NEWLINE] + Terminated(lines[1..])
  }

  lemma {:induction false} SplitTerminated(lines: seq<bytes>, last: bytes)
    requires (forall i :: 0 <= i < |lines| ==> NEWLINE !in lines[i]) && NEWLINE !in last
    ensures Split(Terminated(lines) + last, NEWLINE) == lines + [last]
  {
    if lines == [] {
      assert Terminated(lines) + last == last;
      SplitPiece(last, [], NEWLINE);
    } else {
      var tail := Terminated(lines[1..]) + last;
      assert Terminated(lines) + last == lines[0] + [NEWLINE] + tail;
      assert Split(lines[0] + [NEWLINE] + tail, NEWLINE) == [lines[0]] + Split(tail, NEWLINE) by {
        SplitPiece(lines[0], tail, NEWLINE);
      }
      assert Split(tail, NEWLINE) == lines[1..] + [last] by { SplitTerminated(lines[1..], last); }
      assert [lines[0]] + (lines[1..] + [last]) == lines + [last];
    }
  }

  /** How a stream is cut into lines: at every newline, and what is left behind the last one
      is a line if it is not empty. */
  lemma LinesMean(lines: seq<bytes>, last: bytes)
    requires (forall i :: 0 <= i < |lines| ==> NEWLINE !in lines[i]) && NEWLINE !in last
    ensures Lines(Terminated(lines) + last) == if last == [] then lines else lines + [last]
  {
    SplitTerminated(lines, last);
    assert (lines + [last])[..|lines|] == lines;
  }

  lemma {:induction false} MakeRowAt(names: seq<string>, values: seq<Value>, k: nat)
    requires |names| == |values| && Distinct(names) && k < |names|
    ensures names[k] in MakeRow(names, values) && MakeRow(names, values)[names[k]] == values[k]
  {
    if k > 0 {
      assert forall i :: 0 <= i < |names| - 1 ==> names[1..][i] == names[i + 1];
      MakeRowAt(names[1..], values[1..], k - 1);
    }
  }

  /** One staged row for one line: its fields by position. */
  ghost predicate RowOfLine(c: Codec, names: seq<string>, line: bytes, row: Row) {
    && c.decodeRow(line).Some? && |c.decodeRow(line).value| == |names|
    && forall k :: 0 <= k < |names| ==> names[k] in row && row[names[k]] == c.decodeRow(line).value[k]
  }

  /** COPY FROM succeeds exactly when every line decodes into one value for each column,
      and stages one row for each line. */
  lemma {:induction false} LoadMeans(c: Codec, names: seq<string>, lines: seq<bytes>)
    requires Distinct(names)
    ensures var out := Load(c, names, lines);
            && (out.Some? <==> forall i :: 0 <= i < |lines| ==>
                  c.decodeRow(lines[i]).Some? && |c.decodeRow(lines[i]).value| == |names|)
            && (out.Some? ==> |out.value| == |lines| && forall i :: 0 <= i < |lines| ==> RowOfLine(c, names, lines[i], out.value[i]))
  {
    if lines != [] {
      LoadMeans(c, names, lines[1..]);
      assert forall i :: 0 <= i < |lines| - 1 ==> lines[1..][i] == lines[i + 1];
      var first := c.decodeRow(lines[0]);
      if first.Some? && |first.value| == |names| {
        forall k | 0 <= k < |names| ensures names[k] in MakeRow(names, first.value) && MakeRow(names, first.value)[names[k]] == first.value[k] {
          MakeRowAt(names, first.value, k);
        }
        if Load(c, names, lines[1..]).Some? {
          var more := Load(c, names, lines[1..]).value;
          assert forall i :: 1 <= i < |lines| ==> ([MakeRow(names, first.value)] + more)[i] == more[i - 1];
        }
      } else {
        assert !(c.decodeRow(lines[0]).Some? && |c.decodeRow(lines[0]).value| == |names|);
      }
      if Load(c, names, lines[1..]).None? {
        var i :| 0 <= i < |lines| - 1 && !(c.decodeRow(lines[1..][i]).Some? && |c.decodeRow(lines[1..][i]).value| == |names|);
        assert lines[i + 1] == lines[1..][i];
      }
    }
  }

  /** COPY out, then COPY in, gives the rows back. */
  lemma LoadInvertsCopy(c: Codec, names: seq<string>, rows: seq<Row>)
    requires c.Lawful() && names != []
    requires forall i :: 0 <= i < |rows| ==> rows[i].Keys == ToSet(names)
    ensures Load(c, names, Lines(CopyText(c, names, rows))) == Some(rows)
  {
    LinesOfCopyText(c, names, rows);
    LoadEncoded(c, names, rows);
  }

  // ------------------------------------------------------------- sequences

  /** SELECT MAX(col): NULLs do not count. */
  function MaxNumber(c: Codec, rows: seq<Row>, col: string): Option<int> {
    if rows == [] then None
    else
      var v, more := Get(rows[0], col), MaxNumber(c, rows[1..], col);
      if v == Null then more
      else if more.None? || more.value < c.number(v) then Some(c.number(v))
      else more
  }

  /** GREATEST(COALESCE(MAX(col), 0), 1). */
  function SequenceValue(c: Codec, rows: seq<Row>, col: string): int {
    var m := MaxNumber(c, rows, col);
    var top := if m.None? then 0 else m.value;
    if top > 1 then top else 1
  }

  function ResetSequences(c: Codec, columns: seq<Column>, rows: seq<Row>, sequences: map<string, int>): map<string, int> {
    if columns == [] then sequences
    else
      var col := columns[|columns| - 1];
      var before := ResetSequences(c, columns[..|columns| - 1], rows, sequences);
      if col.serial then before[col.name := SequenceValue(c, rows, col.name)] else before
  }

  lemma {:induction false} SequenceCoversRow(c: Codec, rows: seq<Row>, col: string, row: Row)
    requires row in rows && Get(row, col) != Null
    ensures MaxNumber(c, rows, col).Some? && c.number(Get(row, col)) <= MaxNumber(c, rows, col).value
  {
    if row in rows[1..] {
      SequenceCoversRow(c, rows[1..], col, row);
    } else {
      assert row == rows[0];
    }
  }

  /** The next value drawn from any reset sequence is above every value in its
      column, so later inserts do not collide with restored rows. */
  lemma {:induction false} SequencesPastRows(c: Codec, columns: seq<Column>, rows: seq<Row>, sequences: map<string, int>)
    ensures forall col, row :: col in columns && col.serial && row in rows && Get(row, col.name) != Null ==>
              && col.name in ResetSequences(c, columns, rows, sequences)
              && c.number(Get(row, col.name)) < ResetSequences(c, columns, rows, sequences)[col.name] + 1
    ensures forall col :: col in columns && col.serial ==>
              && col.name in ResetSequences(c, columns, rows, sequences)
              && ResetSequences(c, columns, rows, sequences)[col.name] == SequenceValue(c, rows, col.name)
  {
    if columns != [] {
      SequencesPastRows(c, columns[..|columns| - 1], rows, sequences);
    }
    forall col, row | col in columns && col.serial && row in rows && Get(row, col.name) != Null
      ensures c.number(Get(row, col.name)) < SequenceValue(c, rows, col.name) + 1
    {
      SequenceCoversRow(c, rows, col.name, row);
    }
  }

  // ------------------------------------------------------ applying one table

  datatype Note = NoNote | NotPresent | NoOverlap | NoUsableKey
  datatype TableResult = TableResult(table: string, rows: nat, deleted: nat, skipped: bool, note: Note)

  function InsertAll(p: Plan, stg: seq<Row>): (out: seq<Row>)
    ensures |out| == |stg|
  {
    seq(|stg|, i requires 0 <= i < |stg| => p.Inserted(stg[i]))
  }

  /** merge: the statements for one table, by mode and usable key. ON CONFLICT on part
      of the live key names no unique index and fails. */
  function MergeTable(live: Table, p: Plan, stg: seq<Row>, mode: Mode, tr: TableResult): Option<(seq<Row>, TableResult)> {
    if p.pk == [] then
      if mode == FullSync then
        var rows := InsertAll(p, stg);
        if KeyHolds(rows, live.meta.pk) then Some((rows, tr.(rows := |stg|))) else None
      else
        Some((live.rows, tr.(skipped := true, note := NoUsableKey)))
    else if exists x :: x in live.meta.pk && x !in p.pk then None
    else
      match Upsert(p, live.rows, stg)
      case None => None
      case Some(now) =>
        var upserted := tr.(rows := if p.sets == [] then |now| - |live.rows| else |stg|);
        if mode == FullSync then
          var kept := Sweep(now, stg, p.pk);
          Some((kept, upserted.(deleted := |now| - |kept|)))
        else
          Some((now, upserted))
  }

  datatype Applied = Applied(db: Database, result: TableResult)

  /** introspect finds the table. */
  predicate Present(db: Database, name: string) {
    name in db && db[name].meta.columns != []
  }

  /** CREATE TEMP TABLE with the dumped columns works. */
  predicate Stageable(tm: TableMeta) {
    tm.columns != [] && Distinct(tm.ColNames())
  }

  /** What one table's decoded stream does to the database. */
  function ApplyTable(c: Codec, tm: TableMeta, data: bytes, db: Database, mode: Mode): Outcome<Applied> {
    var tr := TableResult(tm.name, 0, 0, false, NoNote);
    if !Present(db, tm.name) then Ok(Applied(db, tr.(skipped := true, note := NotPresent)))
    else if !Stageable(tm) then Err(Staging)
    else
      match Load(c, tm.ColNames(), Lines(data))
      case None => Err(Copy)
      case Some(stg) =>
        var live := db[tm.name];
        var p := PlanFor(live, tm.ColNames());
        if p.cols == [] then Ok(Applied(db, tr.(skipped := true, note := NoOverlap)))
        else
          match MergeTable(live, p, stg, mode, tr)
          case None => Err(Apply)
          case Some((rows, tr')) =>
            var sequences := ResetSequences(c, live.meta.columns, rows, live.sequences);
            Ok(Applied(db[tm.name := live.(rows := rows, sequences := sequences)], tr'))
  }

  /** Every table that is applied ends with its sequences ahead of its rows. */
  lemma AppliedSequencesAhead(c: Codec, tm: TableMeta, data: bytes, db: Database, mode: Mode)
    requires ApplyTable(c, tm, data, db, mode).Ok?
    ensures var a := ApplyTable(c, tm, data, db, mode).v;
            a.result.note != NotPresent && a.result.note != NoOverlap ==>
              && tm.name in a.db
              && var t := a.db[tm.name];
                 forall col, row :: col in t.meta.columns && col.serial && row in t.rows && Get(row, col.name) != Null ==>
                   col.name in t.sequences && c.number(Get(row, col.name)) < t.sequences[col.name] + 1
  {
    if Present(db, tm.name) && tm.name in ApplyTable(c, tm, data, db, mode).v.db {
      var t := ApplyTable(c, tm, data, db, mode).v.db[tm.name];
      SequencesPastRows(c, t.meta.columns, t.rows, db[tm.name].sequences);
    }
  }

  /** Only the sequences of serial columns are touched. */
  lemma {:induction false} OtherSequencesStay(c: Codec, columns: seq<Column>, rows: seq<Row>, sequences: map<string, int>, name: string)
    requires forall col :: col in columns && col.serial ==> col.name != name
    ensures var now := ResetSequences(c, columns, rows, sequences);
            (name in now <==> name in sequences) && (name in now ==> now[name] == sequences[name])
  {
    if columns != [] {
      OtherSequencesStay(c, columns[..|columns| - 1], rows, sequences, name);
      assert columns[|columns| - 1] in columns;
    }
  }

  lemma {:induction false} SequenceValueBelow(c: Codec, rows: seq<Row>, col: string, old_: int)
    ensures MaxNumber(c, rows, col).Some? && MaxNumber(c, rows, col).value >= old_ <==>
              exists row :: row in rows && Get(row, col) != Null && c.number(Get(row, col)) >= old_
  {
    if rows != [] {
      SequenceValueBelow(c, rows[1..], col, old_);
      assert forall row :: row in rows <==> row == rows[0] || row in rows[1..];
    }
  }

  /** setval is not monotone: the sequence of a serial column moves back exactly when it had
      run ahead of 1 and of every value in the column (rows deleted since). */
  lemma SequenceMayRewind(c: Codec, columns: seq<Column>, rows: seq<Row>, sequences: map<string, int>, col: Column)
    requires col in columns && col.serial && col.name in sequences
    ensures var now := ResetSequences(c, columns, rows, sequences);
            && col.name in now
            && (now[col.name] < sequences[col.name] <==>
                  && sequences[col.name] > 1
                  && forall row :: row in rows && Get(row, col.name) != Null ==> c.number(Get(row, col.name)) < sequences[col.name])
  {
    SequencesPastRows(c, columns, rows, sequences);
    SequenceValueBelow(c, rows, col.name, sequences[col.name]);
  }

  /** A sequence at 10 over a column whose largest value is 3. */
  lemma RewoundSequence(c: Codec)
    requires c.number(Text([51])) == 3
    ensures ResetSequences(c, [Column("id", "bigint", true)], [map["id" := Text([51])]], map["id" := 10]) == map["id" := 3]
  {
    var rows: seq<Row> := [map["id" := Text([51])]];
    assert rows[1..] == [];
    assert MaxNumber(c, rows, "id") == Some(3);
    var cols := [Column("id", "bigint", true)];
    assert cols[..0] == [];
  }

  /** restoreTable on a byte stream: a missing table is drained, any other is loaded;
      the result also holds what is left of the stream. */
  function RestoreTable(c: Codec, tm: TableMeta, s: bytes, db: Database, mode: Mode): Outcome<(Applied, bytes)> {
    if Present(db, tm.name) && !Stageable(tm) then Err(Staging)
    else
      match TakeTable(s)
      case Broken(_, e) => Err(if Present(db, tm.name) then Copy else Read(e))
      case Ended(data, rest) =>
        match ApplyTable(c, tm, data, db, mode)
        case Err(f) => Err(f)
        case Ok(a) => Ok((a, rest))
  }

  // ------------------------------------------------------------ whole archive

  datatype Progress = Progress(db: Database, results: seq<TableResult>, rest: bytes)

  /** The table loop of Restore: reading and applying interleave. */
  function RestoreTables(c: Codec, metas: seq<TableMeta>, s: bytes, db: Database, mode: Mode): Outcome<Progress> {
    if metas == [] then Ok(Progress(db, [], s))
    else
      match RestoreTables(c, metas[..|metas| - 1], s, db, mode)
      case Err(f) => Err(f)
      case Ok(before) =>
        match RestoreTable(c, metas[|metas| - 1], before.rest, before.db, mode)
        case Err(f) => Err(f)
        case Ok((a, rest)) => Ok(Progress(a.db, before.results + [a.result], rest))
  }

  /** readHeader. */
  function TakeHeader(c: Codec, s: bytes): Outcome<(Manifest, bytes)> {
    if |s| < 8 then Err(Read(ShortRead(s)))
    else if s[..8] != MAGIC then Err(BadMagic)
    else
      match TakeBlock(s[8..])
      case NoBlock(e) => Err(Read(e))
      case Got(b, rest) =>
        match c.unmarshal(b)
        case None => Err(BadManifest)
        case Some(m) => Ok((m, rest))
  }

  /** The stream begins with the eight bytes TNGSQLD1 and a block holding a manifest. */
  ghost predicate BeginsWith(c: Codec, s: bytes, b: bytes, rest: bytes) {
    s == [84, 78, 71, 83, 81, 76, 68, 49] + U32(|b|) + b + rest && |b| <= 0x1000_0000 && c.unmarshal(b).Some?
  }

  /** Which streams have a header, and what is read of it. */
  lemma HeaderMeans(c: Codec, s: bytes)
    ensures TakeHeader(c, s).Ok? <==> exists b, rest :: BeginsWith(c, s, b, rest)
    ensures forall b, rest :: BeginsWith(c, s, b, rest) ==> TakeHeader(c, s) == Ok((c.unmarshal(b).value, rest))
    ensures |s| >= 8 && s[..8] != [84, 78, 71, 83, 81, 76, 68, 49] ==> TakeHeader(c, s) == Err(BadMagic)
    ensures |s| < 8 ==> TakeHeader(c, s).Err? && TakeHeader(c, s).fault.Read?
  {
    forall b, rest | BeginsWith(c, s, b, rest) ensures TakeHeader(c, s) == Ok((c.unmarshal(b).value, rest)) {
      assert s[..8] == MAGIC && s[8..] == U32(|b|) + b + rest;
      BlockReads(s[8..], b, rest);
    }
    if TakeHeader(c, s).Ok? {
      var found := TakeBlock(s[8..]);
      BlockReads(s[8..], found.data, found.rest);
      assert s == s[..8] + s[8..];
      assert BeginsWith(c, s, found.data, found.rest);
    }
  }

  type Extras = map<string, bytes>

  /** The extras loop of Restore. */
  function TakeExtras(names: seq<string>, s: bytes): Outcome<(Extras, bytes)> {
    if names == [] then Ok((map[], s))
    else
      match TakeExtras(names[..|names| - 1], s)
      case Err(f) => Err(f)
      case Ok((extras, rest)) =>
        match TakeBlock(rest)
        case NoBlock(e) => Err(Read(e))
        case Got(b, rest') => Ok((extras[names[|names| - 1] := b], rest'))
  }

  datatype Restored = Restored(manifest: Manifest, db: Database, results: seq<TableResult>, extras: Extras, rest: bytes)

  /** Restore as a function of the stream and the database. */
  function RestoreArchive(c: Codec, s: bytes, db: Database, mode: Mode): Outcome<Restored> {
    match TakeHeader(c, s)
    case Err(f) => Err(f)
    case Ok((m, s1)) =>
      match RestoreTables(c, m.tables, s1, db, mode)
      case Err(f) => Err(f)
      case Ok(p) =>
        match TakeExtras(m.extras, p.rest)
        case Err(f) => Err(f)
        case Ok((extras, rest)) => Ok(Restored(m, p.db, p.results, extras, rest))
  }

  // ------------------------------------------------------- the stateful code

  class Server {
    var tables: Database

    constructor (tables: Database)
      ensures this.tables == tables
    {
      this.tables := tables;
    }
  }

  method ReadHeader(c: Codec, r: Source) returns (out: Outcome<Manifest>)
    requires r.Valid()
    modifies r
    ensures r.Valid()
    ensures match TakeHeader(c, old(r.Rest()))
            case Err(f) => out == Err(f)
            case Ok((m, rest)) => out == Ok(m) && r.Rest() == rest
  {
    var got, e := r.ReadFull(8);
    if e != None {
      return Err(Read(e.value));
    }
    if got != MAGIC {
      return Err(BadMagic);
    }
    var b, e2 := ReadBlock(r);
    if e2 != None {
      return Err(Read(e2.value));
    }
    match c.unmarshal(b) {
      case None => out := Err(BadManifest);
      case Some(m) => out := Ok(m);
    }
  }

  method ResetSequencesLoop(c: Codec, columns: seq<Column>, rows: seq<Row>, sequences: map<string, int>)
    returns (out: map<string, int>)
    ensures out == ResetSequences(c, columns, rows, sequences)
  {
    out := sequences;
    for i := 0 to |columns|
      invariant out == ResetSequences(c, columns[..i], rows, sequences)
    {
      assert columns[..i + 1][..i] == columns[..i];
      if columns[i].serial {
        out := out[columns[i].name := SequenceValue(c, rows, columns[i].name)];
      }
    }
    assert columns[..|columns|] == columns;
  }

  /** restoreTable against the live stream; tx is the transaction's view. */
  method RestoreOneTable(c: Codec, tm: TableMeta, r: Source, tx: Database, mode: Mode) returns (out: Outcome<Applied>)
    requires r.Valid()
    modifies r
    ensures r.Valid()
    ensures match RestoreTable(c, tm, old(r.Rest()), tx, mode)
            case Err(f) => out == Err(f)
            case Ok((a, rest)) => out == Ok(a) && r.Rest() == rest
    ensures out.Ok? ==> out.v.result.table == tm.name
  {
    var tr := TableResult(tm.name, 0, 0, false, NoNote);
    var cr := new ChunkReader(r);
    if !Present(tx, tm.name) {
      var e := cr.Drain();
      if e.Some? {
        return Err(Read(e.value));
      }
      return Ok(Applied(tx, tr.(skipped := true, note := NotPresent)));
    }
    if !Stageable(tm) {
      return Err(Staging);
    }
    var data, e := cr.ReadAll();
    if e != EOF {
      return Err(Copy);
    }
    out := ApplyLoaded(c, tm, data, tx, mode);
  }

  /** The column lists of one table's statements. */
  method BuildPlan(live: Table, dumped: seq<string>) returns (p: Plan)
    ensures p == PlanFor(live, dumped)
  {
    var cols := Intersect(dumped, live.meta.ColNames());
    var pk := Intersect(live.meta.pk, cols);
    var sets := Diff(cols, pk);
    p := Plan(live.meta.ColNames(), live.defaults, cols, pk, sets);
  }

  /** The rest of restoreTable, once the stream has been read. */
  method ApplyLoaded(c: Codec, tm: TableMeta, data: bytes, tx: Database, mode: Mode) returns (out: Outcome<Applied>)
    requires Present(tx, tm.name) && Stageable(tm)
    ensures out == ApplyTable(c, tm, data, tx, mode)
    ensures out.Ok? ==> out.v.result.table == tm.name
  {
    var tr := TableResult(tm.name, 0, 0, false, NoNote);
    var loaded := Load(c, tm.ColNames(), Lines(data));
    if loaded.None? {
      return Err(Copy);
    }
    var live := tx[tm.name];
    var p := BuildPlan(live, tm.ColNames());
    if p.cols == [] {
      return Ok(Applied(tx, tr.(skipped := true, note := NoOverlap)));
    }
    var merged := MergeTable(live, p, loaded.value, mode, tr);
    if merged.None? {
      return Err(Apply);
    }
    var sequences := ResetSequencesLoop(c, live.meta.columns, merged.value.0, live.sequences);
    return Ok(Applied(tx[tm.name := live.(rows := merged.value.0, sequences := sequences)], merged.value.1));
  }

  lemma {:induction false} TableFaultStays(c: Codec, metas: seq<TableMeta>, i: nat, s: bytes, db: Database, mode: Mode)
    requires i <= |metas| && RestoreTables(c, metas[..i], s, db, mode).Err?
    ensures RestoreTables(c, metas, s, db, mode) == RestoreTables(c, metas[..i], s, db, mode)
    decreases |metas|
  {
    if i == |metas| {
      assert metas[..i] == metas;
    } else {
      var front := metas[..|metas| - 1];
      assert front[..i] == metas[..i];
      TableFaultStays(c, front, i, s, db, mode);
    }
  }

  lemma {:induction false} ExtraFaultStays(names: seq<string>, i: nat, s: bytes)
    requires i <= |names| && TakeExtras(names[..i], s).Err?
    ensures TakeExtras(names, s) == TakeExtras(names[..i], s)
    decreases |names|
  {
    if i == |names| {
      assert names[..i] == names;
    } else {
      var front := names[..|names| - 1];
      assert front[..i] == names[..i];
      ExtraFaultStays(front, i, s);
    }
  }

  method RestoreAllTables(c: Codec, metas: seq<TableMeta>, r: Source, db: Database, mode: Mode)
    returns (out: Outcome<(Database, seq<TableResult>)>, warnings: seq<(string, Note)>)
    requires r.Valid()
    modifies r
    ensures r.Valid()
    ensures match RestoreTables(c, metas, old(r.Rest()), db, mode)
            case Err(f) => out == Err(f)
            case Ok(p) => out == Ok((p.db, p.results)) && r.Rest() == p.rest && warnings == Warnings(p.results)
  {
    ghost var s := r.Rest();
    var tx, results := db, [];
    warnings := [];
    for i := 0 to |metas|
      invariant r.Valid()
      invariant RestoreTables(c, metas[..i], s, db, mode) == Ok(Progress(tx, results, r.Rest()))
      invariant warnings == Warnings(results)
    {
      assert metas[..i + 1][..i] == metas[..i] && metas[..i + 1][i] == metas[i];
      var a := RestoreOneTable(c, metas[i], r, tx, mode);
      if a.Err? {
        TableFaultStays(c, metas, i + 1, s, db, mode);
        return Err(a.fault), [];
      }
      tx := a.v.db;
      assert (results + [a.v.result])[..|results|] == results;
      results := results + [a.v.result];
      if a.v.result.note != NoNote {
        warnings := warnings + [(metas[i].name, a.v.result.note)];
      }
    }
    assert metas[..|metas|] == metas;
    out := Ok((tx, results));
  }

  function Warnings(results: seq<TableResult>): seq<(string, Note)> {
    if results == [] then []
    else
      var tr := results[|results| - 1];
      Warnings(results[..|results| - 1]) + if tr.note != NoNote then [(tr.table, tr.note)] else []
  }

  function Noted(results: seq<TableResult>): seq<TableResult> {
    Filter(results, (tr: TableResult) => tr.note != NoNote)
  }

  /** One warning per table with a note, in order. */
  lemma {:induction false} WarningsMean(results: seq<TableResult>)
    ensures |Warnings(results)| == |Noted(results)|
    ensures forall i :: 0 <= i < |Noted(results)| ==> Warnings(results)[i] == (Noted(results)[i].table, Noted(results)[i].note)
  {
    if results != [] {
      var front, last := results[..|results| - 1], results[|results| - 1];
      WarningsMean(front);
      assert results == front + [last];
      FilterAppend(front, [last], (tr: TableResult) => tr.note != NoNote);
    }
  }

  method ReadExtras(names: seq<string>, r: Source) returns (out: Outcome<Extras>)
    requires r.Valid()
    modifies r
    ensures r.Valid()
    ensures match TakeExtras(names, old(r.Rest()))
            case Err(f) => out == Err(f)
            case Ok((extras, rest)) => out == Ok(extras) && r.Rest() == rest
  {
    ghost var s := r.Rest();
    var extras: Extras := map[];
    for i := 0 to |names|
      invariant r.Valid()
      invariant TakeExtras(names[..i], s) == Ok((extras, r.Rest()))
    {
      assert names[..i + 1][..i] == names[..i] && names[..i + 1][i] == names[i];
      var b, e := ReadBlock(r);
      if e.Some? {
        ExtraFaultStays(names, i + 1, s);
        return Err(Read(e.value));
      }
      extras := extras[names[i] := b];
    }
    assert names[..|names|] == names;
    out := Ok(extras);
  }

  datatype Report = Report(mode: Mode, results: seq<TableResult>, warnings: seq<(string, Note)>, extras: Extras)

  /** Restore over a stateful reader and a live server. The transaction works on a copy
      that is stored back by the commit; every error path drops it. */
  method Restore(c: Codec, r: Source, db: Server, mode: Mode, begins: bool, commits: bool) returns (out: Outcome<Report>)
    requires r.Valid()
    modifies r, db
    ensures out.Err? ==> db.tables == old(db.tables)
    ensures out.Ok? <==> begins && commits && RestoreArchive(c, old(r.Rest()), old(db.tables), mode).Ok?
    ensures out.Ok? ==>
              var done := RestoreArchive(c, old(r.Rest()), old(db.tables), mode).v;
              && db.tables == done.db && r.Valid() && r.Rest() == done.rest
              && out.v == Report(mode, done.results, Warnings(done.results), done.extras)
    ensures begins && commits && out.Err? ==> out.fault == RestoreArchive(c, old(r.Rest()), old(db.tables), mode).fault
  {
    var m := ReadHeader(c, r);
    if m.Err? {
      return Err(m.fault);
    }
    if !begins {
      return Err(Connect);
    }
    var tx, warnings := RestoreAllTables(c, m.v.tables, r, db.tables, mode);
    if tx.Err? {
      return Err(tx.fault);
    }
    var extras := ReadExtras(m.v.extras, r);
    if extras.Err? {
      return Err(extras.fault);
    }
    if !commits {
      return Err(Commit);
    }
    db.tables := tx.v.0;
    return Ok(Report(mode, tx.v.1, warnings, extras.v));
  }
}
