/** The relational half of a restore (backup/sqldump/restore.go): what the generated
    INSERT ... ON CONFLICT and DELETE ... NOT IN statements do to a table.

    Rows are kept in a sequence whose order means nothing; NULL follows SQL: it
    never conflicts, and comparing with it is neither equal nor different. */
module Tables {
  import opened Bytes
  import opened Seqs

  datatype Value = Null | Text(t: bytes)
  type Row = map<string, Value>

  datatype Column = Column(name: string, typ: string, serial: bool)
  datatype TableMeta = TableMeta(name: string, columns: seq<Column>, pk: seq<string>)
  {
    function ColNames(): (names: seq<string>)
      ensures |names| == |columns|
    {
      seq(|columns|, i requires 0 <= i < |columns| => columns[i].name)
    }
  }

  datatype Table = Table(meta: TableMeta, defaults: map<string, Value>, rows: seq<Row>, sequences: map<string, int>)

  datatype Mode = Merge | FullSync

  function Get(row: Row, c: string): Value {
    if c in row then row[c] else Null
  }

  function Key(row: Row, pk: seq<string>): (k: seq<Value>)
    ensures |k| == |pk|
  {
    seq(|pk|, i requires 0 <= i < |pk| => Get(row, pk[i]))
  }

  /** The unique index sees the same key: equal and non-null in every key column. */
  predicate SameKey(a: Row, b: Row, pk: seq<string>) {
    Null !in Key(a, pk) && Key(a, pk) == Key(b, pk)
  }

  /** The tuple comparison a <> b is true, not merely unknown. */
  predicate Differs(a: seq<Value>, b: seq<Value>) {
    exists i :: 0 <= i < |a| && i < |b| && a[i] != Null && b[i] != Null && a[i] != b[i]
  }

  /** No two rows collide in the unique index. */
  predicate NoRepeats(rows: seq<Row>, pk: seq<string>) {
    forall i, j :: 0 <= i < j < |rows| ==> !SameKey(rows[i], rows[j], pk)
  }

  predicate KeyHolds(rows: seq<Row>, pk: seq<string>) {
    pk == [] || NoRepeats(rows, pk)
  }

  // ------------------------------------------------------------- set helpers

  method Intersect(a: seq<string>, b: seq<string>) returns (out: seq<string>)
    ensures out == Filter(a, x => x in b)
    ensures ToSet(out) == ToSet(a) * ToSet(b)
  {
    var present: set<string> := {};
    for i := 0 to |b|
      invariant present == ToSet(b[..i])
    {
      present := present + {b[i]};
    }
    assert b[..|b|] == b;
    out := [];
    for i := 0 to |a|
      invariant out == Filter(a[..i], x => x in b)
    {
      assert a[..i + 1] == a[..i] + [a[i]];
      FilterAppend(a[..i], [a[i]], x => x in b);
      if a[i] in present {
        out := out + [a[i]];
      }
    }
    assert a[..|a|] == a;
    FilterMembers(a, x => x in b);
  }

  method Diff(a: seq<string>, remove: seq<string>) returns (out: seq<string>)
    ensures out == Filter(a, x => x !in remove)
    ensures ToSet(out) == ToSet(a) - ToSet(remove)
  {
    var gone: set<string> := {};
    for i := 0 to |remove|
      invariant gone == ToSet(remove[..i])
    {
      gone := gone + {remove[i]};
    }
    assert remove[..|remove|] == remove;
    out := [];
    for i := 0 to |a|
      invariant out == Filter(a[..i], x => x !in remove)
    {
      assert a[..i + 1] == a[..i] + [a[i]];
      FilterAppend(a[..i], [a[i]], x => x !in remove);
      if a[i] !in gone {
        out := out + [a[i]];
      }
    }
    assert a[..|a|] == a;
    FilterMembers(a, x => x !in remove);
  }

  /** One statement's view of a table: the columns it names (cols), the conflict
      target (pk) and the SET list (sets). */
  datatype Plan = Plan(names: seq<string>, defaults: map<string, Value>, cols: seq<string>, pk: seq<string>, sets: seq<string>)
  {
    /** Conflict target and SET list split the shared columns between them. */
    ghost predicate Valid() {
      && ToSet(cols) <= ToSet(names)
      && ToSet(sets) == ToSet(cols) - ToSet(pk)
      && ToSet(pk) <= ToSet(cols)
      && pk != []
    }

    /** What INSERT stores for a staged row. */
    function Inserted(s: Row): Row {
      map c | c in names :: if c in cols then Get(s, c) else Get(defaults, c)
    }

    /** What DO UPDATE SET makes of a live row. */
    function Updated(r: Row, s: Row): Row {
      map c | c in r :: if c in sets then Get(s, c) else r[c]
    }
  }

  /** The plan merge builds for a live table: shared columns in dump order, the live
      key as far as it is shared, and the rest in the SET list. */
  function PlanFor(live: Table, dumped: seq<string>): Plan {
    var names := live.meta.ColNames();
    var cols := Filter(dumped, x => x in names);
    var pk := Filter(live.meta.pk, x => x in cols);
    Plan(names, live.defaults, cols, pk, Filter(cols, x => x !in pk))
  }

  lemma PlanPartitions(live: Table, dumped: seq<string>)
    ensures var p := PlanFor(live, dumped);
            && ToSet(p.cols) == ToSet(dumped) * ToSet(p.names)
            && ToSet(p.pk) == ToSet(live.meta.pk) * ToSet(p.cols)
            && ToSet(p.sets) !! ToSet(p.pk)
            && ToSet(p.sets) + ToSet(p.pk) == ToSet(p.cols)
            && (p.pk != [] ==> p.Valid())
  {
    var p := PlanFor(live, dumped);
    FilterMembers(dumped, x => x in p.names);
    FilterMembers(live.meta.pk, x => x in p.cols);
    FilterMembers(p.cols, x => x !in p.pk);
  }

  // ------------------------------------------------------- row-by-row upsert

  /** Index of the row that s collides with, or |rows|. */
  function Match(rows: seq<Row>, s: Row, pk: seq<string>): (i: nat)
    ensures i <= |rows|
    ensures i < |rows| ==> SameKey(rows[i], s, pk)
    ensures forall j :: 0 <= j < i ==> !SameKey(rows[j], s, pk)
  {
    if rows == [] || SameKey(rows[0], s, pk) then 0
    else
      var i := Match(rows[1..], s, pk);
      assert forall j :: 1 <= j < |rows| ==> rows[j] == rows[1..][j - 1];
      i + 1
  }

  /** One row of INSERT ... ON CONFLICT. An empty SET list is DO NOTHING; DO UPDATE
      fails when it meets a row that the same statement put there. */
  function UpsertOne(p: Plan, now: seq<Row>, s: Row, repeated: bool): Option<seq<Row>> {
    var i := Match(now, s, p.pk);
    if i == |now| then Some(now + [p.Inserted(s)])
    else if p.sets == [] then Some(now)
    else if repeated then None
    else Some(now[i := p.Updated(now[i], s)])
  }

  predicate Repeats(s: Row, before: seq<Row>, pk: seq<string>) {
    exists k :: 0 <= k < |before| && SameKey(before[k], s, pk)
  }

  /** INSERT ... SELECT ... ON CONFLICT, one staged row after the other. */
  function Upsert(p: Plan, rows: seq<Row>, stg: seq<Row>): (r: Option<seq<Row>>)
    ensures r.Some? ==> |rows| <= |r.value| <= |rows| + |stg|
  {
    if stg == [] then Some(rows)
    else
      var s, before := stg[|stg| - 1], stg[..|stg| - 1];
      match Upsert(p, rows, before)
      case None => None
      case Some(now) => UpsertOne(p, now, s, Repeats(s, before, p.pk))
  }

  // -------------------------------------------------- set-at-a-time reference

  /** A live row after the upsert, without looking at any other live row. */
  function Refresh(p: Plan, r: Row, stg: seq<Row>): Row {
    var k := Match(stg, r, p.pk);
    if k == |stg| then r else p.Updated(r, stg[k])
  }

  function Refreshed(p: Plan, rows: seq<Row>, stg: seq<Row>): (out: seq<Row>)
    ensures |out| == |rows|
  {
    seq(|rows|, i requires 0 <= i < |rows| => Refresh(p, rows[i], stg))
  }

  /** The staged rows that no live row collides with, as INSERT stores them. */
  function Fresh(p: Plan, rows: seq<Row>, stg: seq<Row>): (out: seq<Row>)
    ensures |out| <= |stg|
  {
    if stg == [] then []
    else
      var s := stg[|stg| - 1];
      Fresh(p, rows, stg[..|stg| - 1]) + if Match(rows, s, p.pk) == |rows| then [p.Inserted(s)] else []
  }

  /** Neither SET nor INSERT touches a key. */
  lemma KeyKept(p: Plan, r: Row, s: Row)
    requires p.Valid()
    ensures Key(p.Updated(r, s), p.pk) == Key(r, p.pk)
    ensures Key(p.Inserted(s), p.pk) == Key(s, p.pk)
  {
    forall c | c in p.pk
      ensures Get(p.Updated(r, s), c) == Get(r, c)
      ensures Get(p.Inserted(s), c) == Get(s, c)
    {
      assert c in ToSet(p.pk);
      assert c !in ToSet(p.sets);
      assert c in ToSet(p.cols) && c in ToSet(p.names);
    }
  }

  lemma {:induction false} FreshAvoids(p: Plan, rows: seq<Row>, stg: seq<Row>, s: Row)
    requires p.Valid()
    requires forall k :: 0 <= k < |stg| ==> !SameKey(stg[k], s, p.pk)
    ensures forall i :: 0 <= i < |Fresh(p, rows, stg)| ==> !SameKey(Fresh(p, rows, stg)[i], s, p.pk)
  {
    if stg != [] {
      FreshAvoids(p, rows, stg[..|stg| - 1], s);
      KeyKept(p, s, stg[|stg| - 1]);
    }
  }

  lemma RefreshKey(p: Plan, r: Row, stg: seq<Row>)
    requires p.Valid()
    ensures Key(Refresh(p, r, stg), p.pk) == Key(r, p.pk)
  {
  }

  /** After part of the staging set went in, a row with a new key collides with what
      it collided with in the original table. */
  lemma MatchAfterPart(p: Plan, rows: seq<Row>, done: seq<Row>, s: Row)
    requires p.Valid()
    requires forall k :: 0 <= k < |done| ==> !SameKey(done[k], s, p.pk)
    ensures var now := Refreshed(p, rows, done) + Fresh(p, rows, done);
            var i := Match(rows, s, p.pk);
            Match(now, s, p.pk) == if i < |rows| then i else |now|
  {
    forall i | 0 <= i < |rows|
      ensures Key(Refreshed(p, rows, done)[i], p.pk) == Key(rows[i], p.pk)
    {
      RefreshKey(p, rows[i], done);
    }
    FreshAvoids(p, rows, done, s);
    var now := Refreshed(p, rows, done) + Fresh(p, rows, done);
    assert forall i :: 0 <= i < |now| ==> SameKey(now[i], s, p.pk) == (i < |rows| && SameKey(rows[i], s, p.pk));
  }

  lemma RefreshOneMore(p: Plan, r: Row, done: seq<Row>, s: Row)
    requires p.Valid()
    requires forall k :: 0 <= k < |done| ==> !SameKey(done[k], s, p.pk)
    ensures Refresh(p, r, done + [s]) == if SameKey(r, s, p.pk) then p.Updated(r, s) else Refresh(p, r, done)
    ensures SameKey(r, s, p.pk) ==> Refresh(p, r, done) == r
  {
    var all := done + [s];
    var k := Match(done, r, p.pk);
    if k < |done| {
      assert all[k] == done[k];
      assert forall j :: 0 <= j < k ==> all[j] == done[j];
      assert Match(all, r, p.pk) == k;
    } else {
      assert forall j :: 0 <= j < |done| ==> all[j] == done[j];
      assert all[|done|] == s;
      assert Match(all, r, p.pk) == if SameKey(s, r, p.pk) then |done| else |all|;
    }
  }

  lemma RefreshedOneMore(p: Plan, rows: seq<Row>, done: seq<Row>, s: Row)
    requires p.Valid() && NoRepeats(rows, p.pk)
    requires forall k :: 0 <= k < |done| ==> !SameKey(done[k], s, p.pk)
    ensures var i := Match(rows, s, p.pk);
            Refreshed(p, rows, done + [s]) ==
              if i == |rows| then Refreshed(p, rows, done)
              else Refreshed(p, rows, done)[i := p.Updated(Refreshed(p, rows, done)[i], s)]
  {
    var i := Match(rows, s, p.pk);
    var want := if i == |rows| then Refreshed(p, rows, done)
                else Refreshed(p, rows, done)[i := p.Updated(Refreshed(p, rows, done)[i], s)];
    forall j | 0 <= j < |rows|
      ensures Refreshed(p, rows, done + [s])[j] == want[j]
    {
      RefreshOneMore(p, rows[j], done, s);
      assert SameKey(rows[j], s, p.pk) <==> j == i;
    }
    assert Refreshed(p, rows, done + [s]) == want;
  }

  lemma UpsertOneInParts(p: Plan, kept: seq<Row>, extra: seq<Row>, s: Row, i: nat)
    requires i <= |kept|
    requires Match(kept + extra, s, p.pk) == if i < |kept| then i else |kept + extra|
    ensures UpsertOne(p, kept + extra, s, false) ==
            Some(if i == |kept| then kept + (extra + [p.Inserted(s)])
                 else kept[i := p.Updated(kept[i], s)] + extra)
  {
    if i == |kept| {
      assert kept + extra + [p.Inserted(s)] == kept + (extra + [p.Inserted(s)]);
    } else {
      assert (kept + extra)[i := p.Updated(kept[i], s)] == kept[i := p.Updated(kept[i], s)] + extra;
      if p.sets == [] {
        assert p.Updated(kept[i], s) == kept[i];
        assert kept[i := kept[i]] == kept;
      }
    }
  }

  lemma NoRepeatsFront(done: seq<Row>, s: Row, pk: seq<string>)
    ensures NoRepeats(done + [s], pk) <==> NoRepeats(done, pk) && !Repeats(s, done, pk)
  {
    var stg := done + [s];
    assert stg[|done|] == s && forall i :: 0 <= i < |done| ==> done[i] == stg[i];
    if NoRepeats(stg, pk) {
      assert forall i, j :: 0 <= i < j < |done| ==> !SameKey(stg[i], stg[j], pk);
      assert forall i :: 0 <= i < |done| ==> !SameKey(stg[i], stg[|done|], pk);
    }
  }

  /** Row by row equals set at a time: every live row is refreshed on its own, every
      staged row without a partner is appended. */
  lemma {:induction false} UpsertClosed(p: Plan, rows: seq<Row>, stg: seq<Row>)
    requires p.Valid() && NoRepeats(rows, p.pk) && NoRepeats(stg, p.pk)
    ensures Upsert(p, rows, stg) == Some(Refreshed(p, rows, stg) + Fresh(p, rows, stg))
    decreases |stg|
  {
    if stg == [] {
      assert Refreshed(p, rows, stg) + [] == rows;
    } else {
      var s, done := stg[|stg| - 1], stg[..|stg| - 1];
      assert NoRepeats(done, p.pk) && !Repeats(s, done, p.pk) by {
        assert stg == done + [s];
        NoRepeatsFront(done, s, p.pk);
      }
      var kept, extra := Refreshed(p, rows, done), Fresh(p, rows, done);
      var i := Match(rows, s, p.pk);
      assert Upsert(p, rows, stg) == UpsertOne(p, kept + extra, s, false) by {
        UpsertClosed(p, rows, done);
      }
      assert UpsertOne(p, kept + extra, s, false) ==
             Some(if i == |kept| then kept + (extra + [p.Inserted(s)])
                  else kept[i := p.Updated(kept[i], s)] + extra) by {
        MatchAfterPart(p, rows, done, s);
        UpsertOneInParts(p, kept, extra, s, i);
      }
      assert Refreshed(p, rows, stg) == if i == |kept| then kept else kept[i := p.Updated(kept[i], s)] by {
        RefreshedOneMore(p, rows, done, s);
        assert stg == done + [s];
      }
      assert Fresh(p, rows, stg) == if i == |kept| then extra + [p.Inserted(s)] else extra by {
        assert extra + [] == extra;
      }
    }
  }

  // ------------------------------------------------------ what MERGE achieves

  lemma KeyColumn(a: Row, b: Row, pk: seq<string>, c: string)
    requires Key(a, pk) == Key(b, pk) && c in pk
    ensures Get(a, c) == Get(b, c)
  {
    var i :| 0 <= i < |pk| && pk[i] == c;
    assert Key(a, pk)[i] == Key(b, pk)[i];
  }

  /** now carries the backup's value in every shared column it has. */
  ghost predicate Carries(p: Plan, now: Row, s: Row) {
    forall c :: c in now && c in p.cols ==> now[c] == Get(s, c)
  }

  lemma UpdatedCarries(p: Plan, r: Row, s: Row)
    requires p.Valid() && SameKey(r, s, p.pk)
    ensures Carries(p, p.Updated(r, s), s)
    ensures forall c :: c in r && c !in p.cols ==> p.Updated(r, s)[c] == r[c]
  {
    forall c | c in r && c in p.cols ensures p.Updated(r, s)[c] == Get(s, c) {
      assert c in ToSet(p.cols);
      if c !in p.sets {
        assert c !in ToSet(p.sets) && c in ToSet(p.pk);
        KeyColumn(r, s, p.pk, c);
      }
    }
    forall c | c in r && c !in p.cols ensures p.Updated(r, s)[c] == r[c] {
      assert c !in ToSet(p.cols) && c !in ToSet(p.sets);
    }
  }

  /** A staged row without partner, at place k. */
  predicate Lone(p: Plan, rows: seq<Row>, stg: seq<Row>, k: int) {
    0 <= k < |stg| && Match(rows, stg[k], p.pk) == |rows|
  }

  lemma {:induction false} FreshMembers(p: Plan, rows: seq<Row>, stg: seq<Row>)
    ensures forall k :: Lone(p, rows, stg, k) ==> p.Inserted(stg[k]) in Fresh(p, rows, stg)
    ensures forall x :: x in Fresh(p, rows, stg) ==> exists k :: Lone(p, rows, stg, k) && x == p.Inserted(stg[k])
  {
    if stg != [] {
      var n := |stg| - 1;
      var done := stg[..n];
      FreshMembers(p, rows, done);
      assert forall k :: 0 <= k < n ==> (Lone(p, rows, stg, k) <==> Lone(p, rows, done, k));
      forall x | x in Fresh(p, rows, stg) ensures exists k :: Lone(p, rows, stg, k) && x == p.Inserted(stg[k]) {
        if x in Fresh(p, rows, done) {
          var k :| Lone(p, rows, done, k) && x == p.Inserted(done[k]);
          assert Lone(p, rows, stg, k);
        } else {
          assert Lone(p, rows, stg, n);
        }
      }
    }
  }

  /** now is r with the backup's shared columns and its own others. */
  ghost predicate Overlaid(p: Plan, r: Row, s: Row, now: Row) {
    now.Keys == r.Keys && Carries(p, now, s) && forall c :: c in r && c !in p.cols ==> now[c] == r[c]
  }

  /** x is the backup's row s as inserted: all of the table's columns, the shared ones from
      the backup, the others with their defaults. */
  ghost predicate InsertedAs(p: Plan, s: Row, x: Row) {
    && x.Keys == ToSet(p.names)
    && forall c :: c in p.names ==> x[c] == if c in p.cols then Get(s, c) else Get(p.defaults, c)
  }

  lemma InsertedMeans(p: Plan, s: Row, x: Row)
    ensures InsertedAs(p, s, x) <==> x == p.Inserted(s)
  {
  }

  /** MERGE in the caller's terms: a live row whose key is not in the backup stays; one
      whose key is there takes the backup's shared columns and keeps its own others; the
      rest of the backup is appended with defaults. */
  ghost predicate Merged(p: Plan, rows: seq<Row>, stg: seq<Row>, now: seq<Row>) {
    && |rows| <= |now|
    && (forall i :: 0 <= i < |rows| ==>
          var k := Match(stg, rows[i], p.pk);
          if k == |stg| then now[i] == rows[i] else Overlaid(p, rows[i], stg[k], now[i]))
    && (forall x :: x in now[|rows|..] ==> exists k :: Lone(p, rows, stg, k) && InsertedAs(p, stg[k], x))
    && (forall k :: Lone(p, rows, stg, k) ==> exists x :: x in now[|rows|..] && InsertedAs(p, stg[k], x))
  }

  /** Row by row, the upsert merges. */
  lemma MergeEffect(p: Plan, rows: seq<Row>, stg: seq<Row>)
    requires p.Valid() && NoRepeats(rows, p.pk) && NoRepeats(stg, p.pk)
    ensures Upsert(p, rows, stg).Some?
    ensures Merged(p, rows, stg, Upsert(p, rows, stg).value)
  {
    assert Upsert(p, rows, stg) == Some(Refreshed(p, rows, stg) + Fresh(p, rows, stg)) by { UpsertClosed(p, rows, stg); }
    var now := Upsert(p, rows, stg).value;
    assert now[|rows|..] == Fresh(p, rows, stg);
    FreshMembers(p, rows, stg);
    forall x | x in now[|rows|..] ensures exists k :: Lone(p, rows, stg, k) && InsertedAs(p, stg[k], x) {
      var k :| Lone(p, rows, stg, k) && x == p.Inserted(stg[k]);
      InsertedMeans(p, stg[k], x);
    }
    forall k | Lone(p, rows, stg, k) ensures exists x :: x in now[|rows|..] && InsertedAs(p, stg[k], x) {
      InsertedMeans(p, stg[k], p.Inserted(stg[k]));
    }
    forall i | 0 <= i < |rows|
      ensures var k := Match(stg, rows[i], p.pk);
              if k == |stg| then now[i] == rows[i] else Overlaid(p, rows[i], stg[k], now[i])
    {
      assert now[i] == Refresh(p, rows[i], stg);
      var k := Match(stg, rows[i], p.pk);
      if k < |stg| { UpdatedCarries(p, rows[i], stg[k]); }
    }
  }

  lemma UpsertOneKeys(p: Plan, now: seq<Row>, s: Row, repeated: bool)
    requires p.Valid() && UpsertOne(p, now, s, repeated).Some?
    ensures var next := UpsertOne(p, now, s, repeated).value;
            && |now| <= |next| <= |now| + 1
            && (forall i :: 0 <= i < |now| ==> Key(next[i], p.pk) == Key(now[i], p.pk))
            && (|next| > |now| ==> Key(next[|now|], p.pk) == Key(s, p.pk) && Match(now, s, p.pk) == |now|)
            && (|next| == |now| ==> Match(now, s, p.pk) < |now|)
  {
    KeyKept(p, s, s);
    var i := Match(now, s, p.pk);
    if i < |now| { KeyKept(p, now[i], s); }
  }

  lemma OneKeepsNoRepeats(p: Plan, now: seq<Row>, s: Row, repeated: bool)
    requires p.Valid() && UpsertOne(p, now, s, repeated).Some? && NoRepeats(now, p.pk)
    ensures NoRepeats(UpsertOne(p, now, s, repeated).value, p.pk)
  {
    UpsertOneKeys(p, now, s, repeated);
  }

  lemma StaysMatched(p: Plan, now: seq<Row>, s: Row, repeated: bool, x: Row)
    requires p.Valid() && UpsertOne(p, now, s, repeated).Some?
    requires Match(now, x, p.pk) < |now| || (x == s && Null !in Key(s, p.pk))
    ensures Match(UpsertOne(p, now, s, repeated).value, x, p.pk) < |UpsertOne(p, now, s, repeated).value|
  {
    UpsertOneKeys(p, now, s, repeated);
    var next := UpsertOne(p, now, s, repeated).value;
    var i := Match(now, x, p.pk);
    assert SameKey(next[i], x, p.pk);
  }

  /** The upsert keeps the unique index intact and leaves every staged key in it. */
  lemma {:induction false} UpsertKeys(p: Plan, rows: seq<Row>, stg: seq<Row>)
    requires p.Valid() && NoRepeats(rows, p.pk) && Upsert(p, rows, stg).Some?
    ensures NoRepeats(Upsert(p, rows, stg).value, p.pk)
    ensures forall k :: 0 <= k < |stg| && Null !in Key(stg[k], p.pk) ==>
              Match(Upsert(p, rows, stg).value, stg[k], p.pk) < |Upsert(p, rows, stg).value|
    decreases |stg|
  {
    if stg != [] {
      var s, done := stg[|stg| - 1], stg[..|stg| - 1];
      UpsertKeys(p, rows, done);
      var now, next := Upsert(p, rows, done).value, Upsert(p, rows, stg).value;
      OneKeepsNoRepeats(p, now, s, Repeats(s, done, p.pk));
      forall k | 0 <= k < |stg| && Null !in Key(stg[k], p.pk)
        ensures Match(next, stg[k], p.pk) < |next|
      {
        assert k < |done| ==> stg[k] == done[k];
        StaysMatched(p, now, s, Repeats(s, done, p.pk), stg[k]);
      }
    }
  }

  /** The statement fails exactly when it would update a row twice. */
  lemma {:induction false} UpsertFails(p: Plan, rows: seq<Row>, stg: seq<Row>)
    requires p.Valid() && NoRepeats(rows, p.pk)
    ensures Upsert(p, rows, stg).None? <==> p.sets != [] && !NoRepeats(stg, p.pk)
    decreases |stg|
  {
    if stg != [] {
      var s, done := stg[|stg| - 1], stg[..|stg| - 1];
      UpsertFails(p, rows, done);
      NoRepeatsFront(done, s, p.pk);
      assert stg == done + [s];
      if Upsert(p, rows, done).Some? && Repeats(s, done, p.pk) {
        UpsertKeys(p, rows, done);
        var k :| 0 <= k < |done| && SameKey(done[k], s, p.pk);
        var now := Upsert(p, rows, done).value;
        assert SameKey(now[Match(now, done[k], p.pk)], s, p.pk);
      }
    }
  }

  lemma MatchedRowCarries(p: Plan, rows: seq<Row>, stg: seq<Row>, i: nat, k: nat)
    requires p.Valid() && NoRepeats(rows, p.pk) && NoRepeats(stg, p.pk)
    requires Upsert(p, rows, stg).Some?
    requires i < |Upsert(p, rows, stg).value| && k < |stg|
    requires SameKey(Upsert(p, rows, stg).value[i], stg[k], p.pk)
    ensures Carries(p, Upsert(p, rows, stg).value[i], stg[k])
  {
    UpsertClosed(p, rows, stg);
    var now := Upsert(p, rows, stg).value;
    if i < |rows| {
      RefreshKey(p, rows[i], stg);
      var j := Match(stg, rows[i], p.pk);
      assert j == k;
      assert now[i] == p.Updated(rows[i], stg[k]);
      UpdatedCarries(p, rows[i], stg[k]);
    } else {
      FreshMembers(p, rows, stg);
      assert now[i] in Fresh(p, rows, stg);
      var j :| Lone(p, rows, stg, j) && now[i] == p.Inserted(stg[j]);
      KeyKept(p, stg[j], stg[j]);
      assert j == k;
    }
  }

  lemma SecondPassRefreshes(p: Plan, rows: seq<Row>, stg: seq<Row>, now: seq<Row>)
    requires p.Valid() && NoRepeats(rows, p.pk) && NoRepeats(stg, p.pk)
    requires Upsert(p, rows, stg) == Some(now)
    ensures Refreshed(p, now, stg) == now
  {
    forall i | 0 <= i < |now| ensures Refresh(p, now[i], stg) == now[i] {
      var k := Match(stg, now[i], p.pk);
      if k < |stg| {
        MatchedRowCarries(p, rows, stg, i, k);
        assert forall c :: c in p.sets ==> c in ToSet(p.sets);
        assert forall c :: c in ToSet(p.cols) ==> c in p.cols;
        assert p.Updated(now[i], stg[k]) == now[i];
      }
    }
  }

  /** No staged key contains NULL. */
  ghost predicate WholeKeys(stg: seq<Row>, pk: seq<string>) {
    forall k :: 0 <= k < |stg| ==> Null !in Key(stg[k], pk)
  }

  lemma WholeKeysFront(done: seq<Row>, s: Row, pk: seq<string>)
    ensures WholeKeys(done + [s], pk) <==> WholeKeys(done, pk) && Null !in Key(s, pk)
  {
    assert (done + [s])[|done|] == s && forall k :: 0 <= k < |done| ==> (done + [s])[k] == done[k];
  }

  lemma {:induction false} FreshEmpty(p: Plan, now: seq<Row>, stg: seq<Row>)
    requires forall s :: s in stg && Null !in Key(s, p.pk) ==> Match(now, s, p.pk) < |now|
    ensures Fresh(p, now, stg) == [] <==> WholeKeys(stg, p.pk)
    decreases |stg|
  {
    if stg != [] {
      var s, done := stg[|stg| - 1], stg[..|stg| - 1];
      FreshEmpty(p, now, done);
      assert stg == done + [s];
      WholeKeysFront(done, s, p.pk);
      assert Null in Key(s, p.pk) ==> Match(now, s, p.pk) == |now|;
    }
  }

  lemma SecondPassUpdates(p: Plan, rows: seq<Row>, stg: seq<Row>, now: seq<Row>)
    requires p.Valid() && NoRepeats(rows, p.pk) && NoRepeats(stg, p.pk) && Upsert(p, rows, stg) == Some(now)
    ensures Upsert(p, now, stg).Some?
    ensures Upsert(p, now, stg) == Some(now) <==> WholeKeys(stg, p.pk)
  {
    var again := Fresh(p, now, stg);
    assert Upsert(p, now, stg) == Some(now + again) by {
      assert NoRepeats(now, p.pk) by { UpsertKeys(p, rows, stg); }
      UpsertClosed(p, now, stg);
      SecondPassRefreshes(p, rows, stg, now);
    }
    assert again == [] <==> WholeKeys(stg, p.pk) by {
      forall s | s in stg && Null !in Key(s, p.pk) ensures Match(now, s, p.pk) < |now| { UpsertKeys(p, rows, stg); }
      FreshEmpty(p, now, stg);
    }
    assert |now + again| == |now| + |again|;
    assert now + [] == now;
  }

  /** Every whole staged key is in the table. */
  ghost predicate HasWholeKeys(now: seq<Row>, stg: seq<Row>, pk: seq<string>) {
    forall s :: s in stg && Null !in Key(s, pk) ==> Match(now, s, pk) < |now|
  }

  lemma NothingForOne(p: Plan, now: seq<Row>, before: seq<Row>, s: Row, repeated: bool)
    requires p.sets == [] && |before| >= |now|
    ensures UpsertOne(p, before, s, repeated).Some?
    ensures |UpsertOne(p, before, s, repeated).value| >= |before|
    ensures Null in Key(s, p.pk) ==> |UpsertOne(p, before, s, repeated).value| > |before|
    ensures Match(before, s, p.pk) < |before| ==> UpsertOne(p, before, s, repeated) == Some(before)
  {
    assert Null in Key(s, p.pk) ==> Match(before, s, p.pk) == |before|;
  }

  /** DO NOTHING on a table that has every whole staged key: only rows with NULL in the
      key go in. */
  lemma {:induction false} SecondPassDoesNothing(p: Plan, now: seq<Row>, stg: seq<Row>)
    requires p.sets == []
    requires HasWholeKeys(now, stg, p.pk)
    ensures Upsert(p, now, stg).Some?
    ensures WholeKeys(stg, p.pk) ==> Upsert(p, now, stg) == Some(now)
    ensures !WholeKeys(stg, p.pk) ==> |Upsert(p, now, stg).value| > |now|
    decreases |stg|
  {
    if stg != [] {
      var s, done := stg[|stg| - 1], stg[..|stg| - 1];
      assert stg == done + [s];
      assert WholeKeys(stg, p.pk) <==> WholeKeys(done, p.pk) && Null !in Key(s, p.pk) by { WholeKeysFront(done, s, p.pk); }
      SecondPassDoesNothing(p, now, done);
      var before := Upsert(p, now, done).value;
      NothingForOne(p, now, before, s, Repeats(s, done, p.pk));
      assert s in stg && s == stg[|stg| - 1];
    }
  }

  /** Restoring the same backup twice by MERGE changes nothing the second time,
      exactly when no staged key contains NULL (such rows are inserted again). */
  lemma MergeIdempotent(p: Plan, rows: seq<Row>, stg: seq<Row>)
    requires p.Valid() && NoRepeats(rows, p.pk) && Upsert(p, rows, stg).Some?
    ensures var now := Upsert(p, rows, stg).value;
            && Upsert(p, now, stg).Some?
            && (Upsert(p, now, stg) == Some(now) <==> WholeKeys(stg, p.pk))
  {
    var now := Upsert(p, rows, stg).value;
    UpsertFails(p, rows, stg);
    if NoRepeats(stg, p.pk) {
      SecondPassUpdates(p, rows, stg, now);
    } else {
      forall s | s in stg && Null !in Key(s, p.pk) ensures Match(now, s, p.pk) < |now| {
        UpsertKeys(p, rows, stg);
      }
      SecondPassDoesNothing(p, now, stg);
    }
  }

  lemma NullKeyGoesIn(p: Plan, rows: seq<Row>, row: Row)
    requires Null in Key(row, p.pk) && p.Inserted(row) == row
    ensures Upsert(p, rows, [row]) == Some(rows + [row])
  {
    assert [row][..0] == [];
    assert Match(rows, row, p.pk) == |rows|;
  }

  /** A backup row without a key value goes in again every time. */
  lemma NullKeyMergedTwice()
    ensures var p, row: Row := Plan(["k"], map[], ["k"], ["k"], []), map["k" := Null];
            p.Valid() && Upsert(p, [], [row]) == Some([row]) && Upsert(p, [row], [row]) == Some([row, row])
  {
    var p, row: Row := Plan(["k"], map[], ["k"], ["k"], []), map["k" := Null];
    assert ToSet(p.cols) == {"k"} && ToSet(p.pk) == {"k"} && ToSet(p.sets) == {};
    assert Key(row, p.pk)[0] == Null;
    assert p.Inserted(row) == row;
    NullKeyGoesIn(p, [], row);
    NullKeyGoesIn(p, [row], row);
    assert [] + [row] == [row] && [row] + [row] == [row, row];
  }

  // -------------------------------------------------- what FULL_SYNC achieves

  /** DELETE ... WHERE key NOT IN (SELECT key FROM staging) spares r: some staged key
      is not definitely different from r's. */
  predicate Spared(r: Row, stg: seq<Row>, pk: seq<string>) {
    exists k :: 0 <= k < |stg| && !Differs(Key(r, pk), Key(stg[k], pk))
  }

  function Sweep(now: seq<Row>, stg: seq<Row>, pk: seq<string>): seq<Row> {
    Filter(now, r => Spared(r, stg, pk))
  }

  /** Neither updated by the upsert nor removed by the delete: only NULLs in key
      columns make a live row ambiguous. */
  predicate Ambiguous(r: Row, stg: seq<Row>, pk: seq<string>) {
    Match(stg, r, pk) == |stg| && Spared(r, stg, pk)
  }

  lemma NullsMakeAmbiguous(r: Row, stg: seq<Row>, pk: seq<string>)
    requires Ambiguous(r, stg, pk)
    ensures Null in Key(r, pk) || exists k :: 0 <= k < |stg| && Null in Key(stg[k], pk)
  {
  }

  /** Dump and live table have the same columns, and rows fill them all. */
  ghost predicate FullColumns(p: Plan, rows: seq<Row>) {
    && ToSet(p.cols) == ToSet(p.names)
    && forall i :: 0 <= i < |rows| ==> rows[i].Keys == ToSet(p.names)
  }

  lemma FullRowReplaced(p: Plan, r: Row, s: Row)
    requires p.Valid() && ToSet(p.cols) == ToSet(p.names) == r.Keys == s.Keys
    ensures p.Inserted(s) == s
    ensures SameKey(r, s, p.pk) ==> p.Updated(r, s) == s
  {
    forall c | c in p.names ensures c in s && c in p.cols {
      assert c in ToSet(p.names);
      assert c in ToSet(p.cols);
    }
    assert p.Inserted(s) == s;
    if SameKey(r, s, p.pk) {
      UpdatedCarries(p, r, s);
      assert p.Updated(r, s).Keys == s.Keys;
      forall c | c in s ensures p.Updated(r, s)[c] == s[c] {
        assert c in ToSet(p.names);
        assert c in ToSet(p.cols);
      }
    }
  }

  function Unmatched(rows: seq<Row>, stg: seq<Row>, pk: seq<string>): seq<Row> {
    Filter(rows, r => Match(stg, r, pk) == |stg|)
  }

  lemma {:induction false} CountOne(rows: seq<Row>, i: nat, pk: seq<string>)
    requires i < |rows| && NoRepeats(rows, pk) && Null !in Key(rows[i], pk)
    ensures multiset(rows)[rows[i]] == 1
  {
    var a, b := rows[..i], rows[i + 1..];
    assert rows == a + [rows[i]] + b;
    assert rows[i] !in a && rows[i] !in b;
  }

  lemma MatchOneMore(done: seq<Row>, s: Row, x: Row, pk: seq<string>)
    ensures Match(done + [s], x, pk) == |done| + 1 <==> Match(done, x, pk) == |done| && !SameKey(s, x, pk)
  {
    var more := done + [s];
    assert more[|done|] == s && forall j :: 0 <= j < |done| ==> more[j] == done[j];
  }

  lemma UnmatchedCounts(rows: seq<Row>, done: seq<Row>, s: Row, pk: seq<string>, x: Row)
    requires NoRepeats(rows, pk) && !Repeats(s, done, pk)
    ensures var i := Match(rows, s, pk);
            multiset(Unmatched(rows, done, pk))[x] ==
            multiset(Unmatched(rows, done + [s], pk))[x] + if i < |rows| && x == rows[i] then 1 else 0
  {
    var more := done + [s];
    FilterCounts(rows, r => Match(done, r, pk) == |done|, x);
    FilterCounts(rows, r => Match(more, r, pk) == |more|, x);
    MatchOneMore(done, s, x, pk);
    if x in rows && SameKey(s, x, pk) {
      var j :| 0 <= j < |rows| && rows[j] == x;
      assert j == Match(rows, s, pk);
      CountOne(rows, j, pk);
    }
  }

  lemma SameCounts(whole: multiset<Row>, a: multiset<Row>, b: multiset<Row>)
    requires forall x: Row :: whole[x] == a[x] + b[x]
    ensures whole == a + b
  {
    forall x: Row ensures whole[x] == (a + b)[x] { }
  }

  /** One more staged row takes its partner, if it has one, out of the unmatched. */
  lemma UnmatchedOneMore(rows: seq<Row>, done: seq<Row>, s: Row, pk: seq<string>)
    requires NoRepeats(rows, pk) && !Repeats(s, done, pk)
    ensures var i := Match(rows, s, pk);
            multiset(Unmatched(rows, done, pk)) ==
            multiset(Unmatched(rows, done + [s], pk)) + if i < |rows| then multiset{rows[i]} else multiset{}
  {
    var i := Match(rows, s, pk);
    var partner := if i < |rows| then multiset{rows[i]} else multiset{};
    var before, after := multiset(Unmatched(rows, done, pk)), multiset(Unmatched(rows, done + [s], pk));
    forall x: Row ensures before[x] == after[x] + partner[x] {
      assert before[x] == after[x] + if i < |rows| && x == rows[i] then 1 else 0 by { UnmatchedCounts(rows, done, s, pk, x); }
    }
    SameCounts(before, after, partner);
  }

  lemma UpsertOneFull(p: Plan, rows: seq<Row>, done: seq<Row>, s: Row)
    requires p.Valid() && NoRepeats(rows, p.pk) && NoRepeats(done, p.pk) && !Repeats(s, done, p.pk)
    requires FullColumns(p, rows) && s.Keys == ToSet(p.names)
    ensures Upsert(p, rows, done).Some?
    ensures var now, i := Upsert(p, rows, done).value, Match(rows, s, p.pk);
            && i <= |now|
            && (i < |rows| ==> i < |now| && now[i] == rows[i])
            && UpsertOne(p, now, s, false) == Some(if i < |rows| then now[i := s] else now + [s])
  {
    var i := Match(rows, s, p.pk);
    assert Upsert(p, rows, done) == Some(Refreshed(p, rows, done) + Fresh(p, rows, done)) by {
      UpsertClosed(p, rows, done);
    }
    var now := Upsert(p, rows, done).value;
    assert Match(now, s, p.pk) == if i < |rows| then i else |now| by {
      MatchAfterPart(p, rows, done, s);
    }
    assert p.Inserted(s) == s by { FullRowReplaced(p, s, s); }
    if i < |rows| {
      assert now[i] == rows[i] by { RefreshOneMore(p, rows[i], done, s); }
      assert p.Updated(rows[i], s) == s by { FullRowReplaced(p, rows[i], s); }
      if p.sets == [] {
        assert p.Updated(rows[i], s) == rows[i];
        assert now[i := now[i]] == now;
      }
    }
  }

  lemma UnmatchedAll(rows: seq<Row>, pk: seq<string>)
    ensures multiset(Unmatched(rows, [], pk)) == multiset(rows)
  {
    var none: seq<Row> := [];
    forall x: Row ensures multiset(Unmatched(rows, none, pk))[x] == multiset(rows)[x] {
      FilterCounts(rows, r => Match(none, r, pk) == |none|, x);
    }
  }

  lemma UpdateCounts(now: seq<Row>, i: nat, s: Row)
    requires i < |now|
    ensures multiset(now[i := s]) + multiset{now[i]} == multiset(now) + multiset{s}
  {
  }

  /** With equal columns the upsert permutes the backup into the table and leaves the
      unmatched live rows beside it. */
  lemma {:induction false} UpsertPermutes(p: Plan, rows: seq<Row>, stg: seq<Row>)
    requires p.Valid() && NoRepeats(rows, p.pk) && NoRepeats(stg, p.pk)
    requires FullColumns(p, rows) && FullColumns(p, stg)
    ensures Upsert(p, rows, stg).Some?
    ensures multiset(Upsert(p, rows, stg).value) == multiset(stg) + multiset(Unmatched(rows, stg, p.pk))
    decreases |stg|
  {
    if stg == [] {
      UnmatchedAll(rows, p.pk);
    } else {
      var s, done := stg[|stg| - 1], stg[..|stg| - 1];
      var i := Match(rows, s, p.pk);
      assert stg == done + [s];
      assert NoRepeats(done, p.pk) && !Repeats(s, done, p.pk) by { NoRepeatsFront(done, s, p.pk); }
      assert s.Keys == ToSet(p.names) && FullColumns(p, done);
      assert Upsert(p, rows, done).Some? by { UpsertPermutes(p, rows, done); }
      var now := Upsert(p, rows, done).value;
      assert i < |rows| ==> i < |now| && now[i] == rows[i] by { UpsertOneFull(p, rows, done, s); }
      var next := if i < |rows| then now[i := s] else now + [s];
      assert Upsert(p, rows, stg) == Some(next) by { UpsertOneFull(p, rows, done, s); }
      var partner := if i < |rows| then multiset{rows[i]} else multiset{};
      assert multiset(next) + partner == multiset(now) + multiset{s} by {
        if i < |rows| { UpdateCounts(now, i, s); }
      }
      var before, after := multiset(Unmatched(rows, done, p.pk)), multiset(Unmatched(rows, stg, p.pk));
      assert before == after + partner by { UnmatchedOneMore(rows, done, s, p.pk); }
      assert multiset(now) == multiset(done) + before by { UpsertPermutes(p, rows, done); }
      CancelPartner(multiset(next), partner, multiset(done), after, s);
    }
  }

  lemma CancelPartner(next: multiset<Row>, partner: multiset<Row>, done: multiset<Row>, after: multiset<Row>, s: Row)
    requires next + partner == done + (after + partner) + multiset{s}
    ensures next == done + multiset{s} + after
  {
    forall x: Row ensures next[x] == (done + multiset{s} + after)[x] {
      assert (next + partner)[x] == (done + (after + partner) + multiset{s})[x];
    }
  }

  lemma SweepCounts(rows: seq<Row>, stg: seq<Row>, pk: seq<string>, now: seq<Row>, x: Row)
    requires multiset(now) == multiset(stg) + multiset(Unmatched(rows, stg, pk))
    ensures multiset(Sweep(now, stg, pk))[x] == multiset(stg)[x] + multiset(Filter(rows, r => Ambiguous(r, stg, pk)))[x]
  {
    FilterCounts(now, r => Spared(r, stg, pk), x);
    FilterCounts(rows, r => Match(stg, r, pk) == |stg|, x);
    FilterCounts(rows, r => Ambiguous(r, stg, pk), x);
    if x in stg {
      var k :| 0 <= k < |stg| && stg[k] == x;
      assert !Differs(Key(x, pk), Key(stg[k], pk));
    }
  }

  lemma SweepTotal(rows: seq<Row>, stg: seq<Row>, pk: seq<string>, now: seq<Row>)
    requires multiset(now) == multiset(stg) + multiset(Unmatched(rows, stg, pk))
    ensures var after := Sweep(now, stg, pk);
            multiset(after) == multiset(stg) + multiset(Filter(rows, r => Ambiguous(r, stg, pk)))
  {
    var after := Sweep(now, stg, pk);
    var left := Filter(rows, r => Ambiguous(r, stg, pk));
    forall x: Row ensures multiset(after)[x] == multiset(stg)[x] + multiset(left)[x] {
      SweepCounts(rows, stg, pk, now, x);
    }
  }

  lemma NothingLeft(rows: seq<Row>, stg: seq<Row>, pk: seq<string>)
    ensures var left := Filter(rows, r => Ambiguous(r, stg, pk));
            multiset(stg) + multiset(left) == multiset(stg) <==> forall r :: r in rows ==> !Ambiguous(r, stg, pk)
  {
    FilterMembers(rows, r => Ambiguous(r, stg, pk));
    var left := Filter(rows, r => Ambiguous(r, stg, pk));
    if left == [] {
      assert multiset(left) == multiset{};
    } else {
      assert left[0] in left;
      assert |multiset(stg) + multiset(left)| > |multiset(stg)|;
    }
  }

  /** FULL_SYNC makes the table equal to the backup exactly when no live row is
      ambiguous; it always holds the whole backup plus the ambiguous rows. */
  lemma FullSyncExact(p: Plan, rows: seq<Row>, stg: seq<Row>)
    requires p.Valid() && NoRepeats(rows, p.pk) && NoRepeats(stg, p.pk)
    requires FullColumns(p, rows) && FullColumns(p, stg)
    ensures Upsert(p, rows, stg).Some?
    ensures var after := Sweep(Upsert(p, rows, stg).value, stg, p.pk);
            && multiset(after) == multiset(stg) + multiset(Filter(rows, r => Ambiguous(r, stg, p.pk)))
            && (multiset(after) == multiset(stg) <==> forall r :: r in rows ==> !Ambiguous(r, stg, p.pk))
  {
    UpsertPermutes(p, rows, stg);
    SweepTotal(rows, stg, p.pk, Upsert(p, rows, stg).value);
    NothingLeft(rows, stg, p.pk);
  }

  lemma UpsertNoNulls(p: Plan, rows: seq<Row>, stg: seq<Row>, r: Row)
    requires p.Valid() && NoRepeats(rows, p.pk) && NoRepeats(stg, p.pk)
    requires forall x :: x in rows || x in stg ==> Null !in Key(x, p.pk)
    requires Upsert(p, rows, stg).Some? && r in Upsert(p, rows, stg).value
    ensures Null !in Key(r, p.pk)
  {
    UpsertClosed(p, rows, stg);
    var now := Upsert(p, rows, stg).value;
    var i :| 0 <= i < |now| && now[i] == r;
    if i < |rows| {
      RefreshKey(p, rows[i], stg);
    } else {
      assert now[i] in Fresh(p, rows, stg);
      FreshMembers(p, rows, stg);
      var j :| Lone(p, rows, stg, j) && r == p.Inserted(stg[j]);
      KeyKept(p, r, stg[j]);
    }
  }

  lemma SparedIsBackedUp(r: Row, stg: seq<Row>, pk: seq<string>)
    requires forall x :: x in stg ==> Null !in Key(x, pk)
    requires Null !in Key(r, pk)
    ensures Spared(r, stg, pk) <==> exists s :: s in stg && Key(s, pk) == Key(r, pk)
  {
  }

  /** Schema drift or not: without NULL keys the keys left after FULL_SYNC are
      exactly the backup's. */
  lemma FullSyncKeys(p: Plan, rows: seq<Row>, stg: seq<Row>)
    requires p.Valid() && NoRepeats(rows, p.pk) && NoRepeats(stg, p.pk)
    requires forall x :: x in rows || x in stg ==> Null !in Key(x, p.pk)
    ensures Upsert(p, rows, stg).Some?
    ensures var after := Sweep(Upsert(p, rows, stg).value, stg, p.pk);
            (set r | r in after :: Key(r, p.pk)) == (set s | s in stg :: Key(s, p.pk))
  {
    assert Upsert(p, rows, stg).Some? by { UpsertClosed(p, rows, stg); }
    var now := Upsert(p, rows, stg).value;
    var after := Sweep(now, stg, p.pk);
    FilterMembers(now, r => Spared(r, stg, p.pk));
    forall r | r in after ensures exists s :: s in stg && Key(s, p.pk) == Key(r, p.pk) {
      UpsertNoNulls(p, rows, stg, r);
      SparedIsBackedUp(r, stg, p.pk);
    }
    forall s | s in stg ensures exists r :: r in after && Key(r, p.pk) == Key(s, p.pk) {
      UpsertKeys(p, rows, stg);
      var r := now[Match(now, s, p.pk)];
      assert r in now;
      SparedIsBackedUp(r, stg, p.pk);
      assert r in after && Key(r, p.pk) == Key(s, p.pk);
    }
  }

  /** The row FULL_SYNC keeps for a backup row: its live partner with the shared columns
      from the backup, or the row as inserted. */
  function SyncedRow(p: Plan, rows: seq<Row>, s: Row): Row {
    var i := Match(rows, s, p.pk);
    if i < |rows| then p.Updated(rows[i], s) else p.Inserted(s)
  }

  function SyncedRows(p: Plan, rows: seq<Row>, stg: seq<Row>): (out: seq<Row>)
    ensures |out| == |stg|
  {
    seq(|stg|, k requires 0 <= k < |stg| => SyncedRow(p, rows, stg[k]))
  }

  /** x is the live row of s's key with the shared columns from s, if there is one, and
      otherwise s as inserted. */
  ghost predicate SyncedAs(p: Plan, rows: seq<Row>, s: Row, x: Row) {
    if exists r :: r in rows && SameKey(r, s, p.pk) then exists r :: r in rows && SameKey(r, s, p.pk) && Overlaid(p, r, s, x)
    else InsertedAs(p, s, x)
  }

  lemma SyncedMeans(p: Plan, rows: seq<Row>, stg: seq<Row>)
    requires p.Valid()
    ensures forall k :: 0 <= k < |stg| ==> SyncedAs(p, rows, stg[k], SyncedRows(p, rows, stg)[k])
  {
    forall k | 0 <= k < |stg| ensures SyncedAs(p, rows, stg[k], SyncedRows(p, rows, stg)[k]) {
      var s := stg[k];
      var i := Match(rows, s, p.pk);
      if i < |rows| {
        UpdatedCarries(p, rows[i], s);
        assert rows[i] in rows && Overlaid(p, rows[i], s, SyncedRow(p, rows, s));
      } else {
        InsertedMeans(p, s, p.Inserted(s));
      }
    }
  }

  ghost predicate NoNulls(rows: seq<Row>, pk: seq<string>) {
    forall r :: r in rows ==> Null !in Key(r, pk)
  }

  /** Whole keys that do not repeat: no row does. */
  lemma WholeKeysDistinct(rows: seq<Row>, pk: seq<string>)
    requires NoRepeats(rows, pk) && NoNulls(rows, pk)
    ensures Distinct(rows)
  {
    forall i, j | 0 <= i < j < |rows| ensures rows[i] != rows[j] {
      assert rows[i] in rows && !SameKey(rows[i], rows[j], pk);
    }
  }

  lemma SyncedRowKey(p: Plan, rows: seq<Row>, s: Row)
    requires p.Valid()
    ensures Key(SyncedRow(p, rows, s), p.pk) == Key(s, p.pk)
  {
    var i := Match(rows, s, p.pk);
    if i < |rows| { KeyKept(p, rows[i], s); } else { KeyKept(p, s, s); }
  }

  /** What the upsert makes of the k-th staged row is in the table. */
  lemma SyncedRowThere(p: Plan, rows: seq<Row>, stg: seq<Row>, k: nat)
    requires p.Valid() && NoRepeats(rows, p.pk) && NoRepeats(stg, p.pk) && k < |stg|
    ensures SyncedRow(p, rows, stg[k]) in Refreshed(p, rows, stg) + Fresh(p, rows, stg)
  {
    var i := Match(rows, stg[k], p.pk);
    if i < |rows| {
      assert Match(stg, rows[i], p.pk) == k;
      assert Refreshed(p, rows, stg)[i] == SyncedRow(p, rows, stg[k]);
    } else {
      FreshMembers(p, rows, stg);
      assert Lone(p, rows, stg, k);
    }
  }

  lemma RefreshedRow(p: Plan, rows: seq<Row>, stg: seq<Row>, i: nat, s: Row)
    requires p.Valid() && NoRepeats(rows, p.pk) && i < |rows|
    requires s in stg && SameKey(Refresh(p, rows[i], stg), s, p.pk)
    ensures Refresh(p, rows[i], stg) in SyncedRows(p, rows, stg)
  {
    assert SameKey(s, rows[i], p.pk) by { RefreshKey(p, rows[i], stg); }
    var j :| 0 <= j < |stg| && stg[j] == s;
    var k := Match(stg, rows[i], p.pk);
    assert k <= j;
    assert Match(rows, stg[k], p.pk) == i;
    assert SyncedRows(p, rows, stg)[k] == Refresh(p, rows[i], stg);
  }

  lemma FreshRow(p: Plan, rows: seq<Row>, stg: seq<Row>, r: Row)
    requires r in Fresh(p, rows, stg)
    ensures r in SyncedRows(p, rows, stg)
  {
    FreshMembers(p, rows, stg);
    var k :| Lone(p, rows, stg, k) && r == p.Inserted(stg[k]);
    assert SyncedRows(p, rows, stg)[k] == r;
  }

  /** A row of the upserted table whose key the backup has. */
  lemma BackedUpRow(p: Plan, rows: seq<Row>, stg: seq<Row>, r: Row, s: Row)
    requires p.Valid() && NoRepeats(rows, p.pk)
    requires r in Refreshed(p, rows, stg) + Fresh(p, rows, stg)
    requires s in stg && SameKey(r, s, p.pk)
    ensures r in SyncedRows(p, rows, stg)
  {
    if r in Fresh(p, rows, stg) {
      FreshRow(p, rows, stg, r);
    } else {
      var i :| 0 <= i < |rows| && Refreshed(p, rows, stg)[i] == r;
      RefreshedRow(p, rows, stg, i, s);
    }
  }

  lemma {:induction false} SweepKeepsKey(now: seq<Row>, stg: seq<Row>, pk: seq<string>)
    requires NoRepeats(now, pk)
    ensures NoRepeats(Sweep(now, stg, pk), pk)
    ensures forall r :: r in Sweep(now, stg, pk) ==> r in now
  {
    FilterMembers(now, r => Spared(r, stg, pk));
    if now != [] {
      SweepKeepsKey(now[1..], stg, pk);
      forall r | r in Sweep(now[1..], stg, pk) ensures !SameKey(now[0], r, pk) {
        var j :| 0 <= j < |now[1..]| && now[1..][j] == r;
        assert now[j + 1] == r;
      }
    }
  }

  lemma SyncedDistinct(p: Plan, rows: seq<Row>, stg: seq<Row>)
    requires p.Valid() && NoRepeats(stg, p.pk) && NoNulls(stg, p.pk)
    ensures Distinct(SyncedRows(p, rows, stg))
  {
    var out := SyncedRows(p, rows, stg);
    forall i, j | 0 <= i < j < |stg| ensures out[i] != out[j] {
      SyncedRowKey(p, rows, stg[i]);
      SyncedRowKey(p, rows, stg[j]);
      assert stg[i] in stg && !SameKey(stg[i], stg[j], p.pk);
    }
  }

  lemma SparedIsSynced(p: Plan, rows: seq<Row>, stg: seq<Row>, r: Row)
    requires p.Valid() && NoRepeats(rows, p.pk) && NoRepeats(stg, p.pk)
    requires NoNulls(stg, p.pk) && Null !in Key(r, p.pk)
    requires r in Refreshed(p, rows, stg) + Fresh(p, rows, stg) && Spared(r, stg, p.pk)
    ensures r in SyncedRows(p, rows, stg)
  {
    SparedIsBackedUp(r, stg, p.pk);
    var s :| s in stg && Key(s, p.pk) == Key(r, p.pk);
    BackedUpRow(p, rows, stg, r, s);
  }

  lemma SyncedIsSpared(p: Plan, rows: seq<Row>, stg: seq<Row>, k: nat)
    requires p.Valid() && NoNulls(stg, p.pk) && k < |stg|
    ensures Spared(SyncedRow(p, rows, stg[k]), stg, p.pk)
  {
    SyncedRowKey(p, rows, stg[k]);
    assert !Differs(Key(SyncedRow(p, rows, stg[k]), p.pk), Key(stg[k], p.pk));
  }

  lemma SyncedIsSwept(p: Plan, rows: seq<Row>, stg: seq<Row>, r: Row)
    requires p.Valid() && NoRepeats(rows, p.pk) && NoRepeats(stg, p.pk) && NoNulls(stg, p.pk)
    requires r in SyncedRows(p, rows, stg)
    ensures r in Refreshed(p, rows, stg) + Fresh(p, rows, stg) && Spared(r, stg, p.pk)
  {
    var k :| 0 <= k < |stg| && SyncedRow(p, rows, stg[k]) == r;
    SyncedRowThere(p, rows, stg, k);
    SyncedIsSpared(p, rows, stg, k);
  }

  lemma SweepMembers(p: Plan, rows: seq<Row>, stg: seq<Row>, now: seq<Row>, r: Row)
    requires p.Valid() && NoRepeats(rows, p.pk) && NoRepeats(stg, p.pk) && NoNulls(stg, p.pk)
    requires now == Refreshed(p, rows, stg) + Fresh(p, rows, stg) && (r in now ==> Null !in Key(r, p.pk))
    ensures r in now && Spared(r, stg, p.pk) <==> r in SyncedRows(p, rows, stg)
  {
    if r in now && Spared(r, stg, p.pk) {
      SparedIsSynced(p, rows, stg, r);
    }
    if r in SyncedRows(p, rows, stg) {
      SyncedIsSwept(p, rows, stg, r);
    }
  }

  lemma {:induction false} FilterSplits(s: seq<Row>, keep: Row -> bool)
    ensures |Filter(s, keep)| + |Filter(s, x => !keep(x))| == |s|
  {
    if s != [] { FilterSplits(s[1..], keep); }
  }

  lemma {:induction false} SweptOfRefreshed(p: Plan, rows: seq<Row>, stg: seq<Row>)
    requires p.Valid()
    ensures |Sweep(Refreshed(p, rows, stg), stg, p.pk)| == |Filter(rows, r => Spared(r, stg, p.pk))|
  {
    if rows != [] {
      SweptOfRefreshed(p, rows[1..], stg);
      assert Refreshed(p, rows, stg)[1..] == Refreshed(p, rows[1..], stg);
      RefreshKey(p, rows[0], stg);
    }
  }

  /** How many rows the DELETE takes: the live rows whose key is definitely not in the
      backup. Nothing the statement before it inserted is among them. */
  lemma DeletedCount(p: Plan, rows: seq<Row>, stg: seq<Row>)
    requires p.Valid() && NoRepeats(rows, p.pk) && NoRepeats(stg, p.pk)
    ensures Upsert(p, rows, stg).Some?
    ensures var now := Upsert(p, rows, stg).value;
            |now| - |Sweep(now, stg, p.pk)| == |Filter(rows, r => !Spared(r, stg, p.pk))|
  {
    var kept, added := Refreshed(p, rows, stg), Fresh(p, rows, stg);
    assert Upsert(p, rows, stg) == Some(kept + added) by { UpsertClosed(p, rows, stg); }
    assert Sweep(kept + added, stg, p.pk) == Sweep(kept, stg, p.pk) + Sweep(added, stg, p.pk) by {
      FilterAppend(kept, added, r => Spared(r, stg, p.pk));
    }
    assert Sweep(added, stg, p.pk) == added by { FreshSpared(p, rows, stg); }
    SweptOfRefreshed(p, rows, stg);
    var keep := (r: Row) => Spared(r, stg, p.pk);
    FilterSame(rows, keep, r => Spared(r, stg, p.pk));
    FilterSplits(rows, keep);
    FilterSame(rows, x => !keep(x), r => !Spared(r, stg, p.pk));
  }

  lemma {:induction false} FilterSame(s: seq<Row>, f: Row -> bool, g: Row -> bool)
    requires forall r :: r in s ==> f(r) == g(r)
    ensures Filter(s, f) == Filter(s, g)
  {
    if s != [] {
      assert forall r :: r in s[1..] ==> r in s;
      assert s[0] in s;
      FilterSame(s[1..], f, g);
    }
  }

  lemma FreshSpared(p: Plan, rows: seq<Row>, stg: seq<Row>)
    requires p.Valid()
    ensures Sweep(Fresh(p, rows, stg), stg, p.pk) == Fresh(p, rows, stg)
  {
    FreshMembers(p, rows, stg);
    forall x | x in Fresh(p, rows, stg) ensures Spared(x, stg, p.pk) {
      var k :| Lone(p, rows, stg, k) && x == p.Inserted(stg[k]);
      KeyKept(p, x, stg[k]);
      assert !Differs(Key(x, p.pk), Key(stg[k], p.pk));
    }
    FilterAll(Fresh(p, rows, stg), r => Spared(r, stg, p.pk));
  }

  /** Schema drift or not: without NULL keys FULL_SYNC leaves exactly one row for every row
      of the backup, with its shared columns, and nothing else. */
  lemma FullSyncRows(p: Plan, rows: seq<Row>, stg: seq<Row>)
    requires p.Valid() && NoRepeats(rows, p.pk) && NoRepeats(stg, p.pk)
    requires NoNulls(rows, p.pk) && NoNulls(stg, p.pk)
    ensures Upsert(p, rows, stg).Some?
    ensures multiset(Sweep(Upsert(p, rows, stg).value, stg, p.pk)) == multiset(SyncedRows(p, rows, stg))
  {
    var now := Refreshed(p, rows, stg) + Fresh(p, rows, stg);
    assert Upsert(p, rows, stg) == Some(now) by { UpsertClosed(p, rows, stg); }
    var after, out := Sweep(now, stg, p.pk), SyncedRows(p, rows, stg);
    assert NoNulls(now, p.pk) by {
      forall r | r in now ensures Null !in Key(r, p.pk) { UpsertNoNulls(p, rows, stg, r); }
    }
    assert Distinct(after) by {
      assert NoRepeats(now, p.pk) by { UpsertKeys(p, rows, stg); }
      SweepKeepsKey(now, stg, p.pk);
      WholeKeysDistinct(after, p.pk);
    }
    assert Distinct(out) by { SyncedDistinct(p, rows, stg); }
    FilterMembers(now, r => Spared(r, stg, p.pk));
    forall r: Row ensures multiset(after)[r] == multiset(out)[r] {
      assert r in after <==> r in out by { SweepMembers(p, rows, stg, now, r); }
      DistinctCounts(after, r);
      DistinctCounts(out, r);
    }
  }

  /** The documented "makes the table match the backup exactly" fails for a unique key
      that admits NULL: this live row is neither updated nor deleted. */
  lemma NullKeyRowSurvives()
    ensures var live, backup: Row := map["k" := Null], map["k" := Text([1])];
            Ambiguous(live, [backup], ["k"]) && Sweep([live], [backup], ["k"]) == [live]
  {
    var live: Row, backup: Row := map["k" := Null], map["k" := Text([1])];
    assert Key(live, ["k"])[0] == Null;
    assert !Differs(Key(live, ["k"]), Key([backup][0], ["k"]));
    assert Spared(live, [backup], ["k"]);
    FilterAll([live], r => Spared(r, [backup], ["k"]));
  }
}
