/** Archive migrations (backup/migration.go, backup/restore.go): a versioned fold over an
    archive that may stop half way and be resumed. */
module Migrations {
  import opened Seqs

  type Raw = string
  type Entities = map<string, Raw>

  /** A step edits the entities and reports success; on failure it may leave edits behind. */
  type MigrateFunc = Entities -> (Entities, bool)

  datatype Registry = Registry(owner: string, migrations: map<int, MigrateFunc>)

  datatype Fault = ModuleMismatch | Downgrade | Missing(v: int) | StepFailed(v: int) | TooNew | InvalidVersion

  // ------------------------------------------------------------ the ladder

  datatype Outcome = Outcome(entities: Entities, version: int, err: Option<Fault>)

  /** Steps v, v+1, ..., target-1 in order, stopping at the first problem. */
  function Climb(reg: Registry, e: Entities, v: int, target: int): Outcome
    decreases target - v
  {
    if v >= target then Outcome(e, v, None)
    else if v !in reg.migrations then Outcome(e, v, Some(Missing(v)))
    else
      var (e', ok) := reg.migrations[v](e);
      if !ok then Outcome(e', v, Some(StepFailed(v))) else Climb(reg, e', v + 1, target)
  }

  class Archive {
    var owner: string
    var schemaVersion: int
    var entities: Entities

    constructor (owner: string, schemaVersion: int, entities: Entities)
      ensures this.owner == owner && this.schemaVersion == schemaVersion && this.entities == entities
    {
      this.owner, this.schemaVersion, this.entities := owner, schemaVersion, entities;
    }
  }

  /** RunMigrations. Whatever the exit, the version has moved by exactly the number of
      steps applied and the archive is where the ladder stopped. */
  method RunMigrations(reg: Registry, a: Archive, target: int) returns (applied: nat, err: Option<Fault>)
    modifies a
    ensures a.owner == old(a.owner) && a.schemaVersion == old(a.schemaVersion) + applied
    ensures err == Some(ModuleMismatch) <==> old(a.owner) != reg.owner
    ensures err == Some(Downgrade) <==> old(a.owner) == reg.owner && old(a.schemaVersion) > target
    ensures err == Some(ModuleMismatch) || err == Some(Downgrade) ==> applied == 0 && a.entities == old(a.entities)
    ensures old(a.owner) == reg.owner && old(a.schemaVersion) <= target ==>
              Outcome(a.entities, a.schemaVersion, err) == Climb(reg, old(a.entities), old(a.schemaVersion), target)
  {
    if a.owner != reg.owner {
      return 0, Some(ModuleMismatch);
    }
    var source := a.schemaVersion;
    if source == target {
      return 0, None;
    }
    if source > target {
      return 0, Some(Downgrade);
    }
    applied := 0;
    var v := source;
    while v < target
      invariant source <= v <= target
      invariant v == source + applied && a.schemaVersion == v && a.owner == old(a.owner)
      invariant Climb(reg, a.entities, v, target) == Climb(reg, old(a.entities), source, target)
    {
      if v !in reg.migrations {
        return applied, Some(Missing(v));
      }
      var (e, ok) := reg.migrations[v](a.entities);
      a.entities := e;
      if !ok {
        return applied, Some(StepFailed(v));
      }
      applied := applied + 1;
      a.schemaVersion := v + 1;
      v := v + 1;
    }
    return applied, None;
  }

  /** Validate, the guard callers put in front. */
  function Validate(owner: string, version: int, expected: string, current: int): Option<Fault> {
    if owner != expected then Some(ModuleMismatch)
    else if version > current then Some(TooNew)
    else if version < 1 then Some(InvalidVersion)
    else None
  }

  /** What Validate accepts, and what it says otherwise. */
  lemma ValidateAccepts(owner: string, version: int, expected: string, current: int)
    ensures Validate(owner, version, expected, current) == None <==> owner == expected && 1 <= version <= current
    ensures Validate(owner, version, expected, current) == Some(ModuleMismatch) <==> owner != expected
    ensures Validate(owner, version, expected, current) == Some(TooNew) <==> owner == expected && version > current
  {
  }

  /** After Validate accepts, RunMigrations for the same module and version can only stop
      at a missing or failing step. */
  method ValidatedMigration(reg: Registry, a: Archive, current: int) returns (applied: nat, err: Option<Fault>)
    requires Validate(a.owner, a.schemaVersion, reg.owner, current) == None
    modifies a
    ensures err == None || err.value.Missing? || err.value.StepFailed?
    ensures err == None ==> a.schemaVersion == current
    ensures err != None ==> err.value.v == a.schemaVersion < current
  {
    applied, err := RunMigrations(reg, a, current);
    ClimbStops(reg, old(a.entities), old(a.schemaVersion), current);
  }

  lemma {:induction false} ClimbStops(reg: Registry, e: Entities, v: int, target: int)
    requires v <= target
    ensures var out := Climb(reg, e, v, target);
            && v <= out.version <= target
            && (out.err == None <==> out.version == target)
            && (out.err != None ==> out.err == Some(Missing(out.version)) || out.err == Some(StepFailed(out.version)))
    decreases target - v
  {
    if v < target && v in reg.migrations && reg.migrations[v](e).1 {
      ClimbStops(reg, reg.migrations[v](e).0, v + 1, target);
    }
  }

  // ---------------------------------------------- what a success computes

  /** Reference: the steps as a list, applied left to right. */
  function ApplyAll(steps: seq<MigrateFunc>, e: Entities): Option<Entities> {
    if steps == [] then Some(e)
    else
      match ApplyAll(steps[..|steps| - 1], e)
      case None => None
      case Some(e') =>
        var (e'', ok) := steps[|steps| - 1](e');
        if ok then Some(e'') else None
  }

  ghost predicate HasAll(reg: Registry, v: int, target: int) {
    forall u :: v <= u < target ==> u in reg.migrations
  }

  ghost function Steps(reg: Registry, v: int, target: int): (steps: seq<MigrateFunc>)
    requires v <= target && HasAll(reg, v, target)
    ensures |steps| == target - v
  {
    seq(target - v, i requires 0 <= i < target - v => reg.migrations[v + i])
  }

  /** A run can be cut at any version. */
  lemma {:induction false} ClimbSplit(reg: Registry, e: Entities, v: int, mid: int, target: int)
    requires v <= mid <= target
    ensures var first := Climb(reg, e, v, mid);
            Climb(reg, e, v, target) == if first.err == None then Climb(reg, first.entities, mid, target) else first
    decreases mid - v
  {
    if v < mid && v in reg.migrations && reg.migrations[v](e).1 {
      ClimbSplit(reg, reg.migrations[v](e).0, v + 1, mid, target);
    }
  }

  /** A run succeeds exactly when every step is there and the composition, in order, of
      steps source..target-1 succeeds; it yields that composition. */
  lemma {:induction false} ClimbIsComposition(reg: Registry, e: Entities, v: int, target: int)
    requires v <= target
    ensures var out := Climb(reg, e, v, target);
            && (out.err == None <==> HasAll(reg, v, target) && ApplyAll(Steps(reg, v, target), e).Some?)
            && (out.err == None ==> ApplyAll(Steps(reg, v, target), e) == Some(out.entities))
    decreases target - v
  {
    if v < target {
      var last := target - 1;
      ClimbIsComposition(reg, e, v, last);
      ClimbSplit(reg, e, v, last, target);
      if HasAll(reg, v, target) {
        assert HasAll(reg, v, last);
        assert Steps(reg, v, target)[..last - v] == Steps(reg, v, last);
      }
      var first := Climb(reg, e, v, last);
      if first.err == None && last in reg.migrations {
        assert HasAll(reg, v, target);
        assert Climb(reg, first.entities, last, target).err == None <==> reg.migrations[last](first.entities).1;
      }
    }
  }

  // ------------------------------------------------------------ resumption

  /** The registries hold the same steps from v up to mid. */
  ghost predicate SameSteps(reg: Registry, reg': Registry, v: int, mid: int) {
    forall u :: v <= u < mid ==>
      (u in reg.migrations <==> u in reg'.migrations)
      && (u in reg.migrations ==> reg.migrations[u] == reg'.migrations[u])
  }

  lemma {:induction false} ClimbAgrees(reg: Registry, reg': Registry, e: Entities, v: int, target: int)
    requires SameSteps(reg, reg', v, target)
    ensures Climb(reg, e, v, target) == Climb(reg', e, v, target)
    decreases target - v
  {
    if v < target && v in reg.migrations {
      ClimbAgrees(reg, reg', reg.migrations[v](e).0, v + 1, target);
    }
  }

  /** A run that stopped at a missing step, resumed after any steps from there on were
      registered, ends where one uninterrupted run would have. */
  lemma ResumeAfterMissing(reg: Registry, reg': Registry, e: Entities, v: int, target: int)
    requires v <= target
    requires var out := Climb(reg, e, v, target); out.err == Some(Missing(out.version))
    requires SameSteps(reg, reg', v, Climb(reg, e, v, target).version)
    ensures var out := Climb(reg, e, v, target);
            Climb(reg', out.entities, out.version, target) == Climb(reg', e, v, target)
  {
    var out := Climb(reg, e, v, target);
    ClimbStops(reg, e, v, target);
    var mid := out.version;
    ClimbReaches(reg, e, v, target);
    ClimbAgrees(reg, reg', e, v, mid);
    ClimbSplit(reg', e, v, mid, target);
  }

  /** The steps below the stopping point all went through; a missing step changed nothing. */
  lemma {:induction false} ClimbReaches(reg: Registry, e: Entities, v: int, target: int)
    requires v <= target
    ensures var out := Climb(reg, e, v, target);
            && Climb(reg, e, v, out.version).err == None
            && (out.err == None || out.err.value.Missing? ==> Climb(reg, e, v, out.version).entities == out.entities)
    decreases target - v
  {
    if v < target && v in reg.migrations && reg.migrations[v](e).1 {
      ClimbStops(reg, reg.migrations[v](e).0, v + 1, target);
      ClimbReaches(reg, reg.migrations[v](e).0, v + 1, target);
    }
  }

  /** The archive where the ladder stopped, climbed further with reg', ends as one
      uninterrupted climb with reg' would have. */
  ghost predicate Resumes(reg': Registry, out: Outcome, e: Entities, v: int, target: int) {
    Climb(reg', out.entities, out.version, target) == Climb(reg', e, v, target)
  }

  /** After a failing step the archive keeps whatever the step had edited. Resuming equals
      an uninterrupted run for every way of repairing the step and those after it exactly
      when the failed step left no edit. */
  lemma ResumeAfterFailure(reg: Registry, e: Entities, v: int, target: int)
    requires v <= target
    requires Climb(reg, e, v, target).err == Some(StepFailed(Climb(reg, e, v, target).version))
    ensures var out := Climb(reg, e, v, target);
            (forall reg': Registry :: SameSteps(reg, reg', v, out.version) ==> Resumes(reg', out, e, v, target))
            <==> out.entities == Climb(reg, e, v, out.version).entities
  {
    var out := Climb(reg, e, v, target);
    var mid := out.version;
    ClimbStops(reg, e, v, target);
    ClimbReaches(reg, e, v, target);
    forall reg': Registry | SameSteps(reg, reg', v, mid)
      ensures Climb(reg', e, v, target) == Climb(reg', Climb(reg, e, v, mid).entities, mid, target)
    {
      ClimbAgrees(reg, reg', e, v, mid);
      ClimbStops(reg, e, v, mid);
      ClimbSplit(reg', e, v, mid, target);
    }
    var without := reg.(migrations := reg.migrations - {mid});
    assert SameSteps(reg, without, v, mid);
    assert Climb(without, out.entities, mid, target).entities == out.entities;
  }

  /** Such a failing step: it marks the archive before it fails, and the repaired step takes
      the mark for its own work. */
  lemma HalfDoneStep()
    ensures var broken: MigrateFunc := e => (e["done" := "yes"], false);
            var repaired: MigrateFunc := e => (if "done" in e then e else e["done" := "yes"]["data" := "new"], true);
            var reg, reg' := Registry("m", map[1 := broken]), Registry("m", map[1 := repaired]);
            var out := Climb(reg, map[], 1, 2);
            && out.err == Some(StepFailed(1)) && SameSteps(reg, reg', 1, 1)
            && !Resumes(reg', out, map[], 1, 2)
  {
    var broken: MigrateFunc := e => (e["done" := "yes"], false);
    var repaired: MigrateFunc := e => (if "done" in e then e else e["done" := "yes"]["data" := "new"], true);
    var reg := Registry("m", map[1 := repaired]);
    assert "data" !in Climb(reg, map["done" := "yes"], 1, 2).entities;
    assert "data" in Climb(reg, map[], 1, 2).entities;
  }

  // ---------------------------------------------------------- field helpers

  type Json = string
  /** An element of an entity array: JSON null becomes a nil map. */
  datatype Item = NilMap | Object(fields: map<string, Json>)

  datatype ItemCodec = ItemCodec(unmarshal: Raw -> Option<seq<Item>>, marshal: seq<Item> -> Option<Raw>)
  {
    ghost predicate Lawful() {
      forall items :: marshal(items).Some? ==> unmarshal(marshal(items).value) == Some(items)
    }
  }

  /** Assigning into a nil map panics; reading from or deleting from one does not. */
  datatype HelperStatus = Done | Error | Panic

  function AddField(item: Item, name: string, value: Json): Option<Item> {
    match item
    case NilMap => None
    case Object(f) => Some(if name in f then item else Object(f[name := value]))
  }

  function RenameField(item: Item, from: string, to: string): Option<Item> {
    match item
    case NilMap => Some(item)
    case Object(f) => Some(if from in f then Object(f[to := f[from]] - {from}) else item)
  }

  function RemoveField(item: Item, name: string): Option<Item> {
    match item
    case NilMap => Some(item)
    case Object(f) => Some(Object(f - {name}))
  }

  /** All items edited, or None when an edit panics. */
  function EditAll(items: seq<Item>, edit: Item -> Option<Item>): (r: Option<seq<Item>>)
    ensures r.Some? ==> |r.value| == |items|
    ensures r.Some? ==> forall i :: 0 <= i < |items| ==> edit(items[i]) == Some(r.value[i])
    ensures r.None? ==> exists i :: 0 <= i < |items| && edit(items[i]) == None
  {
    if items == [] then Some([])
    else
      var n := |items| - 1;
      match EditAll(items[..n], edit)
      case None => assert exists i :: 0 <= i < n && edit(items[..n][i]) == None; None
      case Some(front) =>
        match edit(items[n])
        case None => None
        case Some(x) => Some(front + [x])
  }

  /** The common shape of the three helpers. */
  method EditField(c: ItemCodec, entities: Entities, key: string, edit: Item -> Option<Item>)
    returns (out: Entities, status: HelperStatus)
    ensures key !in entities ==> out == entities && status == Done
    ensures status != Done ==> out == entities
    ensures status == Error <==>
              && key in entities
              && (c.unmarshal(entities[key]).None?
                  || var edited := EditAll(c.unmarshal(entities[key]).value, edit);
                     edited.Some? && c.marshal(edited.value).None?)
    ensures status == Panic <==>
              && key in entities && c.unmarshal(entities[key]).Some?
              && EditAll(c.unmarshal(entities[key]).value, edit).None?
    ensures key in entities && status == Done ==>
              && c.unmarshal(entities[key]).Some?
              && var items := c.unmarshal(entities[key]).value;
                 var edited := EditAll(items, edit);
                 && edited.Some? && c.marshal(edited.value).Some?
                 && out == entities[key := c.marshal(edited.value).value]
  {
    if key !in entities {
      return entities, Done;
    }
    var decoded := c.unmarshal(entities[key]);
    if decoded.None? {
      return entities, Error;
    }
    var items := decoded.value;
    var edited: seq<Item> := [];
    for i := 0 to |items|
      invariant EditAll(items[..i], edit) == Some(edited)
    {
      assert items[..i + 1][..i] == items[..i];
      var x := edit(items[i]);
      if x.None? {
        assert edit(items[i]) == None;
        return entities, Panic;
      }
      edited := edited + [x.value];
    }
    assert items[..|items|] == items;
    var updated := c.marshal(edited);
    if updated.None? {
      return entities, Error;
    }
    return entities[key := updated.value], Done;
  }

  /** Every helper, on success: same number of items, other entities untouched, every
      item edited; adding panics exactly on a null item, the other two never. */
  method MigrateAddField(c: ItemCodec, entities: Entities, key: string, name: string, value: Json)
    returns (out: Entities, status: HelperStatus)
    requires c.Lawful()
    ensures key !in entities ==> out == entities && status == Done
    ensures key in entities && c.unmarshal(entities[key]).None? ==> status == Error
    ensures status == Error ==>
              && key in entities
              && (c.unmarshal(entities[key]).None?
                  || exists items :: |items| == |c.unmarshal(entities[key]).value| && c.marshal(items).None?)
    ensures status != Done ==> out == entities
    ensures status == Panic <==>
              && key in entities && c.unmarshal(entities[key]).Some?
              && NilMap in c.unmarshal(entities[key]).value
    ensures status == Done ==> out.Keys == entities.Keys && forall k :: k in out && k != key ==> out[k] == entities[k]
    ensures status == Done && key in entities ==>
              && c.unmarshal(out[key]).Some? && c.unmarshal(entities[key]).Some?
              && var before, after := c.unmarshal(entities[key]).value, c.unmarshal(out[key]).value;
                 |after| == |before| && forall i :: 0 <= i < |before| ==>
                   && before[i].Object? && after[i].Object? && name in after[i].fields
                   && after[i].fields == map[name := value] + before[i].fields
  {
    out, status := EditField(c, entities, key, item => AddField(item, name, value));
    if key in entities && c.unmarshal(entities[key]).Some? {
      ghost var items := c.unmarshal(entities[key]).value;
      assert forall i :: 0 <= i < |items| ==> (AddField(items[i], name, value) == None <==> items[i] == NilMap);
    }
    if status == Done && key in entities {
      ghost var items := c.unmarshal(entities[key]).value;
      ghost var after := EditAll(items, item => AddField(item, name, value)).value;
      forall i | 0 <= i < |items|
        ensures items[i].Object? && after[i].Object? && after[i].fields == map[name := value] + items[i].fields
      {
        assert AddField(items[i], name, value) == Some(after[i]);
      }
    }
  }

  method MigrateRenameField(c: ItemCodec, entities: Entities, key: string, from: string, to: string)
    returns (out: Entities, status: HelperStatus)
    requires c.Lawful()
    ensures key !in entities ==> out == entities && status == Done
    ensures key in entities && c.unmarshal(entities[key]).None? ==> status == Error
    ensures status == Error ==>
              && key in entities
              && (c.unmarshal(entities[key]).None?
                  || exists items :: |items| == |c.unmarshal(entities[key]).value| && c.marshal(items).None?)
    ensures status != Done ==> out == entities && status == Error
    ensures status == Done ==> out.Keys == entities.Keys && forall k :: k in out && k != key ==> out[k] == entities[k]
    ensures status == Done && key in entities ==>
              && c.unmarshal(out[key]).Some? && c.unmarshal(entities[key]).Some?
              && var before, after := c.unmarshal(entities[key]).value, c.unmarshal(out[key]).value;
                 |after| == |before| && forall i :: 0 <= i < |before| ==> Renamed(before[i], after[i], from, to)
  {
    out, status := EditField(c, entities, key, item => RenameField(item, from, to));
    if status == Done && key in entities {
      ghost var items := c.unmarshal(entities[key]).value;
      ghost var after := EditAll(items, item => RenameField(item, from, to)).value;
      forall i | 0 <= i < |items| ensures Renamed(items[i], after[i], from, to) {
        assert RenameField(items[i], from, to) == Some(after[i]);
      }
    }
  }

  /** The field has moved to its new name, over whatever was there; the rest is as it was. */
  ghost predicate Renamed(before: Item, after: Item, from: string, to: string) {
    if before.NilMap? || from !in before.fields then after == before
    else
      && after.Object? && from !in after.fields
      && (from != to ==> to in after.fields && after.fields[to] == before.fields[from])
      && forall k :: k != from && k != to ==>
           (k in after.fields <==> k in before.fields) && (k in before.fields ==> after.fields[k] == before.fields[k])
  }

  method MigrateRemoveField(c: ItemCodec, entities: Entities, key: string, name: string)
    returns (out: Entities, status: HelperStatus)
    requires c.Lawful()
    ensures key !in entities ==> out == entities && status == Done
    ensures key in entities && c.unmarshal(entities[key]).None? ==> status == Error
    ensures status == Error ==>
              && key in entities
              && (c.unmarshal(entities[key]).None?
                  || exists items :: |items| == |c.unmarshal(entities[key]).value| && c.marshal(items).None?)
    ensures status != Done ==> out == entities && status == Error
    ensures status == Done ==> out.Keys == entities.Keys && forall k :: k in out && k != key ==> out[k] == entities[k]
    ensures status == Done && key in entities ==>
              && c.unmarshal(out[key]).Some? && c.unmarshal(entities[key]).Some?
              && var before, after := c.unmarshal(entities[key]).value, c.unmarshal(out[key]).value;
                 |after| == |before| && forall i :: 0 <= i < |before| ==>
                   after[i] == if before[i].NilMap? then NilMap else Object(before[i].fields - {name})
  {
    out, status := EditField(c, entities, key, item => RemoveField(item, name));
    if status == Done && key in entities {
      ghost var items := c.unmarshal(entities[key]).value;
      ghost var after := EditAll(items, item => RemoveField(item, name)).value;
      assert forall i :: 0 <= i < |items| ==> RemoveField(items[i], name) == Some(after[i]);
    }
  }

  /** Renaming a field and renaming it back restores an item exactly when the item did
      not already have the new name; in particular renaming a field to itself loses it. */
  lemma RenameBack(item: Item, from: string, to: string)
    requires item.Object?
    ensures RenameField(RenameField(item, from, to).value, to, from) == Some(item) <==> to !in item.fields
  {
    var f := item.fields;
    var g := RenameField(item, from, to).value.fields;
    if from in f && from != to {
      assert to in g && g[to] == f[from] && from !in g;
      var back := g[from := g[to]] - {to};
      assert to !in back;
      if to !in f {
        assert back == f;
      }
    } else if from in f {
      assert from !in g;
    } else if to in f {
      assert to !in (g[from := g[to]] - {to}) || from == to;
    }
  }
}
