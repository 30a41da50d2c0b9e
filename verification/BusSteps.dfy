/** The event bus under concurrency (eventbus/eventbus.go:55-184): every call is a small
    program whose steps are lock operations and bodies, and any thread may take the next
    step. Handlers do not call back into the bus. */
module BusSteps {
  import opened Seqs
  import opened EventBus

  type Tid = nat

  /** Where a thread is. `seen`, the bus at the moment of its RLock, the `ticket` of that
      RLock and `ran`, the calls made so far, are bookkeeping; the code does not have them. */
  datatype Proc =
    | Idle
    | WantLock(op: Op)                  // before mu.Lock in Subscribe, Unsubscribe, Close
    | Locked(op: Op)                    // holds Lock, body not yet run
    | Written                           // holds Lock, body done
    | WantRLock(t: string)              // before mu.RLock in Publish
    | Reading(t: string, seen: Bus, ticket: nat)  // holds RLock, lists not yet loaded
    | Running(t: string, seen: Bus, ticket: nat, regular: seq<Handler>, once: seq<Handler>, ran: seq<Handler>)
    | WantDrop(t: string)               // gave up RLock, before mu.Lock
    | Dropping(t: string)               // holds Lock, before delete
    | Dropped                           // holds Lock, after delete
    | WantBack                          // gave up Lock, before mu.RLock
    | Leaving                           // holds RLock, before the deferred RUnlock

  /** A Publish of t by tid took its read lock when the bus was `seen`. */
  datatype Taken = Taken(tid: Tid, t: string, seen: Bus)

  datatype State = State(
    bus: Bus,
    readers: set<Tid>,
    writer: Option<Tid>,
    procs: map<Tid, Proc>,
    next: nat,                          // id for the next registration
    called: seq<nat>,                   // once-registrations called so far
    taken: seq<Taken>,                  // the first RLock of every Publish, in order
    finished: map<nat, seq<Handler>>)   // per finished Publish, by its place in taken: what it ran
  {
    function Of(tid: Tid): Proc {
      if tid in procs then procs[tid] else Idle
    }

    function At(tid: Tid, p: Proc): State {
      this.(procs := procs[tid := p])
    }
  }

  const START := State(EMPTY, {}, None, map[], 0, [], [], map[])

  /** A thread begins a call, or takes the next step of the one it is in. */
  datatype Action = Begin(tid: Tid, op: Op) | Next(tid: Tid)

  /** sync.RWMutex: Lock waits for everybody, RLock for a writer. */
  predicate Enabled(s: State, a: Action) {
    match a
    case Begin(tid, _) => s.Of(tid).Idle?
    case Next(tid) =>
      match s.Of(tid)
      case Idle => false
      case WantLock(_) => s.writer == None && s.readers == {}
      case WantDrop(_) => s.writer == None && s.readers == {}
      case WantRLock(_) => s.writer == None
      case WantBack => s.writer == None
      case _ => true
  }

  function Do(s: State, a: Action): State
    requires Enabled(s, a)
  {
    match a
    case Begin(tid, op) => s.At(tid, if op.Publish? then WantRLock(op.t) else WantLock(op))
    case Next(tid) =>
      match s.Of(tid)
      case WantLock(op) => s.(writer := Some(tid)).At(tid, Locked(op))
      case Locked(op) => s.(bus := Step(s.bus, op, s.next), next := s.next + 1).At(tid, Written)
      case Written => s.(writer := None).At(tid, Idle)
      case WantRLock(t) =>
        s.(readers := s.readers + {tid}, taken := s.taken + [Taken(tid, t, s.bus)]).At(tid, Reading(t, s.bus, |s.taken|))
      case Reading(t, seen, ticket) =>
        var regular, once := On(s.bus.handlers, t), On(s.bus.once, t);
        if s.bus.closed || |regular| + |once| == 0 then s.(finished := s.finished[ticket := []]).At(tid, Leaving)
        else s.At(tid, Running(t, seen, ticket, regular, once, []))
      case Running(t, seen, ticket, regular, once, ran) =>
        if |ran| < |regular| then
          s.At(tid, Running(t, seen, ticket, regular, once, ran + [regular[|ran|]]))
        else if |ran| < |regular| + |once| then
          var h := once[|ran| - |regular|];
          s.(called := s.called + [h.id]).At(tid, Running(t, seen, ticket, regular, once, ran + [h]))
        else
          var s' := s.(finished := s.finished[ticket := ran]);
          if |once| > 0 then s'.(readers := s.readers - {tid}).At(tid, WantDrop(t)) else s'.At(tid, Leaving)
      case WantDrop(t) => s.(writer := Some(tid)).At(tid, Dropping(t))
      case Dropping(t) => s.(bus := DroppedOnce(s.bus, t)).At(tid, Dropped)
      case Dropped => s.(writer := None).At(tid, WantBack)
      case WantBack => s.(readers := s.readers + {tid}).At(tid, Leaving)
      case Leaving => s.(readers := s.readers - {tid}).At(tid, Idle)
  }

  predicate Legal(acts: seq<Action>)
    decreases |acts|, 0
  {
    acts == [] || (Legal(acts[..|acts| - 1]) && Enabled(After(acts[..|acts| - 1]), acts[|acts| - 1]))
  }

  /** The state an interleaving leads to. */
  function After(acts: seq<Action>): State
    requires Legal(acts)
    decreases |acts|, 1
  {
    if acts == [] then START else Do(After(acts[..|acts| - 1]), acts[|acts| - 1])
  }

  // ------------------------------------------------------------- invariant

  predicate HoldsRead(p: Proc) {
    p.Reading? || p.Running? || p.Leaving?
  }

  predicate HoldsWrite(p: Proc) {
    p.Locked? || p.Written? || p.Dropping? || p.Dropped?
  }

  /** The lock says exactly who holds it, and a writer is alone. */
  ghost predicate LockInv(s: State) {
    && (s.writer.Some? ==> s.readers == {})
    && (forall tid: Tid :: tid in s.readers <==> HoldsRead(s.Of(tid)))
    && (forall tid: Tid :: s.writer == Some(tid) <==> HoldsWrite(s.Of(tid)))
  }

  /** A reader's view is the bus itself for as long as it holds its lock. */
  ghost predicate ViewInv(s: State, p: Proc) {
    match p
    case Reading(_, seen, _) => seen == s.bus
    case Running(t, seen, _, regular, once, ran) =>
      && seen == s.bus && !seen.closed
      && regular == On(seen.handlers, t) && once == On(seen.once, t)
      && ran <= regular + once
    case Locked(op) => !op.Publish?
    case WantLock(op) => !op.Publish?
    case _ => true
  }

  ghost predicate Inv(s: State) {
    && LockInv(s)
    && (s.bus.closed ==> s.bus == Closed(EMPTY))
    && forall tid: Tid :: ViewInv(s, s.Of(tid))
  }

  /** A step moves one thread. */
  lemma OthersStay(s: State, a: Action)
    requires Enabled(s, a)
    ensures forall tid: Tid :: tid != a.tid ==> Do(s, a).Of(tid) == s.Of(tid)
  {
  }

  lemma ReadLockStep(s: State, a: Action, tid: Tid)
    requires LockInv(s) && Enabled(s, a)
    ensures tid in Do(s, a).readers <==> HoldsRead(Do(s, a).Of(tid))
  {
    OthersStay(s, a);
    assert tid in s.readers <==> HoldsRead(s.Of(tid));
  }

  lemma WriteLockStep(s: State, a: Action, tid: Tid)
    requires LockInv(s) && Enabled(s, a)
    ensures Do(s, a).writer == Some(tid) <==> HoldsWrite(Do(s, a).Of(tid))
  {
    OthersStay(s, a);
    assert s.writer == Some(tid) <==> HoldsWrite(s.Of(tid));
    assert s.writer == Some(a.tid) <==> HoldsWrite(s.Of(a.tid));
  }

  lemma LockStep(s: State, a: Action)
    requires LockInv(s) && Enabled(s, a)
    ensures LockInv(Do(s, a))
  {
    forall tid: Tid ensures Do(s, a).writer == Some(tid) <==> HoldsWrite(Do(s, a).Of(tid)) { WriteLockStep(s, a, tid); }
    forall tid: Tid ensures tid in Do(s, a).readers <==> HoldsRead(Do(s, a).Of(tid)) { ReadLockStep(s, a, tid); }
  }

  /** Only the holder of the write lock changes the bus, in a step that keeps the lock. */
  lemma BusChangesUnderLock(s: State, a: Action)
    requires LockInv(s) && Enabled(s, a) && Do(s, a).bus != s.bus
    ensures s.writer == Some(a.tid) && Do(s, a).writer == s.writer && s.readers == {}
  {
  }

  lemma ClosedStep(b: Bus, op: Op, i: nat)
    requires b.closed ==> b == Closed(EMPTY)
    ensures Step(b, op, i).closed ==> Step(b, op, i) == Closed(EMPTY)
    ensures b.closed ==> Step(b, op, i).closed
  {
  }

  lemma OwnViewStep(s: State, a: Action)
    requires Inv(s) && Enabled(s, a)
    ensures ViewInv(Do(s, a), Do(s, a).Of(a.tid))
  {
    assert ViewInv(s, s.Of(a.tid));
  }

  lemma ViewStep(s: State, a: Action, tid: Tid)
    requires Inv(s) && Enabled(s, a)
    ensures ViewInv(Do(s, a), Do(s, a).Of(tid))
  {
    if tid == a.tid {
      OwnViewStep(s, a);
    } else {
      assert ViewInv(s, s.Of(tid));
      assert Do(s, a).Of(tid) == s.Of(tid) by { OthersStay(s, a); }
      if Do(s, a).bus != s.bus {
        assert s.readers == {} by { BusChangesUnderLock(s, a); }
        assert !HoldsRead(s.Of(tid));
      }
    }
  }

  lemma InvStep(s: State, a: Action)
    requires Inv(s) && Enabled(s, a)
    ensures Inv(Do(s, a)) && (s.bus.closed ==> Do(s, a).bus.closed)
  {
    LockStep(s, a);
    forall tid: Tid ensures ViewInv(Do(s, a), Do(s, a).Of(tid)) { ViewStep(s, a, tid); }
    if a.Next? && s.Of(a.tid).Locked? {
      ClosedStep(s.bus, s.Of(a.tid).op, s.next);
    }
  }

  /** Every interleaving keeps the invariant. */
  lemma {:induction false} InvAlways(acts: seq<Action>)
    requires Legal(acts)
    ensures Inv(After(acts))
  {
    if acts != [] {
      InvAlways(acts[..|acts| - 1]);
      InvStep(After(acts[..|acts| - 1]), acts[|acts| - 1]);
    }
  }

  // ------------------------------------------------------ over whole runs

  /** In every interleaving: a writer is alone, a thread outside any call holds no lock
      (so every path through Publish balances its lock operations), and a closed bus
      has no subscribers. */
  lemma Safety(acts: seq<Action>, tid: Tid)
    requires Legal(acts)
    ensures var s := After(acts);
            && (s.writer.Some? ==> s.readers == {})
            && (s.Of(tid).Idle? ==> tid !in s.readers && s.writer != Some(tid))
            && (s.bus.closed ==> s.bus.handlers == map[] && s.bus.once == map[])
  {
    InvAlways(acts);
  }

  /** Once closed, a bus stays closed and empty for the rest of every run. */
  lemma {:induction false} ClosedForever(acts: seq<Action>, k: nat)
    requires Legal(acts) && k <= |acts| && Legal(acts[..k]) && After(acts[..k]).bus.closed
    ensures After(acts).bus == Closed(EMPTY)
  {
    InvAlways(acts);
    if k == |acts| {
      assert acts[..k] == acts;
    } else {
      var front := acts[..|acts| - 1];
      assert front[..k] == acts[..k];
      ClosedForever(front, k);
      InvAlways(front);
      InvStep(After(front), acts[|acts| - 1]);
    }
  }

  /** The thread is in the Publish with this ticket and has not finished its calls. */
  predicate InPublish(p: Proc, ticket: nat) {
    (p.Reading? || p.Running?) && p.ticket == ticket
  }

  /** A thread in a Publish holds its own unfinished ticket; a finished one ran its snapshot;
      every ticket is finished or held by the thread that took it. */
  ghost predicate TicketInv(s: State) {
    && (forall tid: Tid :: HoldsTicket(s, tid))
    && (forall k :: k in s.finished ==> k < |s.taken| && s.finished[k] == Runs(s.taken[k].seen, s.taken[k].t))
    && (forall k :: 0 <= k < |s.taken| ==> k in s.finished || InPublish(s.Of(s.taken[k].tid), k))
  }

  ghost predicate HoldsTicket(s: State, tid: Tid) {
    var p := s.Of(tid);
    p.Reading? || p.Running? ==>
      p.ticket < |s.taken| && p.ticket !in s.finished && s.taken[p.ticket] == Taken(tid, p.t, p.seen)
  }

  lemma HolderStep(s: State, a: Action, tid: Tid)
    requires Inv(s) && TicketInv(s) && Enabled(s, a)
    ensures HoldsTicket(Do(s, a), tid)
  {
    assert HoldsTicket(s, tid) && HoldsTicket(s, a.tid);
    if tid != a.tid {
      OthersStay(s, a);
      FinishStep(s, a);
    }
  }

  /** What one step finishes: nothing, or the thread's own Publish with its whole snapshot. */
  lemma FinishStep(s: State, a: Action)
    requires Inv(s) && TicketInv(s) && Enabled(s, a)
    ensures var s', p := Do(s, a), s.Of(a.tid);
            || s'.finished == s.finished
            || ((p.Reading? || p.Running?) && s'.finished == s.finished[p.ticket := Runs(p.seen, p.t)])
  {
    var p := s.Of(a.tid);
    assert ViewInv(s, p);
    if a.Next? && p.Running? && |p.ran| == |p.regular| + |p.once| {
      assert p.ran == p.regular + p.once;
    } else if a.Next? && p.Reading? && Do(s, a).finished != s.finished {
      assert Runs(p.seen, p.t) == [];
    }
  }

  lemma FinishedStep(s: State, a: Action, k: nat)
    requires Inv(s) && TicketInv(s) && Enabled(s, a) && k in Do(s, a).finished
    ensures var s' := Do(s, a); k < |s'.taken| && s'.finished[k] == Runs(s'.taken[k].seen, s'.taken[k].t)
  {
    var s', p := Do(s, a), s.Of(a.tid);
    FinishStep(s, a);
    assert HoldsTicket(s, a.tid);
    assert s.taken <= s'.taken;
    if k !in s.finished {
      assert k == p.ticket && s.taken[k] == Taken(a.tid, p.t, p.seen);
    }
  }

  lemma EveryTicketStep(s: State, a: Action, k: nat)
    requires Inv(s) && TicketInv(s) && Enabled(s, a) && k < |Do(s, a).taken|
    ensures var s' := Do(s, a); k in s'.finished || InPublish(s'.Of(s'.taken[k].tid), k)
  {
    var tid := if k < |s.taken| then s.taken[k].tid else a.tid;
    OthersStay(s, a);
    assert HoldsTicket(s, a.tid);
  }

  lemma TicketStep(s: State, a: Action)
    requires Inv(s) && TicketInv(s) && Enabled(s, a)
    ensures TicketInv(Do(s, a))
  {
    var s' := Do(s, a);
    forall tid: Tid ensures HoldsTicket(s', tid) { HolderStep(s, a, tid); }
    forall k | k in s'.finished
      ensures k < |s'.taken| && s'.finished[k] == Runs(s'.taken[k].seen, s'.taken[k].t)
    {
      FinishedStep(s, a, k);
    }
    forall k | 0 <= k < |s'.taken| ensures k in s'.finished || InPublish(s'.Of(s'.taken[k].tid), k) {
      EveryTicketStep(s, a, k);
    }
  }

  lemma {:induction false} TicketsAlways(acts: seq<Action>)
    requires Legal(acts)
    ensures TicketInv(After(acts))
  {
    if acts != [] {
      var front := acts[..|acts| - 1];
      TicketsAlways(front);
      InvAlways(front);
      TicketStep(After(front), acts[|acts| - 1]);
    }
  }

  /** Each Publish that took its read lock either has called exactly the regular handlers,
      and then the once-handlers, that were subscribed at that moment, in order, or is
      still at it and has called a prefix of them. */
  lemma PublishRunsItsSnapshot(acts: seq<Action>, k: nat)
    requires Legal(acts) && k < |After(acts).taken|
    ensures var s := After(acts);
            var Taken(tid, t, seen) := s.taken[k];
            if k in s.finished then s.finished[k] == Runs(seen, t)
            else InPublish(s.Of(tid), k) && (s.Of(tid).Running? ==> s.Of(tid).ran <= Runs(seen, t))
  {
    InvAlways(acts);
    TicketsAlways(acts);
    var s := After(acts);
    var tid := s.taken[k].tid;
    assert ViewInv(s, s.Of(tid)) && HoldsTicket(s, tid);
  }

  // -------------------------------------------------- once under overlap

  lemma Extend(acts: seq<Action>, a: Action) returns (more: seq<Action>)
    requires Legal(acts) && Enabled(After(acts), a)
    ensures more == acts + [a] && Legal(more) && After(more) == Do(After(acts), a)
    ensures forall tid: Tid :: tid != a.tid ==> After(more).Of(tid) == After(acts).Of(tid)
  {
    OthersStay(After(acts), a);
    more := acts + [a];
    assert more[..|more| - 1] == acts && more[|more| - 1] == a;
  }

  /** A call that only needs the write lock, from beginning to end. */
  lemma WholeCall(acts: seq<Action>, tid: Tid, op: Op) returns (more: seq<Action>)
    requires Legal(acts) && !op.Publish?
    requires After(acts).Of(tid).Idle? && After(acts).writer == None && After(acts).readers == {}
    ensures Legal(more)
    ensures var s, s' := After(acts), After(more);
            && s'.bus == Step(s.bus, op, s.next) && s'.next == s.next + 1
            && s'.writer == None && s'.readers == {} && s'.called == s.called && s'.taken == s.taken
            && s'.Of(tid).Idle? && forall other: Tid :: other != tid ==> s'.Of(other) == s.Of(other)
  {
    more := Extend(acts, Begin(tid, op));
    more := Extend(more, Next(tid));
    more := Extend(more, Next(tid));
    more := Extend(more, Next(tid));
  }

  /** Two threads that have both taken the read lock for a Publish of "t". */
  lemma TwoReaders() returns (acts: seq<Action>)
    ensures Legal(acts)
    ensures var s := After(acts);
            && s.called == [] && !s.bus.closed
            && On(s.bus.handlers, "t") == [] && On(s.bus.once, "t") == [Handler(0, "h")]
            && s.Of(1) == Reading("t", s.bus, 0) && s.Of(2) == Reading("t", s.bus, 1)
  {
    acts := [];
    assert After(acts).Of(1).Idle? && After(acts).Of(2).Idle?;
    acts := WholeCall(acts, 0, SubscribeOnce("t", "h"));
    acts := Extend(acts, Begin(1, Publish("t")));
    acts := Extend(acts, Begin(2, Publish("t")));
    acts := Extend(acts, Next(1));
    acts := Extend(acts, Next(2));
  }

  /** The same two threads, about to call its once-handler. */
  lemma TwoRunning() returns (acts: seq<Action>)
    ensures Legal(acts)
    ensures var s, h := After(acts), [Handler(0, "h")];
            s.called == [] && s.Of(1) == Running("t", s.bus, 0, [], h, []) && s.Of(2) == Running("t", s.bus, 1, [], h, [])
  {
    acts := TwoReaders();
    acts := Extend(acts, Next(1));
    acts := Extend(acts, Next(2));
  }

  /** Two overlapping Publishes of one type call the same once-registration twice. */
  lemma OnceMayRunTwice()
    ensures exists acts :: Legal(acts) && multiset(After(acts).called)[0] == 2
  {
    var acts := TwoRunning();
    acts := Extend(acts, Next(1));
    acts := Extend(acts, Next(2));
    assert After(acts).called == [0, 0];
  }

  predicate Publishing(p: Proc, t: string) {
    (p.Reading? || p.Running? || p.WantDrop? || p.Dropping?) && p.t == t
  }

  /** No two Publishes of one type are between their first RLock and their delete. */
  ghost predicate Solo(s: State) {
    forall x: Tid, y: Tid, t: string :: Publishing(s.Of(x), t) && Publishing(s.Of(y), t) ==> x == y
  }

  ghost predicate AlwaysSolo(acts: seq<Action>)
    requires Legal(acts)
    decreases |acts|
  {
    Solo(After(acts)) && (acts == [] || AlwaysSolo(acts[..|acts| - 1]))
  }

  /** The thread has called the i-th once-handler of t and will delete the list. */
  predicate Serving(p: Proc, t: string, i: nat) {
    || (p.Running? && p.t == t && |p.regular| + i < |p.ran|)
    || (p.WantDrop? && p.t == t)
    || (p.Dropping? && p.t == t)
  }

  ghost predicate Served(s: State, t: string, i: nat) {
    exists tid: Tid :: Serving(s.Of(tid), t, i)
  }

  /** Registrations are numbered apart, called at most once, and once called either
      gone from the lists or about to go. */
  ghost predicate OnceInv(s: State) {
    && NumberedApart(s)
    && (forall id :: id in s.called ==> id < s.next)
    && (forall t, i: nat :: i < |On(s.bus.once, t)| && On(s.bus.once, t)[i].id in s.called ==> Served(s, t, i))
    && (forall id :: multiset(s.called)[id] <= 1)
  }

  /** A once-list before and after a step: the same, gone, or longer by a new registration. */
  ghost predicate ListStep(before: seq<Handler>, after: seq<Handler>, next: nat) {
    || after == before || after == []
    || (|after| == |before| + 1 && after[|before|].id == next && forall i :: 0 <= i < |before| ==> after[i] == before[i])
  }

  /** What one step does to a once-list. */
  lemma OnceListAfter(s: State, a: Action, t: string)
    requires Inv(s) && Enabled(s, a)
    ensures var list, list', s' := On(s.bus.once, t), On(Do(s, a).bus.once, t), Do(s, a);
            && ListStep(list, list', s.next)
            && (list' == list || list' == [] || (s'.next == s.next + 1 && s'.called == s.called))
  {
  }

  lemma ServedStays(s: State, a: Action, t: string, i: nat)
    requires Inv(s) && Enabled(s, a) && Served(s, t, i)
    ensures Served(Do(s, a), t, i) || On(Do(s, a).bus.once, t) == []
  {
    var s' := Do(s, a);
    var tid: Tid :| Serving(s.Of(tid), t, i);
    assert ViewInv(s, s.Of(tid));
    if tid != a.tid {
      assert s'.Of(tid) == s.Of(tid);
    }
    assert Serving(s'.Of(tid), t, i) || On(s'.bus.once, t) == [];
  }

  /** What a step adds to the calls: nothing, or a handler of the thread's own list that
      no thread has called before. */
  lemma CallIsNew(s: State, a: Action)
    requires Inv(s) && OnceInv(s) && Solo(s) && Enabled(s, a) && Do(s, a).called != s.called
    ensures a.Next? && s.Of(a.tid).Running? && |s.Of(a.tid).regular| <= |s.Of(a.tid).ran|
    ensures var p := s.Of(a.tid);
            var i := |p.ran| - |p.regular|;
            && i < |On(s.bus.once, p.t)| && Do(s, a).called == s.called + [On(s.bus.once, p.t)[i].id]
            && On(s.bus.once, p.t)[i].id !in s.called && Do(s, a).bus == s.bus
            && Serving(Do(s, a).Of(a.tid), p.t, i)
  {
    var p := s.Of(a.tid);
    assert ViewInv(s, p);
    var i := |p.ran| - |p.regular|;
    if On(s.bus.once, p.t)[i].id in s.called {
      assert Served(s, p.t, i);
      var tid: Tid :| Serving(s.Of(tid), p.t, i);
      assert Publishing(s.Of(tid), p.t) && Publishing(p, p.t);
      assert false;
    }
  }

  lemma OnceStepServed(s: State, a: Action, t: string, i: nat)
    requires Inv(s) && OnceInv(s) && Solo(s) && Enabled(s, a)
    requires i < |On(Do(s, a).bus.once, t)| && On(Do(s, a).bus.once, t)[i].id in Do(s, a).called
    ensures Served(Do(s, a), t, i)
  {
    var s' := Do(s, a);
    var list, list' := On(s.bus.once, t), On(s'.bus.once, t);
    OnceListAfter(s, a, t);
    if i < |list| {
      assert list'[i] == list[i];
      if list[i].id in s.called {
        ServedStays(s, a, t, i);
      } else {
        CallIsNew(s, a);
        assert Serving(s'.Of(a.tid), t, i);
      }
    }
  }

  ghost predicate NumberedApart(s: State) {
    && (forall t, i :: 0 <= i < |On(s.bus.once, t)| ==> On(s.bus.once, t)[i].id < s.next)
    && (forall t, u, i, j ::
          (0 <= i < |On(s.bus.once, t)| && 0 <= j < |On(s.bus.once, u)| && On(s.bus.once, t)[i].id == On(s.bus.once, u)[j].id)
          ==> t == u && i == j)
  }

  lemma NumberStep(s: State, a: Action)
    requires Inv(s) && NumberedApart(s) && Enabled(s, a)
    ensures NumberedApart(Do(s, a))
  {
    var s' := Do(s, a);
    forall t, i | 0 <= i < |On(s'.bus.once, t)| ensures On(s'.bus.once, t)[i].id < s'.next {
      NumberBelow(s, a, t, i);
    }
    forall t, u, i, j | 0 <= i < |On(s'.bus.once, t)| && 0 <= j < |On(s'.bus.once, u)|
      && On(s'.bus.once, t)[i].id == On(s'.bus.once, u)[j].id
      ensures t == u && i == j
    {
      NumberStepPair(s, a, t, u, i, j);
    }
  }

  lemma NumberBelow(s: State, a: Action, t: string, i: nat)
    requires Inv(s) && NumberedApart(s) && Enabled(s, a) && i < |On(Do(s, a).bus.once, t)|
    ensures On(Do(s, a).bus.once, t)[i].id < Do(s, a).next
  {
    OnceListAfter(s, a, t);
    assert s.next <= Do(s, a).next;
  }

  lemma WhichListGrows(s: State, a: Action, t: string)
    requires Inv(s) && Enabled(s, a) && |On(Do(s, a).bus.once, t)| > |On(s.bus.once, t)|
    ensures a.Next? && s.Of(a.tid).Locked? && s.Of(a.tid).op.SubscribeOnce? && s.Of(a.tid).op.t == t
  {
  }

  lemma NumberStepPair(s: State, a: Action, t: string, u: string, i: nat, j: nat)
    requires Inv(s) && NumberedApart(s) && Enabled(s, a)
    requires i < |On(Do(s, a).bus.once, t)| && j < |On(Do(s, a).bus.once, u)|
    requires On(Do(s, a).bus.once, t)[i].id == On(Do(s, a).bus.once, u)[j].id
    ensures t == u && i == j
  {
    var ts, us := On(s.bus.once, t), On(s.bus.once, u);
    var ts', us' := On(Do(s, a).bus.once, t), On(Do(s, a).bus.once, u);
    assert ListStep(ts, ts', s.next) by { OnceListAfter(s, a, t); }
    assert ListStep(us, us', s.next) by { OnceListAfter(s, a, u); }
    if i >= |ts| && j >= |us| {
      WhichListGrows(s, a, t);
      WhichListGrows(s, a, u);
    } else {
      assert i < |ts| ==> ts[i].id < s.next;
      assert j < |us| ==> us[j].id < s.next;
    }
  }

  lemma CalledStep(s: State, a: Action)
    requires Inv(s) && OnceInv(s) && Solo(s) && Enabled(s, a)
    ensures forall id :: id in Do(s, a).called ==> id < Do(s, a).next
    ensures forall id :: multiset(Do(s, a).called)[id] <= 1
  {
    var s' := Do(s, a);
    assert s.next <= s'.next;
    if s'.called != s.called { CallIsNew(s, a); }
  }

  lemma OnceStep(s: State, a: Action)
    requires Inv(s) && OnceInv(s) && Solo(s) && Enabled(s, a)
    ensures OnceInv(Do(s, a))
  {
    NumberStep(s, a);
    CalledStep(s, a);
    var s' := Do(s, a);
    forall t, i: nat | i < |On(s'.bus.once, t)| && On(s'.bus.once, t)[i].id in s'.called
      ensures Served(s', t, i)
    {
      OnceStepServed(s, a, t, i);
    }
  }

  /** As long as no two Publishes of one type overlap, whatever else interleaves, no
      once-registration is called twice. */
  lemma {:induction false} OnceWithoutOverlap(acts: seq<Action>)
    requires Legal(acts) && AlwaysSolo(acts)
    ensures OnceInv(After(acts))
    ensures forall id :: multiset(After(acts).called)[id] <= 1
  {
    if acts != [] {
      var front := acts[..|acts| - 1];
      OnceWithoutOverlap(front);
      InvAlways(front);
      OnceStep(After(front), acts[|acts| - 1]);
    }
  }

  // ------------------------------------------- how often, exactly

  /** Calls of registration id that a Publish in progress still has to make. */
  ghost function Owed(p: Proc, id: nat): nat {
    if p.Reading? then multiset(Ids(On(p.seen.once, p.t)))[id]
    else if p.Running? then multiset(Ids(Remaining(p)))[id]
    else 0
  }

  /** The once-handlers a running Publish has yet to call. */
  function Remaining(p: Proc): seq<Handler>
    requires p.Running?
  {
    if |p.ran| <= |p.regular| then p.once
    else if |p.ran| <= |p.regular| + |p.once| then p.once[|p.ran| - |p.regular|..]
    else []
  }

  ghost function Sum(s: State, tids: set<Tid>, id: nat): nat {
    if tids == {} then 0
    else
      var tid :| tid in tids;
      Owed(s.Of(tid), id) + Sum(s, tids - {tid}, id)
  }

  lemma {:induction false} SumPick(s: State, tids: set<Tid>, tid: Tid, id: nat)
    requires tid in tids
    ensures Sum(s, tids, id) == Owed(s.Of(tid), id) + Sum(s, tids - {tid}, id)
    decreases |tids|
  {
    var x :| x in tids && Sum(s, tids, id) == Owed(s.Of(x), id) + Sum(s, tids - {x}, id);
    if x != tid {
      SumPick(s, tids - {x}, tid, id);
      SumPick(s, tids - {tid}, x, id);
      assert tids - {x} - {tid} == tids - {tid} - {x};
    }
  }

  lemma {:induction false} SumSame(s: State, s': State, tids: set<Tid>, id: nat)
    requires forall tid :: tid in tids ==> s.Of(tid) == s'.Of(tid)
    ensures Sum(s, tids, id) == Sum(s', tids, id)
    decreases |tids|
  {
    if tids != {} {
      var x :| x in tids;
      SumPick(s, tids, x, id);
      SumPick(s', tids, x, id);
      SumSame(s, s', tids - {x}, id);
    }
  }

  lemma SumStep(s: State, a: Action, id: nat)
    requires Enabled(s, a)
    ensures var s' := Do(s, a);
            Sum(s', s'.procs.Keys, id) + Owed(s.Of(a.tid), id) == Sum(s, s.procs.Keys, id) + Owed(s'.Of(a.tid), id)
  {
    var s' := Do(s, a);
    var others := s.procs.Keys - {a.tid};
    assert s'.procs.Keys == s.procs.Keys + {a.tid};
    assert s'.procs.Keys - {a.tid} == others;
    SumPick(s', s'.procs.Keys, a.tid, id);
    SumSame(s, s', others, id);
    if a.tid in s.procs.Keys {
      SumPick(s, s.procs.Keys, a.tid, id);
    } else {
      assert others == s.procs.Keys;
    }
  }

  /** How many of these Publishes took their read lock while registration id was listed
      for their type. */
  ghost function LocksWith(taken: seq<Taken>, id: nat): nat {
    if taken == [] then 0
    else
      var last := taken[|taken| - 1];
      LocksWith(taken[..|taken| - 1], id) + multiset(Ids(On(last.seen.once, last.t)))[id]
  }

  lemma OwedShrinks(p: Proc, h: Handler, id: nat)
    requires p.Running? && |p.regular| <= |p.ran| < |p.regular| + |p.once| && h == p.once[|p.ran| - |p.regular|]
    ensures Owed(p, id) == Owed(p.(ran := p.ran + [h]), id) + if h.id == id then 1 else 0
  {
    var k := |p.ran| - |p.regular|;
    var rest := p.once[k + 1..];
    assert Remaining(p) == [h] + rest by { assert p.once[0..] == p.once; }
    assert Remaining(p.(ran := p.ran + [h])) == rest;
    OneMoreId(h, rest, id);
  }

  lemma OneMoreId(h: Handler, rest: seq<Handler>, id: nat)
    ensures multiset(Ids([h] + rest))[id] == multiset(Ids(rest))[id] + if h.id == id then 1 else 0
  {
    assert Ids([h] + rest) == [h.id] + Ids(rest);
  }

  /** Calls, read locks and the thread's own debt move together in one step. */
  ghost predicate InStep(s: State, s': State, tid: Tid, id: nat) {
    multiset(s'.called)[id] + LocksWith(s.taken, id) + Owed(s'.Of(tid), id)
    == multiset(s.called)[id] + LocksWith(s'.taken, id) + Owed(s.Of(tid), id)
  }

  lemma RegularInStep(s: State, tid: Tid, id: nat)
    requires Inv(s) && s.Of(tid).Running? && |s.Of(tid).ran| < |s.Of(tid).regular|
    ensures InStep(s, Do(s, Next(tid)), tid, id)
  {
    var p, s' := s.Of(tid), Do(s, Next(tid));
    assert s'.taken == s.taken && s'.called == s.called && Remaining(s'.Of(tid)) == Remaining(p);
  }

  lemma CallInStep(s: State, tid: Tid, id: nat)
    requires Inv(s) && s.Of(tid).Running? && |s.Of(tid).regular| <= |s.Of(tid).ran| < |s.Of(tid).regular| + |s.Of(tid).once|
    ensures InStep(s, Do(s, Next(tid)), tid, id)
  {
    var p, s' := s.Of(tid), Do(s, Next(tid));
    var h := p.once[|p.ran| - |p.regular|];
    assert s'.taken == s.taken && s'.called == s.called + [h.id] && s'.Of(tid) == p.(ran := p.ran + [h]);
    OwedShrinks(p, h, id);
  }

  lemma LastInStep(s: State, tid: Tid, id: nat)
    requires Inv(s) && s.Of(tid).Running? && |s.Of(tid).ran| == |s.Of(tid).regular| + |s.Of(tid).once|
    ensures InStep(s, Do(s, Next(tid)), tid, id)
  {
    var p, s' := s.Of(tid), Do(s, Next(tid));
    assert Remaining(p) == [] && Ids(Remaining(p)) == [];
    assert s'.taken == s.taken && s'.called == s.called && Owed(s'.Of(tid), id) == 0;
  }

  lemma RunningInStep(s: State, tid: Tid, id: nat)
    requires Inv(s) && s.Of(tid).Running?
    ensures InStep(s, Do(s, Next(tid)), tid, id)
  {
    var p := s.Of(tid);
    assert |p.ran| <= |p.regular| + |p.once| by { assert ViewInv(s, p); }
    if |p.ran| < |p.regular| {
      RegularInStep(s, tid, id);
    } else if |p.ran| < |p.regular| + |p.once| {
      CallInStep(s, tid, id);
    } else {
      LastInStep(s, tid, id);
    }
  }

  lemma LockingInStep(s: State, tid: Tid, id: nat)
    requires Enabled(s, Next(tid)) && s.Of(tid).WantRLock?
    ensures InStep(s, Do(s, Next(tid)), tid, id)
  {
    var s' := Do(s, Next(tid));
    assert s'.taken[..|s.taken|] == s.taken;
  }

  lemma ReadingInStep(s: State, tid: Tid, id: nat)
    requires Inv(s) && s.Of(tid).Reading?
    ensures InStep(s, Do(s, Next(tid)), tid, id)
  {
    var p, s' := s.Of(tid), Do(s, Next(tid));
    assert ViewInv(s, p);
    assert s'.called == s.called && s'.taken == s.taken;
    if s'.Of(tid).Running? {
      assert Remaining(s'.Of(tid)) == On(p.seen.once, p.t);
    } else {
      assert On(p.seen.once, p.t) == [] && Ids(On(p.seen.once, p.t)) == [];
    }
  }

  lemma AlwaysInStep(s: State, a: Action, id: nat)
    requires Inv(s) && Enabled(s, a)
    ensures InStep(s, Do(s, a), a.tid, id)
  {
    var p := s.Of(a.tid);
    if a.Next? && p.Running? {
      RunningInStep(s, a.tid, id);
    } else if a.Next? && p.Reading? {
      ReadingInStep(s, a.tid, id);
    } else if a.Next? && p.WantRLock? {
      LockingInStep(s, a.tid, id);
    }
  }

  /** In every interleaving, the calls made of a once-registration and those still owed by
      running Publishes are as many as the read locks taken while it was listed. */
  lemma {:induction false} OnceCountsLocks(acts: seq<Action>, id: nat)
    requires Legal(acts)
    ensures var s := After(acts);
            multiset(s.called)[id] + Sum(s, s.procs.Keys, id) == LocksWith(s.taken, id)
  {
    if acts != [] {
      var front, a := acts[..|acts| - 1], acts[|acts| - 1];
      OnceCountsLocks(front, id);
      InvAlways(front);
      SumStep(After(front), a, id);
      AlwaysInStep(After(front), a, id);
    }
  }

  lemma {:induction false} NobodyOwes(s: State, tids: set<Tid>, id: nat)
    requires forall tid :: tid in tids ==> !s.Of(tid).Reading? && !s.Of(tid).Running?
    ensures Sum(s, tids, id) == 0
    decreases |tids|
  {
    if tids != {} {
      var x :| x in tids;
      SumPick(s, tids, x, id);
      NobodyOwes(s, tids - {x}, id);
    }
  }

  /** When no Publish is between its read lock and its last call, "at most once" holds of a
      registration if and only if at most one Publish took its read lock while it was
      listed. */
  lemma OnceAtRest(acts: seq<Action>, id: nat)
    requires Legal(acts) && forall tid: Tid :: !After(acts).Of(tid).Reading? && !After(acts).Of(tid).Running?
    ensures multiset(After(acts).called)[id] == LocksWith(After(acts).taken, id)
    ensures multiset(After(acts).called)[id] <= 1 <==> LocksWith(After(acts).taken, id) <= 1
  {
    OnceCountsLocks(acts, id);
    NobodyOwes(After(acts), After(acts).procs.Keys, id);
  }

  // ---------------------------------------- a registration may be lost

  ghost predicate Listed(s: State, t: string, id: nat) {
    exists h :: h in On(s.bus.once, t) && h.id == id
  }

  /** Deleted without a call, and not because the bus was closed. */
  ghost predicate Lost(s: State, t: string, id: nat) {
    !Listed(s, t, id) && id !in s.called && !s.bus.closed
  }

  predicate Deleting(p: Proc, t: string) {
    (p.WantDrop? || p.Dropping?) && p.t == t
  }

  /** Between its read lock and its last call. */
  predicate Serves(p: Proc, t: string) {
    (p.Reading? || p.Running?) && p.t == t
  }

  /** The holder of the write lock is about to close the bus. */
  predicate Closing(s: State) {
    s.writer.Some? && s.Of(s.writer.value) == Locked(Close)
  }

  /** When a listed registration is in danger: not called yet, some Publish of its type
      past its last call will delete the list, none is there that will call it first, and
      the bus is not being closed. */
  ghost predicate CanLose(s: State, t: string, id: nat) {
    && id !in s.called
    && (exists tid: Tid :: Deleting(s.Of(tid), t))
    && (forall tid: Tid :: !Serves(s.Of(tid), t))
    && !Closing(s)
  }

  /** A running Publish has put the calls it made on record. */
  ghost predicate OnRecord(s: State) {
    forall tid: Tid, k: nat :: s.Of(tid).Running? && k < |s.Of(tid).once| && |s.Of(tid).regular| + k < |s.Of(tid).ran| ==>
      s.Of(tid).once[k].id in s.called
  }

  lemma CalledGrows(s: State, a: Action)
    requires Enabled(s, a)
    ensures s.called <= Do(s, a).called && forall id :: id in s.called ==> id in Do(s, a).called
  {
  }

  lemma OwnRecordStep(s: State, tid: Tid, k: nat)
    requires Inv(s) && OnRecord(s) && Enabled(s, Next(tid))
    requires var p := Do(s, Next(tid)).Of(tid); p.Running? && k < |p.once| && |p.regular| + k < |p.ran|
    ensures Do(s, Next(tid)).Of(tid).once[k].id in Do(s, Next(tid)).called
  {
    var s', p := Do(s, Next(tid)), s.Of(tid);
    CalledGrows(s, Next(tid));
    if |p.regular| + k < |p.ran| {
      assert p.once[k].id in s.called;
    } else {
      assert s'.called[|s.called|] == p.once[k].id;
    }
  }

  lemma RecordStep(s: State, a: Action)
    requires Inv(s) && OnRecord(s) && Enabled(s, a)
    ensures OnRecord(Do(s, a))
  {
    var s' := Do(s, a);
    OthersStay(s, a);
    CalledGrows(s, a);
    forall tid: Tid, k: nat | s'.Of(tid).Running? && k < |s'.Of(tid).once| && |s'.Of(tid).regular| + k < |s'.Of(tid).ran|
      ensures s'.Of(tid).once[k].id in s'.called
    {
      if tid == a.tid {
        OwnRecordStep(s, tid, k);
      } else {
        assert s.Of(tid).once[k].id in s.called;
      }
    }
  }

  lemma {:induction false} RecordAlways(acts: seq<Action>)
    requires Legal(acts)
    ensures OnRecord(After(acts)) && NumberedApart(After(acts))
  {
    if acts != [] {
      var front := acts[..|acts| - 1];
      RecordAlways(front);
      InvAlways(front);
      RecordStep(After(front), acts[|acts| - 1]);
      NumberStep(After(front), acts[|acts| - 1]);
    }
  }

  /** Called, or on a closed bus, or listed and out of danger. */
  ghost predicate Safe(s: State, t: string, id: nat) {
    id in s.called || s.bus.closed || (Listed(s, t, id) && !CanLose(s, t, id))
  }

  /** The last call of a Publish of t leaves every listed registration of t called. */
  lemma AllCalled(s: State, tid: Tid, t: string, id: nat)
    requires Inv(s) && OnRecord(s) && Listed(s, t, id)
    requires var p := s.Of(tid); p.Running? && p.t == t && |p.ran| == |p.regular| + |p.once|
    ensures id in s.called
  {
    var p := s.Of(tid);
    assert ViewInv(s, p);
    var h :| h in On(s.bus.once, t) && h.id == id;
    var k :| 0 <= k < |p.once| && p.once[k] == h;
  }

  /** A step of a Publish that will still call the registration. */
  lemma ServerStep(s: State, a: Action, server: Tid, t: string, id: nat)
    requires Inv(s) && OnRecord(s) && Enabled(s, a) && Listed(s, t, id) && id !in s.called && !s.bus.closed
    requires Serves(s.Of(server), t)
    ensures id in Do(s, a).called || (Listed(Do(s, a), t, id) && Serves(Do(s, a).Of(server), t))
  {
    var s', p := Do(s, a), s.Of(server);
    assert s'.bus == s.bus by {
      assert server in s.readers;
      if s'.bus != s.bus { BusChangesUnderLock(s, a); }
    }
    assert ViewInv(s, p);
    if server == a.tid && p.Running? && |p.ran| == |p.regular| + |p.once| {
      AllCalled(s, server, t, id);
    } else if server == a.tid && p.Reading? {
      assert |On(s.bus.once, t)| > 0;
    }
  }

  /** A step while nobody is about to delete the list. */
  lemma QuietStep(s: State, a: Action, t: string, id: nat)
    requires Inv(s) && Enabled(s, a) && Listed(s, t, id)
    requires forall tid: Tid :: !Deleting(s.Of(tid), t)
    ensures Do(s, a).bus.closed || Listed(Do(s, a), t, id)
  {
    var p := s.Of(a.tid);
    assert !Deleting(p, t) && ViewInv(s, p);
    var h :| h in On(s.bus.once, t) && h.id == id;
    if a.Next? && p.Locked? {
      OnceListStep(s.bus, p.op, s.next, t);
    }
    assert Do(s, a).bus.closed || h in On(Do(s, a).bus.once, t);
  }

  lemma NobodyDeletes(s: State, a: Action, t: string, tid: Tid)
    requires Enabled(s, a) && !Deleting(s.Of(tid), t) && !Serves(s.Of(tid), t)
    ensures !Deleting(Do(s, a).Of(tid), t)
  {
  }

  lemma ClosingStep(s: State, a: Action)
    requires Inv(s) && Enabled(s, a) && Closing(s) && !s.bus.closed
    ensures Do(s, a).bus.closed || (Do(s, a).bus == s.bus && Do(s, a).called == s.called && Closing(Do(s, a)))
  {
    var w := s.writer.value;
    if a.tid != w {
      assert !HoldsWrite(s.Of(a.tid)) && a.tid !in s.readers && !HoldsRead(s.Of(a.tid));
    }
  }

  lemma SafeStep(s: State, a: Action, t: string, id: nat)
    requires Inv(s) && OnRecord(s) && Enabled(s, a) && Safe(s, t, id)
    ensures Safe(Do(s, a), t, id)
  {
    var s' := Do(s, a);
    assert id in s.called ==> id in s'.called;
    assert s.bus.closed ==> s'.bus.closed by { InvStep(s, a); }
    if id !in s.called && !s.bus.closed {
      if server: Tid :| Serves(s.Of(server), t) {
        ServerStep(s, a, server, t, id);
      } else if Closing(s) {
        ClosingStep(s, a);
      } else {
        QuietStep(s, a, t, id);
        forall tid: Tid ensures !Deleting(s'.Of(tid), t) { NobodyDeletes(s, a, t, tid); }
      }
    }
  }

  lemma {:induction false} SafeAlways(acts: seq<Action>, k: nat, t: string, id: nat)
    requires Legal(acts) && k <= |acts| && Legal(acts[..k]) && Safe(After(acts[..k]), t, id)
    ensures Safe(After(acts), t, id)
  {
    if k == |acts| {
      assert acts[..k] == acts;
    } else {
      var front := acts[..|acts| - 1];
      assert front[..k] == acts[..k];
      SafeAlways(front, k, t, id);
      InvAlways(front);
      RecordAlways(front);
      SafeStep(After(front), acts[|acts| - 1], t, id);
    }
  }

  // The continuation that loses it: whoever holds the lock moves on, then the list goes.

  /** Nothing but threads other than `dropper` has moved, and nothing brought help. */
  ghost predicate StillInDanger(s: State, t: string, id: nat, dropper: Tid) {
    && id !in s.called && !s.bus.closed && s.Of(dropper) == WantDrop(t) && Listed(s, t, id)
    && forall tid: Tid :: !Serves(s.Of(tid), t)
  }

  /** Steps a Publish takes before it gives up its read lock. */
  ghost function StepsLeft(s: State, p: Proc): nat {
    match p
    case Reading(t, _, _) => |On(s.bus.handlers, t)| + |On(s.bus.once, t)| + 3
    case Running(_, _, _, regular, once, ran) => if |ran| <= |regular| + |once| then |regular| + |once| - |ran| + 2 else 2
    case Leaving => 1
    case _ => 0
  }

  /** One step of a reader of another type: it comes closer to giving up its lock. */
  lemma ReaderProgress(s: State, tid: Tid)
    requires Inv(s) && tid in s.readers
    ensures Enabled(s, Next(tid))
    ensures var s' := Do(s, Next(tid));
            && s'.bus == s.bus && s'.writer == s.writer
            && (s'.readers == s.readers - {tid} || (s'.readers == s.readers && StepsLeft(s', s'.Of(tid)) < StepsLeft(s, s.Of(tid))))
  {
    var p, s' := s.Of(tid), Do(s, Next(tid));
    assert HoldsRead(p) && ViewInv(s, p);
    if p.Leaving? {
      assert s'.readers == s.readers - {tid};
    } else if p.Reading? {
      assert s'.readers == s.readers && StepsLeft(s', s'.Of(tid)) < StepsLeft(s, p);
    } else if |p.ran| < |p.regular| + |p.once| {
      assert s'.readers == s.readers && StepsLeft(s', s'.Of(tid)) == StepsLeft(s, p) - 1;
    }
  }

  /** It calls no handler of type t. */
  lemma ReaderCallsOthers(s: State, tid: Tid, t: string, id: nat)
    requires Inv(s) && NumberedApart(s) && Listed(s, t, id) && id !in s.called
    requires tid in s.readers && !Serves(s.Of(tid), t) && Enabled(s, Next(tid))
    ensures id !in Do(s, Next(tid)).called && !Serves(Do(s, Next(tid)).Of(tid), t)
  {
    var p := s.Of(tid);
    assert HoldsRead(p) && ViewInv(s, p);
    if p.Running? && |p.regular| <= |p.ran| < |p.regular| + |p.once| {
      var h := p.once[|p.ran| - |p.regular|];
      assert h in On(s.bus.once, p.t);
      ListedOnce(s, t, id);
      assert !Listed(s, p.t, id);
      assert h.id != id;
    }
  }

  lemma ReaderMoves(s: State, tid: Tid, t: string, id: nat, dropper: Tid)
    requires Inv(s) && NumberedApart(s) && StillInDanger(s, t, id, dropper) && tid in s.readers
    ensures Enabled(s, Next(tid)) && StillInDanger(Do(s, Next(tid)), t, id, dropper)
  {
    ReaderProgress(s, tid);
    var s' := Do(s, Next(tid));
    assert HoldsRead(s.Of(tid)) && tid != dropper;
    OthersStay(s, Next(tid));
    assert Listed(s', t, id) by { assert On(s'.bus.once, t) == On(s.bus.once, t); }
    assert !Serves(s.Of(tid), t);
    ReaderCallsOthers(s, tid, t, id);
    forall x: Tid ensures !Serves(s'.Of(x), t) {
      assert !Serves(s.Of(x), t);
    }
  }

  lemma {:induction false} ReadersLeave(acts: seq<Action>, t: string, id: nat, dropper: Tid, tid: Tid) returns (more: seq<Action>)
    requires Legal(acts) && StillInDanger(After(acts), t, id, dropper) && After(acts).writer == None
    requires After(acts).readers != {} ==> tid in After(acts).readers
    ensures acts <= more && Legal(more) && StillInDanger(After(more), t, id, dropper)
    ensures After(more).writer == None && After(more).readers == {}
    decreases |After(acts).readers|, StepsLeft(After(acts), After(acts).Of(tid))
  {
    var s := After(acts);
    if s.readers == {} {
      return acts;
    }
    InvAlways(acts);
    RecordAlways(acts);
    ReaderMoves(s, tid, t, id, dropper);
    ReaderProgress(s, tid);
    more := Extend(acts, Next(tid));
    var s' := After(more);
    var next: Tid := tid;
    if tid !in s'.readers && s'.readers != {} {
      next :| next in s'.readers;
    }
    more := ReadersLeave(more, t, id, dropper, next);
  }

  /** The holder of the write lock, not about to close, gives it back. */
  lemma WriterLeaves(acts: seq<Action>, t: string, id: nat, dropper: Tid) returns (more: seq<Action>)
    requires Legal(acts) && StillInDanger(After(acts), t, id, dropper) && !Closing(After(acts))
    ensures acts <= more && Legal(more)
    ensures Lost(After(more), t, id) || (StillInDanger(After(more), t, id, dropper) && After(more).writer == None)
  {
    var s := After(acts);
    if s.writer == None {
      return acts;
    }
    var w := s.writer.value;
    InvAlways(acts);
    assert HoldsWrite(s.Of(w));
    more := acts;
    if s.Of(w).Locked? || s.Of(w).Dropping? {
      more := Extend(acts, Next(w));
      BodyInDanger(s, w, t, id, dropper);
    }
    if !Lost(After(more), t, id) {
      var s1 := After(more);
      more := Extend(more, Next(w));
      forall x: Tid ensures !Serves(After(more).Of(x), t) {
        assert !Serves(s1.Of(x), t);
        assert x != w ==> After(more).Of(x) == s1.Of(x);
      }
      assert Listed(After(more), t, id) by {
        var h :| h in On(s1.bus.once, t) && h.id == id;
        assert h in On(After(more).bus.once, t);
      }
    }
  }

  lemma BodyInDanger(s: State, w: Tid, t: string, id: nat, dropper: Tid)
    requires Inv(s) && StillInDanger(s, t, id, dropper) && !Closing(s) && s.writer == Some(w)
    requires s.Of(w).Locked? || s.Of(w).Dropping?
    ensures var s' := Do(s, Next(w));
            && s'.writer == Some(w) && (s'.Of(w).Written? || s'.Of(w).Dropped?)
            && (Lost(s', t, id) || StillInDanger(s', t, id, dropper))
  {
    var s', p := Do(s, Next(w)), s.Of(w);
    assert ViewInv(s, p) && w != dropper;
    var h :| h in On(s.bus.once, t) && h.id == id;
    forall x: Tid ensures !Serves(s'.Of(x), t) {
      assert !Serves(s.Of(x), t);
      assert x != w ==> s'.Of(x) == s.Of(x);
    }
    if p.Locked? {
      OnceListStep(s.bus, p.op, s.next, t);
      assert h in On(s'.bus.once, t);
    } else if p.t != t {
      assert h in On(s'.bus.once, t);
    }
  }

  lemma DropLoses(acts: seq<Action>, t: string, id: nat, dropper: Tid) returns (more: seq<Action>)
    requires Legal(acts) && After(acts).Of(dropper) == Dropping(t) && id !in After(acts).called && !After(acts).bus.closed
    ensures acts <= more && Legal(more) && Lost(After(more), t, id)
  {
    more := Extend(acts, Next(dropper));
  }

  lemma LoseIt(acts: seq<Action>, t: string, id: nat) returns (more: seq<Action>)
    requires Legal(acts) && Listed(After(acts), t, id) && CanLose(After(acts), t, id)
    ensures acts <= more && Legal(more) && Lost(After(more), t, id)
  {
    var s := After(acts);
    InvAlways(acts);
    var dropper: Tid :| Deleting(s.Of(dropper), t);
    if s.Of(dropper).Dropping? {
      more := DropLoses(acts, t, id, dropper);
      return;
    }
    more := WriterLeaves(acts, t, id, dropper);
    if !Lost(After(more), t, id) {
      var readers := After(more).readers;
      var tid: Tid := 0;
      if readers != {} { tid :| tid in readers; }
      more := ReadersLeave(more, t, id, dropper, tid);
      more := Extend(more, Next(dropper));
      more := DropLoses(more, t, id, dropper);
    }
  }

  /** A continuation of the run in which the registration is lost. */
  ghost predicate LosingRun(acts: seq<Action>, more: seq<Action>, t: string, id: nat) {
    acts <= more && Legal(more) && Lost(After(more), t, id)
  }

  /** Exactly when a listed once-registration can be deleted uncalled. */
  lemma OnceLostIff(acts: seq<Action>, t: string, id: nat)
    requires Legal(acts) && Listed(After(acts), t, id)
    ensures (exists more :: LosingRun(acts, more, t, id)) <==> CanLose(After(acts), t, id)
  {
    if CanLose(After(acts), t, id) {
      var more := LoseIt(acts, t, id);
      assert LosingRun(acts, more, t, id);
    } else {
      forall more | acts <= more && Legal(more) ensures !LosingRun(acts, more, t, id) {
        assert more[..|acts|] == acts;
        SafeAlways(more, |acts|, t, id);
      }
    }
  }

  /** So a registration that is listed while no Publish of its type is past its last call is,
      in every later state, still listed, called, or on a closed bus. */
  lemma OnceKept(acts: seq<Action>, more: seq<Action>, t: string, id: nat)
    requires Legal(acts) && Listed(After(acts), t, id) && acts <= more && Legal(more)
    requires forall tid: Tid :: !Deleting(After(acts).Of(tid), t)
    ensures Listed(After(more), t, id) || id in After(more).called || After(more).bus.closed
  {
    OnceLostIff(acts, t, id);
    assert !LosingRun(acts, more, t, id);
  }

  // ------------------------------------------- a registration may run twice

  ghost function CallsOf(s: State, id: nat): nat {
    multiset(s.called)[id]
  }

  /** The holder of the write lock is about to take the list away. */
  predicate Doomed(s: State, t: string) {
    s.writer.Some? && (s.Of(s.writer.value) == Locked(Close) || s.Of(s.writer.value) == Dropping(t))
  }

  /** Only a reader of a list with the registration calls it. */
  lemma WhoCalls(s: State, a: Action, id: nat)
    requires Inv(s) && Enabled(s, a)
    ensures CallsOf(s, id) <= CallsOf(Do(s, a), id)
    ensures CallsOf(s, id) < CallsOf(Do(s, a), id) ==>
              a.tid in s.readers && s.Of(a.tid).Running? && Listed(s, s.Of(a.tid).t, id)
  {
    var p := s.Of(a.tid);
    assert ViewInv(s, p);
    if a.Next? && p.Running? && |p.regular| <= |p.ran| < |p.regular| + |p.once| {
      assert p.once[|p.ran| - |p.regular|] in On(s.bus.once, p.t);
    }
  }

  /** Called n times, and in no list but one that is about to go. */
  ghost predicate Spent(s: State, t: string, id: nat, n: nat) {
    && id < s.next && CallsOf(s, id) == n
    && (forall u :: u != t ==> !Listed(s, u, id))
    && (Listed(s, t, id) ==> Doomed(s, t))
  }

  /** While the list is doomed, either nothing happens to it or it goes. */
  lemma DoomedStep(s: State, a: Action, t: string)
    requires Inv(s) && Enabled(s, a) && Doomed(s, t)
    ensures Doomed(Do(s, a), t) || On(Do(s, a).bus.once, t) == []
    ensures a.tid !in s.readers
  {
    var w := s.writer.value;
    assert !HoldsRead(s.Of(a.tid)) by { assert a.tid !in s.readers; }
    if a.tid != w {
      assert !HoldsWrite(s.Of(a.tid));
      OthersStay(s, a);
    }
  }

  lemma SpentStep(s: State, a: Action, t: string, id: nat, n: nat)
    requires Inv(s) && Enabled(s, a) && Spent(s, t, id, n)
    ensures Spent(Do(s, a), t, id, n)
  {
    WhoCalls(s, a, id);
    forall u | u != t ensures !Listed(Do(s, a), u, id) { UnlistedStep(s, a, u, id); }
    assert id < Do(s, a).next by { UnlistedStep(s, a, t + "x", id); }
    if Listed(s, t, id) {
      DoomedStep(s, a, t);
    } else {
      UnlistedStep(s, a, t, id);
    }
  }

  lemma {:induction false} SpentAlways(acts: seq<Action>, k: nat, t: string, id: nat, n: nat)
    requires Legal(acts) && k <= |acts| && Legal(acts[..k]) && Spent(After(acts[..k]), t, id, n)
    ensures Spent(After(acts), t, id, n)
  {
    if k == |acts| {
      assert acts[..k] == acts;
    } else {
      var front := acts[..|acts| - 1];
      assert front[..k] == acts[..k];
      SpentAlways(front, k, t, id, n);
      InvAlways(front);
      SpentStep(After(front), acts[|acts| - 1], t, id, n);
    }
  }

  // The continuation that calls it twice: two more Publishes, one after the other.

  lemma {:induction false} Unused(tids: set<Tid>) returns (tid: Tid)
    ensures tid !in tids && forall x :: x in tids ==> x < tid
    decreases |tids|
  {
    if tids == {} {
      return 0;
    }
    var x :| x in tids;
    var more := Unused(tids - {x});
    tid := if more > x then more else x + 1;
    forall y | y in tids ensures y < tid {
      assert y == x || y in tids - {x};
    }
  }

  /** A Publish that has the registration ahead of it gets there. */
  lemma {:induction false} ReachIt(acts: seq<Action>, tid: Tid, id: nat, k: nat) returns (more: seq<Action>)
    requires Legal(acts) && After(acts).Of(tid).Running?
    requires var p := After(acts).Of(tid); k < |p.once| && p.once[k].id == id && |p.ran| <= |p.regular| + k
    ensures acts <= more && Legal(more) && After(more).bus == After(acts).bus && After(more).writer == After(acts).writer
    ensures CallsOf(After(more), id) > CallsOf(After(acts), id)
    decreases |After(acts).Of(tid).regular| + k - |After(acts).Of(tid).ran|
  {
    var p := After(acts).Of(tid);
    InvAlways(acts);
    WhoCalls(After(acts), Next(tid), id);
    more := Extend(acts, Next(tid));
    if |p.ran| < |p.regular| + k {
      more := ReachIt(more, tid, id, k);
    } else {
      assert After(more).called == After(acts).called + [id];
    }
  }

  /** A thread outside any call starts a Publish of t, which has handlers to call. */
  lemma Enter(acts: seq<Action>, t: string) returns (more: seq<Action>, tid: Tid)
    requires Legal(acts) && After(acts).writer == None
    requires !After(acts).bus.closed && On(After(acts).bus.once, t) != []
    ensures acts <= more && Legal(more)
    ensures var s, s' := After(acts), After(more);
            && s'.bus == s.bus && s'.writer == None && s'.called == s.called
            && s'.Of(tid) == Running(t, s.bus, |s.taken|, On(s.bus.handlers, t), On(s.bus.once, t), [])
  {
    tid := Unused(After(acts).procs.Keys);
    more := Extend(acts, Begin(tid, Publish(t)));
    more := Extend(more, Next(tid));
    more := Extend(more, Next(tid));
  }

  /** One more Publish of its type calls a listed registration, and leaves it listed while
      it runs. */
  lemma CallAgain(acts: seq<Action>, t: string, id: nat) returns (more: seq<Action>)
    requires Legal(acts) && Listed(After(acts), t, id) && After(acts).writer == None
    ensures acts <= more && Legal(more) && Listed(After(more), t, id) && After(more).writer == None
    ensures CallsOf(After(more), id) > CallsOf(After(acts), id)
  {
    InvAlways(acts);
    var list := On(After(acts).bus.once, t);
    var h :| h in list && h.id == id;
    var k :| 0 <= k < |list| && list[k] == h;
    var tid;
    more, tid := Enter(acts, t);
    more := ReachIt(more, tid, id, k);
  }

  lemma BodyKeeps(s: State, w: Tid, t: string, id: nat)
    requires Inv(s) && Listed(s, t, id) && !Doomed(s, t) && s.writer == Some(w)
    requires s.Of(w).Locked? || s.Of(w).Dropping?
    ensures var s' := Do(s, Next(w));
            s'.writer == Some(w) && (s'.Of(w).Written? || s'.Of(w).Dropped?) && Listed(s', t, id) && s'.called == s.called
  {
    var s', p := Do(s, Next(w)), s.Of(w);
    assert ViewInv(s, p);
    var h :| h in On(s.bus.once, t) && h.id == id;
    if p.Locked? {
      OnceListStep(s.bus, p.op, s.next, t);
    }
    assert h in On(s'.bus.once, t);
  }

  lemma WriterGoes(acts: seq<Action>, t: string, id: nat) returns (more: seq<Action>)
    requires Legal(acts) && Listed(After(acts), t, id) && !Doomed(After(acts), t)
    ensures acts <= more && Legal(more) && Listed(After(more), t, id) && After(more).writer == None
    ensures After(more).called == After(acts).called
  {
    var s := After(acts);
    if s.writer == None {
      return acts;
    }
    var w := s.writer.value;
    InvAlways(acts);
    assert HoldsWrite(s.Of(w));
    more := acts;
    if s.Of(w).Locked? || s.Of(w).Dropping? {
      BodyKeeps(s, w, t, id);
      more := Extend(acts, Next(w));
    }
    more := Extend(more, Next(w));
  }

  /** A continuation of the run in which the registration has been called twice. */
  ghost predicate TwiceRun(acts: seq<Action>, more: seq<Action>, id: nat) {
    acts <= more && Legal(more) && CallsOf(After(more), id) >= 2
  }

  /** Exactly when a listed once-registration can still come to be called twice: unless the
      write lock is already held to take its list away, always. */
  lemma OnceTwiceIff(acts: seq<Action>, t: string, id: nat)
    requires Legal(acts) && Listed(After(acts), t, id)
    ensures (exists more :: TwiceRun(acts, more, id)) <==> CallsOf(After(acts), id) >= 2 || !Doomed(After(acts), t)
  {
    var s := After(acts);
    if !Doomed(s, t) {
      var more := WriterGoes(acts, t, id);
      more := CallAgain(more, t, id);
      more := CallAgain(more, t, id);
      assert TwiceRun(acts, more, id);
    } else if CallsOf(s, id) >= 2 {
      assert TwiceRun(acts, acts, id);
    } else {
      RecordAlways(acts);
      ListedOnce(s, t, id);
      forall more | acts <= more && Legal(more) ensures !TwiceRun(acts, more, id) {
        assert more[..|acts|] == acts;
        SpentAlways(more, |acts|, t, id, CallsOf(s, id));
      }
    }
  }

  // --------------------------------------------- what is lost stays lost

  /** Not called, in no list, and its number will not be given again. */
  ghost predicate Gone(s: State, id: nat) {
    id < s.next && id !in s.called && forall t :: !Listed(s, t, id)
  }

  lemma UnlistedStep(s: State, a: Action, t: string, id: nat)
    requires Inv(s) && Enabled(s, a) && id < s.next && !Listed(s, t, id)
    ensures id < Do(s, a).next && !Listed(Do(s, a), t, id)
  {
    var list, list' := On(s.bus.once, t), On(Do(s, a).bus.once, t);
    OnceListAfter(s, a, t);
    forall h | h in list' ensures h.id != id {
      var i :| 0 <= i < |list'| && list'[i] == h;
      assert i < |list| ==> list[i] == h && h in list;
    }
  }

  lemma GoneStep(s: State, a: Action, id: nat)
    requires Inv(s) && Enabled(s, a) && Gone(s, id)
    ensures Gone(Do(s, a), id)
  {
    var p := s.Of(a.tid);
    assert ViewInv(s, p);
    if a.Next? && p.Running? && |p.regular| <= |p.ran| < |p.regular| + |p.once| {
      assert p.once[|p.ran| - |p.regular|] in On(s.bus.once, p.t);
      assert !Listed(s, p.t, id);
    }
    forall t ensures !Listed(Do(s, a), t, id) { UnlistedStep(s, a, t, id); }
  }

  lemma {:induction false} UnlistedAlways(acts: seq<Action>, k: nat, t: string, id: nat)
    requires Legal(acts) && k <= |acts| && Legal(acts[..k])
    requires id < After(acts[..k]).next && !Listed(After(acts[..k]), t, id)
    ensures id < After(acts).next && !Listed(After(acts), t, id)
  {
    if k == |acts| {
      assert acts[..k] == acts;
    } else {
      var front := acts[..|acts| - 1];
      assert front[..k] == acts[..k];
      UnlistedAlways(front, k, t, id);
      InvAlways(front);
      UnlistedStep(After(front), acts[|acts| - 1], t, id);
    }
  }

  lemma {:induction false} GoneAlways(acts: seq<Action>, k: nat, id: nat)
    requires Legal(acts) && k <= |acts| && Legal(acts[..k]) && Gone(After(acts[..k]), id)
    ensures Gone(After(acts), id)
  {
    if k == |acts| {
      assert acts[..k] == acts;
    } else {
      var front := acts[..|acts| - 1];
      assert front[..k] == acts[..k];
      GoneAlways(front, k, id);
      InvAlways(front);
      GoneStep(After(front), acts[|acts| - 1], id);
    }
  }

  lemma ListedOnce(s: State, t: string, id: nat)
    requires NumberedApart(s) && Listed(s, t, id)
    ensures id < s.next && forall u :: u != t ==> !Listed(s, u, id)
  {
    var h :| h in On(s.bus.once, t) && h.id == id;
    var i :| 0 <= i < |On(s.bus.once, t)| && On(s.bus.once, t)[i] == h;
    forall u, g | u != t && g in On(s.bus.once, u) ensures g.id != id {
      var j :| 0 <= j < |On(s.bus.once, u)| && On(s.bus.once, u)[j] == g;
    }
  }

  lemma LostIsGone(acts: seq<Action>, more: seq<Action>, t: string, id: nat)
    requires Legal(acts) && Listed(After(acts), t, id) && LosingRun(acts, more, t, id)
    ensures Gone(After(more), id)
  {
    assert more[..|acts|] == acts;
    RecordAlways(acts);
    ListedOnce(After(acts), t, id);
    assert id < After(more).next by { UnlistedAlways(more, |acts|, t + "x", id); }
    forall u ensures !Listed(After(more), u, id) {
      if u != t { UnlistedAlways(more, |acts|, u, id); }
    }
  }

  /** What is lost stays lost: no later step calls it. */
  lemma LostForever(acts: seq<Action>, more: seq<Action>, later: seq<Action>, t: string, id: nat)
    requires Legal(acts) && Listed(After(acts), t, id) && LosingRun(acts, more, t, id)
    requires more <= later && Legal(later)
    ensures Gone(After(later), id)
  {
    assert later[..|more|] == more;
    LostIsGone(acts, more, t, id);
    GoneAlways(later, |more|, id);
  }

  /** A Publish of "t" that has one handler to call, a once-handler, and nobody else around. */
  lemma AboutToCall() returns (acts: seq<Action>)
    ensures Legal(acts)
    ensures var s := After(acts);
            && s.called == [] && s.next == 1 && !s.bus.closed && On(s.bus.once, "t") == [Handler(0, "h")]
            && s.writer == None && s.readers == {1}
            && s.Of(1) == Running("t", s.bus, 0, [], [Handler(0, "h")], [])
            && forall tid: Tid :: tid != 1 ==> s.Of(tid).Idle?
  {
    acts := WholeCall([], 0, SubscribeOnce("t", "h"));
    acts := Extend(acts, Begin(1, Publish("t")));
    acts := Extend(acts, Next(1));
    acts := Extend(acts, Next(1));
  }

  /** The same Publish, about to delete the list. */
  lemma AboutToDrop() returns (acts: seq<Action>)
    ensures Legal(acts)
    ensures var s := After(acts);
            && s.called == [0] && s.next == 1 && !s.bus.closed && On(s.bus.once, "t") == [Handler(0, "h")]
            && s.writer == None && s.readers == {}
            && s.Of(1) == WantDrop("t") && forall tid: Tid :: tid != 1 ==> s.Of(tid).Idle?
  {
    acts := AboutToCall();
    acts := Extend(acts, Next(1));
    acts := Extend(acts, Next(1));
  }

  /** It does happen, with a single Publish: a registration made while that Publish is
      between its two locks is deleted without ever being called. */
  lemma OnceMayBeLost()
    ensures exists acts, more :: Legal(acts) && Listed(After(acts), "t", 1) && LosingRun(acts, more, "t", 1)
  {
    var acts := AboutToDrop();
    acts := WholeCall(acts, 0, SubscribeOnce("t", "h"));
    var s := After(acts);
    assert On(s.bus.once, "t")[1] == Handler(1, "h");
    assert Listed(s, "t", 1);
    assert Deleting(s.Of(1), "t");
    var more := LoseIt(acts, "t", 1);
    assert LosingRun(acts, more, "t", 1);
  }
}
