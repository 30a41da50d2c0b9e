/** The event bus (eventbus/eventbus.go): what each call does to the subscriber lists, the
    bus as an object, and what whole histories of non-overlapping calls guarantee. */
module EventBus {
  import opened Seqs

  /** A registration: id tells registrations apart, addr is the handler's %p text,
      which is all that Unsubscribe compares. */
  datatype Handler = Handler(id: nat, addr: string)

  type Lists = map<string, seq<Handler>>

  datatype Bus = Bus(handlers: Lists, once: Lists, closed: bool)

  const EMPTY := Bus(map[], map[], false)

  function On(lists: Lists, t: string): seq<Handler> {
    if t in lists then lists[t] else []
  }

  // ------------------------------------------------- effects under the lock

  function Subscribed(b: Bus, t: string, h: Handler): Bus {
    if b.closed then b else b.(handlers := b.handlers[t := On(b.handlers, t) + [h]])
  }

  function SubscribedOnce(b: Bus, t: string, h: Handler): Bus {
    if b.closed then b else b.(once := b.once[t := On(b.once, t) + [h]])
  }

  /** Index of the first handler with this address, or |hs|. */
  function Find(hs: seq<Handler>, addr: string): (i: nat)
    ensures i <= |hs| && (i < |hs| ==> hs[i].addr == addr)
    ensures forall k :: 0 <= k < i ==> hs[k].addr != addr
  {
    if hs == [] || hs[0].addr == addr then 0
    else
      assert forall k :: 1 <= k < |hs| ==> hs[k] == hs[1..][k - 1];
      1 + Find(hs[1..], addr)
  }

  predicate CanRemove(b: Bus, t: string, addr: string) {
    Find(On(b.handlers, t), addr) < |On(b.handlers, t)|
  }

  /** Unsubscribe removes the first regular handler with the address; it looks neither
      at once-handlers nor at closed. */
  function Unsubscribed(b: Bus, t: string, addr: string): Bus {
    var hs := On(b.handlers, t);
    var i := Find(hs, addr);
    if i == |hs| then b else b.(handlers := b.handlers[t := hs[..i] + hs[i + 1..]])
  }

  function DroppedOnce(b: Bus, t: string): Bus {
    b.(once := b.once - {t})
  }

  function Closed(b: Bus): Bus {
    Bus(map[], map[], true)
  }

  /** What a Publish runs when nothing interferes: regular handlers, then once-handlers. */
  function Runs(b: Bus, t: string): seq<Handler> {
    if b.closed then [] else On(b.handlers, t) + On(b.once, t)
  }

  function Published(b: Bus, t: string): Bus {
    if b.closed || On(b.once, t) == [] then b else DroppedOnce(b, t)
  }

  // ---------------------------------------------------------- the object

  class DefaultEventBus {
    var handlers: Lists
    var onceHandlers: Lists
    var closed: bool
    /** The handler calls made so far, in order. */
    var calls: seq<Handler>

    ghost function State(): Bus
      reads this
    {
      Bus(handlers, onceHandlers, closed)
    }

    constructor ()
      ensures State() == EMPTY && calls == []
    {
      handlers, onceHandlers, closed, calls := map[], map[], false, [];
    }

    method Subscribe(t: string, h: Handler) returns (ok: bool)
      modifies this
      ensures ok == !old(closed) && State() == Subscribed(old(State()), t, h) && calls == old(calls)
    {
      if closed {
        return false;
      }
      handlers := handlers[t := On(handlers, t) + [h]];
      return true;
    }

    method SubscribeOnce(t: string, h: Handler) returns (ok: bool)
      modifies this
      ensures ok == !old(closed) && State() == SubscribedOnce(old(State()), t, h) && calls == old(calls)
    {
      if closed {
        return false;
      }
      onceHandlers := onceHandlers[t := On(onceHandlers, t) + [h]];
      return true;
    }

    method Unsubscribe(t: string, addr: string) returns (ok: bool)
      modifies this
      ensures ok == CanRemove(old(State()), t, addr)
      ensures State() == Unsubscribed(old(State()), t, addr) && calls == old(calls)
    {
      if t in handlers {
        var hs := handlers[t];
        for i := 0 to |hs|
          invariant forall k :: 0 <= k < i ==> hs[k].addr != addr
        {
          if hs[i].addr == addr {
            assert Find(hs, addr) == i;
            handlers := handlers[t := hs[..i] + hs[i + 1..]];
            return true;
          }
        }
      }
      return false;
    }

    method Publish(t: string) returns (ok: bool)
      modifies this
      ensures ok == !old(closed)
      ensures State() == Published(old(State()), t)
      ensures calls == old(calls) + Runs(old(State()), t)
    {
      if closed {
        return false;
      }
      var regular, once := On(handlers, t), On(onceHandlers, t);
      if |regular| + |once| == 0 {
        return true;
      }
      for i := 0 to |regular|
        invariant calls == old(calls) + regular[..i] && State() == old(State())
      {
        calls := calls + [regular[i]];
      }
      for i := 0 to |once|
        invariant calls == old(calls) + regular + once[..i] && State() == old(State())
      {
        calls := calls + [once[i]];
      }
      assert regular[..|regular|] == regular && once[..|once|] == once;
      if |once| > 0 {
        onceHandlers := onceHandlers - {t};
      }
      return true;
    }

    method Close() returns (ok: bool)
      modifies this
      ensures ok == !old(closed)
      ensures State() == (if old(closed) then old(State()) else Closed(old(State()))) && calls == old(calls)
    {
      if closed {
        return false;
      }
      closed, handlers, onceHandlers := true, map[], map[];
      return true;
    }

    /** Whatever calls led to this state, their net effect on t. */
    method GetSubscriberCount(t: string) returns (n: nat)
      ensures n == |On(handlers, t)| + |On(onceHandlers, t)|
      ensures forall ops :: Run(ops) == State() ==> n == NetSubscribers(ops, t)
    {
      n := |On(handlers, t)| + |On(onceHandlers, t)|;
      forall ops | Run(ops) == State() ensures n == NetSubscribers(ops, t) {
        SubscriberCount(ops, t);
      }
    }
  }

  // ------------------------------------------------------------- histories

  datatype Op =
    | Subscribe(t: string, addr: string)
    | SubscribeOnce(t: string, addr: string)
    | Unsubscribe(t: string, addr: string)
    | Publish(t: string)
    | Close

  /** One call; a subscription made by the i-th call of a history gets id i. */
  function Step(b: Bus, op: Op, i: nat): Bus {
    match op
    case Subscribe(t, addr) => Subscribed(b, t, Handler(i, addr))
    case SubscribeOnce(t, addr) => SubscribedOnce(b, t, Handler(i, addr))
    case Unsubscribe(t, addr) => Unsubscribed(b, t, addr)
    case Publish(t) => Published(b, t)
    case Close => if b.closed then b else Closed(b)
  }

  function Run(ops: seq<Op>): Bus {
    if ops == [] then EMPTY else Step(Run(ops[..|ops| - 1]), ops[|ops| - 1], |ops| - 1)
  }

  function Ids(hs: seq<Handler>): (ids: seq<nat>)
    ensures |ids| == |hs|
  {
    seq(|hs|, i requires 0 <= i < |hs| => hs[i].id)
  }

  /** The registrations whose handlers have been called, call by call. */
  function Calls(ops: seq<Op>): seq<nat> {
    if ops == [] then []
    else
      var before, op := ops[..|ops| - 1], ops[|ops| - 1];
      Calls(before) + if op.Publish? then Ids(Runs(Run(before), op.t)) else []
  }

  predicate ClosedBefore(ops: seq<Op>, j: nat)
    requires j <= |ops|
  {
    exists k :: 0 <= k < j && ops[k] == Close
  }

  /** Reference for once-handlers, in terms of the history alone: registration i is for
      type t, and neither Close nor a Publish of t came in its way. */
  predicate Pending(ops: seq<Op>, t: string, i: nat) {
    && i < |ops| && ops[i].SubscribeOnce? && ops[i].t == t
    && !ClosedBefore(ops, |ops|)
    && forall k :: i < k < |ops| ==> ops[k] != Publish(t)
  }

  lemma {:induction false} RunClosed(ops: seq<Op>)
    ensures Run(ops).closed <==> ClosedBefore(ops, |ops|)
    ensures Run(ops).closed ==> Run(ops) == Closed(EMPTY)
  {
    if ops != [] {
      var n := |ops| - 1;
      RunClosed(ops[..n]);
      assert forall k :: 0 <= k < n ==> ops[..n][k] == ops[k];
    }
  }

  lemma IdsAppend(hs: seq<Handler>, h: Handler)
    ensures Ids(hs + [h]) == Ids(hs) + [h.id]
  {
  }

  /** The once-list of t after one more call. */
  lemma OnceListStep(b: Bus, op: Op, i: nat, t: string)
    requires b.closed ==> b == Closed(EMPTY)
    ensures var list := On(b.once, t);
            On(Step(b, op, i).once, t) ==
              if op == Close || op == Publish(t) || b.closed then []
              else if op.SubscribeOnce? && op.t == t then list + [Handler(i, op.addr)]
              else list
  {
  }

  /** The once-list of a type: the pending registrations, each once, oldest first. */
  lemma {:induction false} OnceListIsPending(ops: seq<Op>, t: string)
    ensures var ids := Ids(On(Run(ops).once, t));
            && (forall i :: i in ids <==> Pending(ops, t, i))
            && (forall a, b :: 0 <= a < b < |ids| ==> ids[a] < ids[b])
  {
    if ops != [] {
      var n := |ops| - 1;
      var before, op := ops[..n], ops[n];
      OnceListIsPending(before, t);
      RunClosed(before);
      assert ClosedBefore(ops, |ops|) <==> Run(before).closed || op == Close by { RunClosed(ops); }
      OnceListStep(Run(before), op, n, t);
      var old_, ids := Ids(On(Run(before).once, t)), Ids(On(Run(ops).once, t));
      forall i ensures i in ids <==> Pending(ops, t, i) {
        OneMoreOp(ops, t, i);
        if op.SubscribeOnce? && op.t == t { IdsAppend(On(Run(before).once, t), Handler(n, op.addr)); }
      }
      if op.SubscribeOnce? && op.t == t && !Run(before).closed {
        IdsAppend(On(Run(before).once, t), Handler(n, op.addr));
        assert forall x :: x in old_ ==> Pending(before, t, x) && x < n;
        assert forall a :: 0 <= a < |old_| ==> old_[a] in old_;
      }
    }
  }

  /** How one more call changes what is pending. */
  lemma OneMoreOp(ops: seq<Op>, t: string, i: nat)
    requires ops != []
    ensures var n := |ops| - 1;
            Pending(ops, t, i) <==>
              && !ClosedBefore(ops, |ops|) && ops[n] != Publish(t)
              && (Pending(ops[..n], t, i) || (i == n && ops[n].SubscribeOnce? && ops[n].t == t))
  {
  }

  // ------------------------------------------------- called at most once

  /** A regular list holds Subscribe registrations only. */
  lemma {:induction false} RegularListIsSubscribed(ops: seq<Op>, t: string)
    ensures forall h :: h in On(Run(ops).handlers, t) ==> h.id < |ops| && ops[h.id].Subscribe?
  {
    if ops != [] {
      var n := |ops| - 1;
      RegularListIsSubscribed(ops[..n], t);
    }
  }

  // ------------------------------------------------------ regular handlers

  /** Reference for regular handlers, in terms of the history alone: after the first n calls
      subscription i is in force if its call was accepted, no Close came since, and no
      Unsubscribe took it. */
  predicate Active(ops: seq<Op>, n: nat, i: nat)
    requires n <= |ops|
    decreases n, 1
  {
    i < n && ops[i].Subscribe? &&
    if i == n - 1 then !ClosedBefore(ops, i)
    else Active(ops, n - 1, i) && ops[n - 1] != Close && !Takes(ops, n - 1, i)
  }

  /** Call n unsubscribes subscription i: the oldest one in force of its type with its
      address. */
  predicate Takes(ops: seq<Op>, n: nat, i: nat)
    requires i < n < |ops| && ops[i].Subscribe?
    decreases n, 2
  {
    && ops[n] == Unsubscribe(ops[i].t, ops[i].addr)
    && forall k :: 0 <= k < i && ops[k] == ops[i] ==> !Active(ops, n, k)
  }

  lemma ActiveStep(ops: seq<Op>, n: nat, i: nat)
    requires i < n < |ops| && ops[i].Subscribe?
    ensures Active(ops, n + 1, i) <==> Active(ops, n, i) && ops[n] != Close && !Takes(ops, n, i)
  {
  }

  /** h is a subscription of t in force after n calls. */
  ghost predicate Subscribes(ops: seq<Op>, n: nat, t: string, h: Handler)
    requires n <= |ops|
  {
    h.id < n && ops[h.id] == Subscribe(t, h.addr) && Active(ops, n, h.id)
  }

  predicate Rising(list: seq<Handler>) {
    forall a, b :: 0 <= a < b < |list| ==> list[a].id < list[b].id
  }

  /** The list holds exactly the subscriptions of t in force, each once, oldest first. */
  ghost predicate ListIs(list: seq<Handler>, ops: seq<Op>, n: nat, t: string)
    requires n <= |ops|
  {
    Rising(list) && forall h :: h in list <==> Subscribes(ops, n, t, h)
  }

  lemma {:induction false} NoneAfterClose(ops: seq<Op>, n: nat, i: nat)
    requires n <= |ops| && ClosedBefore(ops, n)
    ensures !Active(ops, n, i)
    decreases n
  {
    if i < n - 1 && ops[i].Subscribe? && ops[n - 1] != Close {
      NoneAfterClose(ops, n - 1, i);
    }
  }

  /** A call that concerns other types, or no list. */
  lemma ListKept(list: seq<Handler>, ops: seq<Op>, n: nat, t: string)
    requires n < |ops| && ListIs(list, ops, n, t)
    requires ops[n] != Close && !(ops[n].Unsubscribe? && ops[n].t == t) && !(ops[n].Subscribe? && ops[n].t == t)
    ensures ListIs(list, ops, n + 1, t)
  {
    forall h ensures Subscribes(ops, n + 1, t, h) <==> Subscribes(ops, n, t, h) {
      if h.id < n && ops[h.id] == Subscribe(t, h.addr) {
        assert !Takes(ops, n, h.id);
        ActiveStep(ops, n, h.id);
      }
    }
  }

  lemma ListGrows(list: seq<Handler>, ops: seq<Op>, n: nat, t: string, addr: string)
    requires n < |ops| && ListIs(list, ops, n, t) && ops[n] == Subscribe(t, addr) && !ClosedBefore(ops, n)
    ensures ListIs(list + [Handler(n, addr)], ops, n + 1, t)
  {
    var h0 := Handler(n, addr);
    forall h ensures Subscribes(ops, n + 1, t, h) <==> Subscribes(ops, n, t, h) || h == h0 {
      if h.id < n && ops[h.id] == Subscribe(t, h.addr) {
        assert !Takes(ops, n, h.id);
        ActiveStep(ops, n, h.id);
      }
    }
    forall k | 0 <= k < |list| ensures list[k].id < n {
      assert list[k] in list;
    }
  }

  /** The list without its f-th entry. */
  lemma Without(list: seq<Handler>, f: nat)
    requires f < |list| && Rising(list)
    ensures var rest := list[..f] + list[f + 1..];
            Rising(rest) && forall h :: h in rest <==> h in list && h != list[f]
  {
    var rest := list[..f] + list[f + 1..];
    forall k | 0 <= k < |rest| ensures rest[k] == list[if k < f then k else k + 1] { }
    forall h | h in list && h != list[f] ensures h in rest {
      var k :| 0 <= k < |list| && list[k] == h;
      assert rest[if k < f then k else k - 1] == h;
    }
  }

  /** The first entry with an address is the oldest subscription in force with it. */
  lemma FirstIsOldest(list: seq<Handler>, ops: seq<Op>, n: nat, t: string, addr: string, h: Handler)
    requires n <= |ops| && ListIs(list, ops, n, t) && h in list && h.addr == addr
    ensures var f := Find(list, addr); f < |list| && list[f].id <= h.id
  {
    var m :| 0 <= m < |list| && list[m] == h;
  }

  /** Unsubscribe takes that entry and no other. */
  lemma TakesFirst(list: seq<Handler>, ops: seq<Op>, n: nat, t: string, addr: string, h: Handler)
    requires n < |ops| && ListIs(list, ops, n, t) && ops[n] == Unsubscribe(t, addr) && h in list
    ensures Takes(ops, n, h.id) <==> h.addr == addr && list[Find(list, addr)] == h
  {
    assert Subscribes(ops, n, t, h);
    if h.addr == addr {
      FirstIsOldest(list, ops, n, t, addr, h);
      var first := list[Find(list, addr)];
      assert first in list && Subscribes(ops, n, t, first);
      if first == h {
        forall k | 0 <= k < h.id && ops[k] == ops[h.id] ensures !Active(ops, n, k) {
          if Active(ops, n, k) {
            assert Subscribes(ops, n, t, Handler(k, addr));
            FirstIsOldest(list, ops, n, t, addr, Handler(k, addr));
            assert false;
          }
        }
      } else {
        var m :| 0 <= m < |list| && list[m] == h;
        assert Find(list, addr) < m;
        assert ops[first.id] == ops[h.id] && Active(ops, n, first.id);
      }
    }
  }

  lemma ListShrinks(list: seq<Handler>, ops: seq<Op>, n: nat, t: string, addr: string)
    requires n < |ops| && ListIs(list, ops, n, t) && ops[n] == Unsubscribe(t, addr)
    ensures var f := Find(list, addr);
            ListIs(if f == |list| then list else list[..f] + list[f + 1..], ops, n + 1, t)
  {
    var f := Find(list, addr);
    forall h ensures Subscribes(ops, n + 1, t, h) <==> h in list && (f == |list| || h != list[f]) {
      if h in list {
        assert Subscribes(ops, n, t, h);
        TakesFirst(list, ops, n, t, addr, h);
        if h.addr == addr { FirstIsOldest(list, ops, n, t, addr, h); }
      }
      if Subscribes(ops, n + 1, t, h) {
        assert Subscribes(ops, n, t, h);
      }
    }
    if f < |list| { Without(list, f); }
  }

  lemma ClosedSlice(ops: seq<Op>, n: nat)
    requires n <= |ops|
    ensures ClosedBefore(ops[..n], n) <==> ClosedBefore(ops, n)
  {
    assert forall k :: 0 <= k < n ==> ops[..n][k] == ops[k];
  }

  /** The regular list of a type after the first n calls of any history. */
  lemma {:induction false} RegularListIsActive(ops: seq<Op>, n: nat, t: string)
    requires n <= |ops|
    ensures ListIs(On(Run(ops[..n]).handlers, t), ops, n, t)
    decreases n
  {
    if n > 0 {
      RegularListIsActive(ops, n - 1, t);
      assert ops[..n][..n - 1] == ops[..n - 1] && ops[..n][n - 1] == ops[n - 1];
      RegularListStep(ops, n - 1, t, Run(ops[..n - 1]));
    }
  }

  lemma RegularListStep(ops: seq<Op>, n: nat, t: string, b: Bus)
    requires n < |ops| && b == Run(ops[..n]) && ListIs(On(b.handlers, t), ops, n, t)
    ensures ListIs(On(Step(b, ops[n], n).handlers, t), ops, n + 1, t)
  {
    var op, list := ops[n], On(b.handlers, t);
    assert b.closed <==> ClosedBefore(ops, n) by {
      RunClosed(ops[..n]);
      ClosedSlice(ops, n);
    }
    assert b.closed ==> b == Closed(EMPTY) by { RunClosed(ops[..n]); }
    if op == Close || b.closed {
      var next := n + 1;
      forall h ensures !Subscribes(ops, next, t, h) { NoneAfterClose(ops, next, h.id); }
    } else if op.Subscribe? && op.t == t {
      ListGrows(list, ops, n, t, op.addr);
    } else if op.Unsubscribe? && op.t == t {
      ListShrinks(list, ops, n, t, op.addr);
    } else {
      ListKept(list, ops, n, t);
    }
  }

  /** What a Publish calls after any history: the regular subscriptions in force, oldest
      first, and then the pending once-registrations, oldest first. */
  lemma PublishCalls(before: seq<Op>, t: string)
    ensures var b := Run(before);
            var regular, once := On(b.handlers, t), On(b.once, t);
            && ListIs(regular, before, |before|, t)
            && (forall i :: i in Ids(once) <==> Pending(before, t, i))
            && Rising(once)
            && Runs(b, t) == regular + once
  {
    assert before[..|before|] == before;
    RegularListIsActive(before, |before|, t);
    OnceListIsPending(before, t);
    RunClosed(before);
    var ids := Ids(On(Run(before).once, t));
    assert forall k :: 0 <= k < |ids| ==> ids[k] == On(Run(before).once, t)[k].id;
  }

  /** The Publishes among the first n calls that found subscription i in force. */
  ghost function PublishesMet(ops: seq<Op>, n: nat, i: nat): set<nat>
    requires i < n <= |ops| && ops[i].Subscribe?
  {
    set j | i < j < n && ops[j] == Publish(ops[i].t) && Active(ops, j, i)
  }

  lemma PublishCallsRegular(ops: seq<Op>, n: nat, t: string, i: nat)
    requires i < n <= |ops| && ops[i].Subscribe?
    ensures multiset(Ids(Runs(Run(ops[..n]), t)))[i] == if Active(ops, n, i) && ops[i].t == t then 1 else 0
  {
    var b := Run(ops[..n]);
    var regular, once := On(b.handlers, t), On(b.once, t);
    RegularListIsActive(ops, n, t);
    PublishCalls(ops[..n], t);
    assert ops[..n][i] == ops[i];
    assert multiset(Ids(regular + once))[i] == multiset(Ids(regular))[i] + multiset(Ids(once))[i] by { IdsConcat(regular, once); }
    assert i !in Ids(once);
    CountDistinct(Ids(regular), i);
    assert i in Ids(regular) <==> Subscribes(ops, n, t, Handler(i, ops[i].addr)) by {
      if i in Ids(regular) {
        var k :| 0 <= k < |regular| && Ids(regular)[k] == i;
        assert regular[k] in regular;
      }
      if Handler(i, ops[i].addr) in regular {
        var k :| 0 <= k < |regular| && regular[k] == Handler(i, ops[i].addr);
        assert Ids(regular)[k] == i;
      }
    }
  }

  lemma {:induction false} RegularCallsBefore(ops: seq<Op>, n: nat, i: nat)
    requires i < n <= |ops| && ops[i].Subscribe?
    ensures multiset(Calls(ops[..n]))[i] == |PublishesMet(ops, n, i)|
    decreases n
  {
    var last := n - 1;
    CallsOneMore(ops, last, i);
    if i == last {
      CallsAreEarlier(ops[..last], i);
      assert PublishesMet(ops, n, i) == {};
    } else {
      RegularCallsBefore(ops, last, i);
      assert |PublishesMet(ops, n, i)| ==
             |PublishesMet(ops, last, i)| + if ops[last] == Publish(ops[i].t) && Active(ops, last, i) then 1 else 0 by {
        MetOneMore(ops, last, i);
      }
      if ops[last].Publish? {
        PublishCallsRegular(ops, last, ops[last].t, i);
      }
    }
  }

  lemma CallsOneMore(ops: seq<Op>, n: nat, i: nat)
    requires n < |ops|
    ensures multiset(Calls(ops[..n + 1]))[i] ==
            multiset(Calls(ops[..n]))[i] + if ops[n].Publish? then multiset(Ids(Runs(Run(ops[..n]), ops[n].t)))[i] else 0
  {
    assert ops[..n + 1][..n] == ops[..n] && ops[..n + 1][n] == ops[n];
  }

  lemma MetOneMore(ops: seq<Op>, n: nat, i: nat)
    requires i < n < |ops| && ops[i].Subscribe?
    ensures |PublishesMet(ops, n + 1, i)| ==
            |PublishesMet(ops, n, i)| + if ops[n] == Publish(ops[i].t) && Active(ops, n, i) then 1 else 0
  {
    var met := PublishesMet(ops, n, i);
    if ops[n] == Publish(ops[i].t) && Active(ops, n, i) {
      assert PublishesMet(ops, n + 1, i) == met + {n};
    } else {
      assert PublishesMet(ops, n + 1, i) == met;
    }
  }

  /** In every history a regular subscription is called once by every Publish of its type
      that finds it in force, and by nothing else. */
  lemma RegularCalls(ops: seq<Op>, i: nat)
    requires i < |ops| && ops[i].Subscribe?
    ensures multiset(Calls(ops))[i] == |PublishesMet(ops, |ops|, i)|
  {
    assert ops[..|ops|] == ops;
    RegularCallsBefore(ops, |ops|, i);
  }

  /** Registration i has had its call: a Publish of its type came later and no Close
      came before that Publish. */
  predicate HadItsCall(ops: seq<Op>, i: nat) {
    && i < |ops| && ops[i].SubscribeOnce?
    && exists j :: i < j < |ops| && ops[j] == Publish(ops[i].t) && !ClosedBefore(ops, j)
  }

  lemma {:induction false} CountDistinct(ids: seq<nat>, i: nat)
    requires forall a, b :: 0 <= a < b < |ids| ==> ids[a] < ids[b]
    ensures multiset(ids)[i] == if i in ids then 1 else 0
  {
    if ids != [] {
      CountDistinct(ids[1..], i);
      assert ids == [ids[0]] + ids[1..];
      assert ids[0] !in ids[1..];
    }
  }

  lemma IdsConcat(a: seq<Handler>, b: seq<Handler>)
    ensures Ids(a + b) == Ids(a) + Ids(b)
  {
  }

  /** A Publish calls a once-registration iff it is pending, and then one time. */
  lemma RunsCount(before: seq<Op>, t: string, i: nat)
    requires i < |before| ==> before[i].SubscribeOnce?
    ensures multiset(Ids(Runs(Run(before), t)))[i] == if Pending(before, t, i) then 1 else 0
  {
    var b := Run(before);
    RunClosed(before);
    var regular, once := On(b.handlers, t), On(b.once, t);
    assert i !in Ids(regular) by {
      RegularListIsSubscribed(before, t);
      assert forall k :: 0 <= k < |regular| ==> regular[k] in regular;
    }
    OnceListIsPending(before, t);
    CountDistinct(Ids(once), i);
    IdsConcat(regular, once);
  }

  lemma {:induction false} CallsAreEarlier(ops: seq<Op>, i: nat)
    requires i >= |ops|
    ensures i !in Calls(ops)
  {
    if ops != [] {
      var n := |ops| - 1;
      CallsAreEarlier(ops[..n], i);
      if ops[n].Publish? {
        RunsCount(ops[..n], ops[n].t, i);
      }
    }
  }

  /** A Publish gives registration i its call exactly when i was pending for it. */
  lemma PublishGivesCall(ops: seq<Op>, i: nat)
    requires ops != [] && i < |ops| && ops[i].SubscribeOnce?
    ensures var n := |ops| - 1;
            var had, pending := i < n && HadItsCall(ops[..n], i), ops[n].Publish? && Pending(ops[..n], ops[n].t, i);
            && (HadItsCall(ops, i) <==> had || pending)
            && !(had && pending)
  {
  }

  /** In every history of non-overlapping calls, a once-registration is called exactly
      once if a Publish of its type follows before any Close, and never otherwise. */
  lemma {:induction false} OnceMeansOnce(ops: seq<Op>, i: nat)
    requires i < |ops| && ops[i].SubscribeOnce?
    ensures multiset(Calls(ops))[i] == if HadItsCall(ops, i) then 1 else 0
    decreases |ops|
  {
    var n := |ops| - 1;
    var before, op := ops[..n], ops[n];
    var had, pending := i < n && HadItsCall(before, i), op.Publish? && Pending(before, op.t, i);
    assert multiset(Calls(before))[i] == if had then 1 else 0 by {
      if i < n { OnceMeansOnce(before, i); } else { CallsAreEarlier(before, i); }
    }
    assert op.Publish? ==> multiset(Ids(Runs(Run(before), op.t)))[i] == if pending then 1 else 0 by {
      if op.Publish? { RunsCount(before, op.t, i); }
    }
    assert (HadItsCall(ops, i) <==> had || pending) && !(had && pending) by { PublishGivesCall(ops, i); }
  }

  // ----------------------------------------------------- subscriber count

  /** Accepted subscriptions minus successful unsubscriptions of t since the start. */
  function Balance(ops: seq<Op>, t: string): int {
    if ops == [] then 0
    else
      var n := |ops| - 1;
      var before, op := ops[..n], ops[n];
      Balance(before, t) + match op
        case Subscribe(u, _) => if u == t && !Run(before).closed then 1 else 0
        case Unsubscribe(u, addr) => if u == t && CanRemove(Run(before), t, addr) then -1 else 0
        case _ => 0
  }

  lemma {:induction false} CountIsBalance(ops: seq<Op>, t: string)
    requires !Run(ops).closed
    ensures |On(Run(ops).handlers, t)| == Balance(ops, t)
  {
    if ops != [] {
      var before, op := ops[..|ops| - 1], ops[|ops| - 1];
      assert !Run(before).closed by { RunClosed(before); }
      CountIsBalance(before, t);
      RegularCountStep(Run(before), op, |ops| - 1, t);
    }
  }

  lemma RegularCountStep(b: Bus, op: Op, i: nat, t: string)
    requires !b.closed && op != Close
    ensures |On(Step(b, op, i).handlers, t)| == |On(b.handlers, t)| + match op
              case Subscribe(u, _) => if u == t then 1 else 0
              case Unsubscribe(u, addr) => if u == t && CanRemove(b, t, addr) then -1 else 0
              case _ => 0
  {
    if op.Unsubscribe? && op.t == t {
      var hs := On(b.handlers, t);
      var i := Find(hs, op.addr);
      assert i < |hs| ==> |hs[..i] + hs[i + 1..]| == |hs| - 1;
    }
  }

  lemma {:induction false} DistinctSize(ids: seq<nat>)
    requires forall a, b :: 0 <= a < b < |ids| ==> ids[a] < ids[b]
    ensures |ToSet(ids)| == |ids|
  {
    if ids != [] {
      DistinctSize(ids[1..]);
      assert ids[0] !in ids[1..];
      assert ToSet(ids) == {ids[0]} + ToSet(ids[1..]);
    }
  }

  /** Subscriptions minus successful unsubscriptions plus pending once-registrations of t,
      and nothing after Close: in terms of the history alone. */
  ghost function NetSubscribers(ops: seq<Op>, t: string): int {
    if ClosedBefore(ops, |ops|) then 0
    else Balance(ops, t) + |set i | 0 <= i < |ops| && Pending(ops, t, i)|
  }

  /** The lists have as many entries as the history says. */
  lemma SubscriberCount(ops: seq<Op>, t: string)
    ensures |On(Run(ops).handlers, t)| + |On(Run(ops).once, t)| == NetSubscribers(ops, t)
  {
    RunClosed(ops);
    if !Run(ops).closed {
      CountIsBalance(ops, t);
      OnceListIsPending(ops, t);
      var ids := Ids(On(Run(ops).once, t));
      DistinctSize(ids);
      assert ToSet(ids) == set i | 0 <= i < |ops| && Pending(ops, t, i);
    }
  }
}
