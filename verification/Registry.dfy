/** The hot-reload registries (gateway/dynamic_router.go, gateway/transcoder/transcoder.go):
    the router's handlers and the transcoder's connections, driven by module events. */
module Registry {
  datatype Kind = Registered | Unregistered | Updated | HealthChanged

  /** A module event; parses and connects are what the descriptor parser and the dialer
      answer for it. */
  datatype Event = Event(kind: Kind, id: string, endpoint: string, descriptor: string, parses: bool, connects: bool)

  datatype Connection = Connection(endpoint: string, descriptor: string)

  /** dialed and closed count the gRPC connections made and closed so far. */
  datatype Gateway = Gateway(handlers: set<string>, connections: map<string, Connection>, dialed: nat, closed: nat)

  const EMPTY := Gateway({}, map[], 0, 0)

  /** The event registers its module. */
  predicate Registers(e: Event) {
    (e.kind == Registered || e.kind == Updated) && e.descriptor != "" && e.parses && e.connects
  }

  function Handled(g: Gateway, e: Event): Gateway {
    if Registers(e) then
      Gateway(g.handlers + {e.id}, g.connections[e.id := Connection(e.endpoint, e.descriptor)], g.dialed + 1, g.closed)
    else if e.kind == Unregistered then
      Gateway(g.handlers - {e.id}, g.connections - {e.id}, g.dialed, g.closed + if e.id in g.connections then 1 else 0)
    else g
  }

  class DynamicRouter {
    var handlers: set<string>
    var connections: map<string, Connection>
    var dialed: nat
    var closed: nat

    ghost function State(): Gateway
      reads this
    {
      Gateway(handlers, connections, dialed, closed)
    }

    constructor ()
      ensures State() == EMPTY
    {
      handlers, connections, dialed, closed := {}, map[], 0, 0;
    }

    /** Transcoder.RegisterModule: stores over an old connection without closing it. */
    method RegisterModule(e: Event) returns (ok: bool)
      modifies this`connections, this`dialed
      ensures ok == (e.descriptor != "" && e.parses && e.connects)
      ensures connections == if ok then old(connections)[e.id := Connection(e.endpoint, e.descriptor)] else old(connections)
      ensures dialed == old(dialed) + if ok then 1 else 0
    {
      if e.descriptor == "" || !e.parses {
        return false;
      }
      if !e.connects {
        return false;
      }
      dialed := dialed + 1;
      connections := connections[e.id := Connection(e.endpoint, e.descriptor)];
      return true;
    }

    /** Transcoder.UnregisterModule. */
    method UnregisterModule(id: string) returns (ok: bool)
      modifies this`connections, this`closed
      ensures ok == (id in old(connections))
      ensures connections == old(connections) - {id}
      ensures closed == old(closed) + if ok then 1 else 0
    {
      if id !in connections {
        return false;
      }
      connections := connections - {id};
      closed := closed + 1;
      return true;
    }

    method HandleModuleEvent(e: Event)
      modifies this
      ensures State() == Handled(old(State()), e)
    {
      match e.kind {
        case Registered | Updated =>
          if e.descriptor == "" {
            return;
          }
          var ok := RegisterModule(e);
          if !ok {
            return;
          }
          handlers := handlers + {e.id};
        case Unregistered =>
          handlers := handlers - {e.id};
          var _ := UnregisterModule(e.id);
        case HealthChanged =>
      }
    }
  }

  function Run(events: seq<Event>): Gateway {
    if events == [] then EMPTY else Handled(Run(events[..|events| - 1]), events[|events| - 1])
  }

  /** What one event does to the routing of every module, by its fields: a registration or
      update with a descriptor that parses and an endpoint that connects routes its module
      there, an unregistration takes it away, and nothing else has an effect. */
  lemma EventEffect(events: seq<Event>, e: Event, id: string)
    ensures var before, after := Run(events).connections, Run(events + [e]).connections;
            if id == e.id && e.kind in {Registered, Updated} && e.descriptor != "" && e.parses && e.connects then
              id in after && after[id] == Connection(e.endpoint, e.descriptor)
            else if id == e.id && e.kind == Unregistered then id !in after
            else (id in after <==> id in before) && (id in before ==> after[id] == before[id])
  {
    assert (events + [e])[..|events|] == events;
  }

  /** In terms of the history alone: event i registered id, and nothing registered or
      unregistered it since. */
  predicate LastWord(events: seq<Event>, id: string, i: nat) {
    && i < |events| && events[i].id == id && Registers(events[i])
    && forall j :: i < j < |events| && events[j].id == id ==> !Registers(events[j]) && events[j].kind != Unregistered
  }

  lemma LastWordStep(events: seq<Event>, id: string, i: nat)
    requires events != []
    ensures var n := |events| - 1; var e := events[n];
            LastWord(events, id, i) <==>
              if e.id == id && (Registers(e) || e.kind == Unregistered) then i == n && Registers(e)
              else LastWord(events[..n], id, i)
  {
  }

  /** After every run of events: both registries hold the same modules; a module is routed
      iff its last successful registration came after its last unregistration; and its
      connection is the one from that registration. */
  lemma {:induction false} RoutedByLastWord(events: seq<Event>, id: string)
    ensures Run(events).handlers == Run(events).connections.Keys
    ensures id in Run(events).handlers <==> exists i: nat :: LastWord(events, id, i)
    ensures forall i: nat :: LastWord(events, id, i) ==>
              id in Run(events).connections && Run(events).connections[id] == Connection(events[i].endpoint, events[i].descriptor)
  {
    if events != [] {
      var n := |events| - 1;
      RoutedByLastWord(events[..n], id);
      forall i: nat
        ensures LastWord(events, id, i) <==>
                  if events[n].id == id && (Registers(events[n]) || events[n].kind == Unregistered) then i == n && Registers(events[n])
                  else LastWord(events[..n], id, i)
      {
        LastWordStep(events, id, i);
      }
      var e := events[n];
      if e.id == id && Registers(e) {
        assert LastWord(events, id, n);
      } else if e.id != id || e.kind != Unregistered {
        assert (exists i: nat :: LastWord(events, id, i)) <==> exists i: nat :: LastWord(events[..n], id, i);
      }
    }
  }

  /** A failed registration or update, like a health change, leaves everything as it was: the
      rest of the run goes as if it had never been delivered. */
  lemma {:induction false} FailureChangesNothing(before: seq<Event>, e: Event, after: seq<Event>)
    requires !Registers(e) && e.kind != Unregistered
    ensures Run(before + [e] + after) == Run(before + after)
    decreases |after|
  {
    var run := before + [e] + after;
    if after == [] {
      assert run[..|before|] == before == before + after;
    } else {
      var n := |after| - 1;
      FailureChangesNothing(before, e, after[..n]);
      assert run[..|run| - 1] == before + [e] + after[..n];
      assert (before + after)[..|before| + n] == before + after[..n];
    }
  }

  /** Registrations that replaced a live connection. */
  function Overwrites(events: seq<Event>): nat {
    if events == [] then 0
    else
      var n := |events| - 1;
      Overwrites(events[..n]) + if Registers(events[n]) && events[n].id in Run(events[..n]).connections then 1 else 0
  }

  /** Connections are conserved: every one dialed is closed, in use, or was overwritten and
      so never closed. Nothing leaks exactly when no live module is registered again. */
  lemma {:induction false} ConnectionsConserved(events: seq<Event>)
    ensures var g := Run(events); g.dialed == g.closed + |g.connections| + Overwrites(events)
  {
    if events != [] {
      var n := |events| - 1;
      var g, e := Run(events[..n]), events[n];
      ConnectionsConserved(events[..n]);
      if Registers(e) {
        var now := g.connections[e.id := Connection(e.endpoint, e.descriptor)];
        assert now.Keys == g.connections.Keys + {e.id};
        assert |now.Keys| == |now| && |g.connections.Keys| == |g.connections|;
      } else if e.kind == Unregistered {
        var now := g.connections - {e.id};
        assert now.Keys == g.connections.Keys - {e.id};
        assert |now.Keys| == |now| && |g.connections.Keys| == |g.connections|;
      }
    }
  }

  /** Two registrations in a row: two connections dialed, one in use, none closed. */
  lemma OverwrittenConnection(e: Event)
    requires Registers(e)
    ensures Run([e, e]) == Gateway({e.id}, map[e.id := Connection(e.endpoint, e.descriptor)], 2, 0)
  {
    var run, live := [e, e], map[e.id := Connection(e.endpoint, e.descriptor)];
    assert run[..1] == [e] && [e][..0] == [];
    assert Run([]) == EMPTY && Run([e]) == Handled(EMPTY, e);
    assert map[][e.id := Connection(e.endpoint, e.descriptor)] == live;
    assert Run([e]) == Gateway({e.id}, live, 1, 0);
    assert live[e.id := Connection(e.endpoint, e.descriptor)] == live;
  }
}
