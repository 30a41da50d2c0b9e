/** Handler combinators (eventbus/middleware.go): RetryMiddleware and Chain.

    A handler is a function of some state, so that it may succeed or fail differently on
    every call; what it returns is its error, if any, and the state it leaves. The state
    can count calls or replay any stream of outcomes. Delays are not modelled. */
module Middleware {
  import opened Seqs

  type Handler<!S, E> = S -> (Option<E>, S)

  /** Calls h until it succeeds, at most left + 1 times; the last error counts. */
  function Attempts<S, E>(h: Handler<S, E>, left: nat, s: S): (Option<E>, S) {
    var (err, s') := h(s);
    if err == None || left == 0 then (err, s') else Attempts(h, left - 1, s')
  }

  /** RetryMiddleware(max)(h). A negative max skips the loop: no call, no error. */
  function Retry<S, E>(max: int, h: Handler<S, E>, s: S): (Option<E>, S) {
    if max < 0 then (None, s) else Attempts(h, max, s)
  }

  method RetryHandle<S, E>(max: int, h: Handler<S, E>, s: S) returns (err: Option<E>, now: S)
    ensures (err, now) == Retry(max, h, s)
  {
    err, now := None, s;
    var i := 0;
    while i <= max
      invariant 0 <= i <= max + 1 || (i == 0 && max < 0)
      invariant i == 0 ==> now == s && err == None
      invariant i > 0 ==> err != None
      invariant i <= max ==> Attempts(h, max - i, now) == Retry(max, h, s)
      invariant i > max && max >= 0 ==> (err, now) == Retry(max, h, s)
    {
      var (e, next) := h(now);
      err, now := e, next;
      if err == None {
        return;
      }
      i := i + 1;
    }
  }

  /** The state k calls of h leave. */
  function StateAfter<S, E>(h: Handler<S, E>, k: nat, s: S): S {
    if k == 0 then s else h(StateAfter(h, k - 1, s)).1
  }

  /** h was called k times, one after the other: every call but the last failed, and the
      last one's error and state are the outcome. */
  ghost predicate CalledTimes<S, E>(h: Handler<S, E>, k: nat, s: S, err: Option<E>, now: S) {
    && (forall j :: 0 <= j < k - 1 ==> h(StateAfter(h, j, s)).0 != None)
    && if k == 0 then err == None && now == s else (err, now) == h(StateAfter(h, k - 1, s))
  }

  lemma {:induction false} OneCallEarlier<S, E>(h: Handler<S, E>, k: nat, s: S)
    ensures StateAfter(h, k + 1, s) == StateAfter(h, k, h(s).1)
  {
    if k > 0 {
      OneCallEarlier(h, k - 1, s);
    }
  }

  lemma {:induction false} AttemptsCalls<S, E>(h: Handler<S, E>, left: nat, s: S) returns (k: nat)
    ensures var (err, now) := Attempts(h, left, s);
            && 1 <= k <= left + 1 && CalledTimes(h, k, s, err, now)
            && (err != None ==> k == left + 1)
  {
    var (err, s') := h(s);
    if err == None || left == 0 {
      assert StateAfter(h, 0, s) == s;
      return 1;
    }
    k := AttemptsCalls(h, left - 1, s');
    OneCallEarlier(h, k - 1, s);
    forall j | 0 <= j < k ensures h(StateAfter(h, j, s)).0 != None {
      if j == 0 {
        assert StateAfter(h, 0, s) == s;
      } else {
        OneCallEarlier(h, j - 1, s);
      }
    }
    k := k + 1;
  }

  /** How often RetryMiddleware calls the handler and what it returns: until the first
      success, at most max + 1 times, with the last call's error and state. */
  lemma RetryCalls<S, E>(max: int, h: Handler<S, E>, s: S) returns (k: nat)
    ensures var (err, now) := Retry(max, h, s);
            && CalledTimes(h, k, s, err, now) && (k == 0 <==> max < 0)
            && (max >= 0 ==> k <= max + 1) && (err != None ==> k == max + 1)
  {
    if max < 0 {
      return 0;
    }
    k := AttemptsCalls(h, max, s);
  }

  lemma {:induction false} AttemptsSplit<S, E>(h: Handler<S, E>, a: nat, b: nat, s: S)
    ensures var (err, s') := Attempts(h, a, s);
            Attempts(h, a + 1 + b, s) == if err == None then (err, s') else Attempts(h, b, s')
  {
    var (err, s') := h(s);
    if err != None && a > 0 {
      AttemptsSplit(h, a - 1, b, s');
    }
  }

  lemma {:induction false} NestedAttempts<S, E>(h: Handler<S, E>, m: nat, n: nat, total: nat, s: S)
    requires total + 1 == (m + 1) * (n + 1)
    ensures Attempts(x => Retry(n, h, x), m, s) == Attempts(h, total, s)
  {
    if m == 0 {
      assert total == n;
    } else {
      var rest := total - (n + 1);
      assert rest + 1 == m * (n + 1);
      AttemptsSplit(h, n, rest, s);
      var (err, s') := Attempts(h, n, s);
      if err != None {
        NestedAttempts(h, m - 1, n, rest, s');
      }
    }
  }

  /** Retrying a retried handler is one longer retry, on every handler and state. */
  lemma RetryComposes<S, E>(m: int, n: int, h: Handler<S, E>, s: S)
    requires m >= -1 || n >= -1
    ensures Retry(m, x => Retry(n, h, x), s) == Retry((m + 1) * (n + 1) - 1, h, s)
  {
    var total := (m + 1) * (n + 1) - 1;
    if m >= 0 && n >= 0 {
      NestedAttempts(h, m, n, total, s);
    } else {
      assert total < 0 by { SignOfProduct(m + 1, n + 1); }
    }
  }

  lemma SignOfProduct(a: int, b: int)
    requires (a >= 0 || b >= 0) && !(a > 0 && b > 0)
    ensures a * b <= 0
  {
  }

  lemma ProductOfNegatives(a: int, b: int)
    requires a <= -1 && b <= -1
    ensures a * b >= 1
  {
  }

  /** The law has no other exceptions: with both counts below -1 the nest makes no call
      and the single retry makes one. */
  lemma RetryComposesOnlyThere(m: int, n: int)
    requires m < -1 && n < -1
    ensures var count: Handler<nat, bool> := calls => (None, calls + 1);
            Retry(m, x => Retry(n, count, x), 0) != Retry((m + 1) * (n + 1) - 1, count, 0)
  {
    ProductOfNegatives(m + 1, n + 1);
  }

  // ------------------------------------------------------------------ Chain

  function Chain<H>(middlewares: seq<H -> H>, handler: H): H {
    if middlewares == [] then handler else middlewares[0](Chain(middlewares[1..], handler))
  }

  /** The loop wraps from the last middleware to the first. */
  method ChainLoop<H>(middlewares: seq<H -> H>, handler: H) returns (wrapped: H)
    ensures wrapped == Chain(middlewares, handler)
  {
    wrapped := handler;
    var i := |middlewares|;
    while i > 0
      invariant 0 <= i <= |middlewares|
      invariant wrapped == Chain(middlewares[i..], handler)
    {
      i := i - 1;
      wrapped := middlewares[i](wrapped);
    }
  }

  /** One middleware is applied to the handler, none leaves it alone. */
  lemma ChainOfOne<H>(m: H -> H, handler: H)
    ensures Chain([m], handler) == m(handler) && Chain([], handler) == handler
  {
    assert [m][1..] == [];
  }

  /** Chaining a concatenation is composing the chains. */
  lemma {:induction false} ChainComposes<H>(xs: seq<H -> H>, ys: seq<H -> H>, handler: H)
    ensures Chain(xs + ys, handler) == Chain(xs, Chain(ys, handler))
  {
    if xs == [] {
      assert xs + ys == ys;
    } else {
      ChainComposes(xs[1..], ys, handler);
      assert (xs + ys)[1..] == xs[1..] + ys;
    }
  }
}
