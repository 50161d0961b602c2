/** Reconnect backoff: the delay that grows by a step and falls back to its start once past the maximum,
    as the peer table of sync-manager.js and the refresh timer of contract-client/index.js keep it. */
module Backoff {
  import Digits

  datatype Params = Params(initial: nat, increment: nat, max: nat)

  predicate Sane(p: Params) {
    0 < p.initial <= p.max && 0 < p.increment
  }

  /** How many different delays there are. */
  function Steps(p: Params): nat
    requires Sane(p)
  {
    (p.max - p.initial) / p.increment + 1
  }

  /** The delay after n further failures, in closed form. */
  function Delay(p: Params, n: nat): nat
    requires Sane(p)
  {
    p.initial + n % Steps(p) * p.increment
  }

  lemma StepFits(p: Params, m: nat)
    requires Sane(p)
    ensures p.initial + m * p.increment <= p.max <==> m < Steps(p)
  {
    var room := p.max - p.initial;
    var q, r := room / p.increment, room % p.increment;
    assert room == q * p.increment + r;
    if m <= q {
      assert m * p.increment <= q * p.increment;
    } else {
      assert m * p.increment >= (q + 1) * p.increment;
    }
  }

  lemma DelayStaysInRange(p: Params, n: nat)
    requires Sane(p)
    ensures p.initial <= Delay(p, n) <= p.max
  {
    StepFits(p, n % Steps(p));
  }

  lemma NextRemainder(n: nat, k: nat)
    requires k > 0
    ensures (n + 1) % k == if n % k == k - 1 then 0 else n % k + 1
  {
    var q, r := n / k, n % k;
    assert n == q * k + r;
    if r == k - 1 {
      assert n + 1 == (q + 1) * k;
      MultipleHasNoRemainder(q + 1, k);
    } else {
      RemainderOf(q, k, r + 1);
    }
  }

  lemma MultipleHasNoRemainder(q: nat, k: nat)
    requires k > 0
    ensures q * k % k == 0
  {
    RemainderOf(q, k, 0);
  }

  lemma RemainderOf(q: nat, k: nat, r: nat)
    requires r < k
    ensures (q * k + r) % k == r
  {
    Digits.QuotientIsUnique(q * k + r, k, q, r);
  }

  /** One more failure takes the closed form to its next term: past the maximum it starts over. */
  lemma NextDelay(p: Params, n: nat)
    requires Sane(p)
    ensures Delay(p, n + 1) == if Delay(p, n) + p.increment > p.max then p.initial else Delay(p, n) + p.increment
  {
    var k := Steps(p);
    var m := n % k;
    NextRemainder(n, k);
    StepFits(p, m + 1);
    assert (m + 1) * p.increment == m * p.increment + p.increment;
  }

  datatype Pending = Pending(currentInterval: nat, nextRetryAt: int)

  /** The peers waiting for a reconnect, and how often each has failed since it was put there. */
  class PendingConnections {
    const params: Params
    var connected: set<string>
    var pending: map<string, Pending>
    ghost var failures: map<string, nat>

    ghost predicate Valid()
      reads this
    {
      && Sane(params)
      && failures.Keys == pending.Keys
      && forall url :: url in pending ==>
           failures[url] > 0 && pending[url].currentInterval == Delay(params, failures[url] - 1)
    }

    constructor (params: Params)
      requires Sane(params)
      ensures Valid() && pending == map[] && connected == {} && this.params == params
    {
      this.params := params;
      connected := {};
      pending := map[];
      failures := map[];
    }

    method AddToPending(url: string, now: int)
      requires Valid()
      modifies this`pending, this`failures
      ensures Valid()
      ensures url in connected ==> pending == old(pending) && failures == old(failures)
      ensures url !in connected ==>
        var n := if url in old(pending) then old(failures)[url] else 0;
        && failures == old(failures)[url := n + 1]
        && pending == old(pending)[url := Pending(Delay(params, n), now + Delay(params, n))]
    {
      if url in connected {
        return;
      }
      if url in pending {
        NextDelay(params, failures[url] - 1);
        var nextInterval := pending[url].currentInterval + params.increment;
        if nextInterval > params.max {
          nextInterval := params.initial;
        }
        pending := pending[url := Pending(nextInterval, now + nextInterval)];
        failures := failures[url := failures[url] + 1];
      } else {
        assert Delay(params, 0) == params.initial;
        pending := pending[url := Pending(params.initial, now + params.initial)];
        failures := failures[url := 1];
      }
    }
  }

  /** The contract client's timer, with parameters that stay the same. */
  class ReconnectTimer {
    const params: Params
    var reconnectDelay: nat
    ghost var failures: nat

    ghost predicate Valid()
      reads this
    {
      Sane(params) && reconnectDelay == Delay(params, failures)
    }

    constructor (params: Params)
      requires Sane(params)
      ensures Valid() && failures == 0 && this.params == params
    {
      this.params := params;
      reconnectDelay := params.initial;
      failures := 0;
    }

    method AdvanceReconnectDelay()
      requires Valid()
      modifies this
      ensures Valid() && failures == old(failures) + 1
      ensures params.initial <= reconnectDelay <= params.max
    {
      NextDelay(params, failures);
      DelayStaysInRange(params, failures + 1);
      reconnectDelay := reconnectDelay + params.increment;
      if reconnectDelay > params.max {
        reconnectDelay := params.initial;
      }
      failures := failures + 1;
    }
  }

  /** A peer that fails n + 1 times and a timer that fails n times wait equally long. */
  method FailTogether(params: Params, url: string, now: int, n: nat) returns (peer: nat, timer: nat)
    requires Sane(params)
    ensures peer == timer == Delay(params, n)
  {
    var pendings := new PendingConnections(params);
    var reconnect := new ReconnectTimer(params);
    pendings.AddToPending(url, now);
    for i := 0 to n
      invariant pendings.Valid() && reconnect.Valid()
      invariant pendings.connected == {} && pendings.params == params && reconnect.params == params
      invariant url in pendings.pending && pendings.failures[url] == i + 1 && reconnect.failures == i
    {
      pendings.AddToPending(url, now);
      reconnect.AdvanceReconnectDelay();
    }
    peer := pendings.pending[url].currentInterval;
    timer := reconnect.reconnectDelay;
  }
}
