/** Amount limits of requests that charge several tokens. Only the first token of a raw transaction is
    tested, so the amounts of the others count against no limit; this says exactly when they still fit. */
module LedgerAmounts {
  import opened Tables
  import opened Signing
  import opened LedgerRuns
  import opened LedgerInvariants
  import opened LedgerLimits

  function TokenOf(auth: string, c: Charge): TokenKey {
    TokenKey(auth, c.chain, c.token)
  }

  function AmountOf(cs: seq<Charge>): int {
    if cs == [] then 0 else AmountOf(cs[..|cs| - 1]) + cs[|cs| - 1].amount
  }

  /** What the charges add up to for one token. */
  function TokenAmountOf(auth: string, cs: seq<Charge>, t: TokenKey): int {
    if cs == [] then 0
    else
      var last := cs[|cs| - 1];
      TokenAmountOf(auth, cs[..|cs| - 1], t) + (if TokenOf(auth, last) == t then last.amount else 0)
  }

  ghost predicate Charged(auth: string, cs: seq<Charge>, t: TokenKey) {
    exists i :: 0 <= i < |cs| && TokenOf(auth, cs[i]) == t
  }

  lemma ChargedLastOrBefore(auth: string, cs: seq<Charge>, t: TokenKey)
    requires cs != []
    ensures Charged(auth, cs, t) <==> Charged(auth, cs[..|cs| - 1], t) || TokenOf(auth, cs[|cs| - 1]) == t
  {
    var front := cs[..|cs| - 1];
    if i :| 0 <= i < |front| && TokenOf(auth, front[i]) == t {
      assert TokenOf(auth, cs[i]) == t;
    }
    if i :| 0 <= i < |front| && TokenOf(auth, cs[i]) == t {
      assert TokenOf(auth, front[i]) == t;
    }
  }

  /** Charging adds each token its own amounts and the row all of them. */
  lemma {:induction false} ChargeAllAmounts(own: Owner, db: Db, k: Key, cs: seq<Charge>, t: TokenKey)
    requires (forall x :: x in db.states ==> Owns(own, x)) && Owns(own, k) && k in db.states
    ensures var after := ChargeAll(db, k.auth, cs);
      && after.states.Keys == db.states.Keys
      && after.states[k].used.amount == db.states[k].used.amount + AmountOf(cs)
      && TokenUsed(after.tokens, t).amount == TokenUsed(db.tokens, t).amount + TokenAmountOf(k.auth, cs, t)
      && (t in after.tokens <==> t in db.tokens || Charged(k.auth, cs, t))
  {
    ChargeAllRow(own, db, k, cs);
    if cs != [] {
      var front, last := cs[..|cs| - 1], cs[|cs| - 1];
      ChargeAllAmounts(own, db, k, front, t);
      ChargeAllRow(own, db, k, front);
      ChargeOneRow(own, ChargeAll(db, k.auth, front), k, last);
      ChargedLastOrBefore(k.auth, cs, t);
    }
  }

  lemma {:induction false} UnchargedTokenAddsNothing(auth: string, cs: seq<Charge>, t: TokenKey)
    requires !Charged(auth, cs, t)
    ensures TokenAmountOf(auth, cs, t) == 0
  {
    if cs != [] {
      ChargedLastOrBefore(auth, cs, t);
      UnchargedTokenAddsNothing(auth, cs[..|cs| - 1], t);
    }
  }

  function UsedIn(db: Db, k: Key): Usage {
    if k in db.states then db.states[k].used else UNUSED
  }

  ghost predicate TotalFits(l: Limits, db: Db, r: Request) {
    !l.amount.Refuses(UsedIn(db, r.key).amount + AmountOf(r.charges))
  }

  ghost predicate TokenFits(l: Limits, db: Db, r: Request, t: TokenKey) {
    LimitKey(t.chain, t.token) in l.tokens ==>
      !l.tokens[LimitKey(t.chain, t.token)].amount.Refuses(
        TokenUsed(db.tokens, t).amount + TokenAmountOf(r.key.auth, r.charges, t))
  }

  /** The total and every token of the charges fit their limits, all charges together. */
  ghost predicate ChargesFit(l: Limits, db: Db, r: Request) {
    && TotalFits(l, db, r)
    && forall t :: Charged(r.key.auth, r.charges, t) ==> TokenFits(l, db, r, t)
  }

  ghost predicate RowsCapped(terms: Terms, db: Db) {
    forall k :: k in db.states && terms(k.auth).Some? ==> AmountWithin(terms(k.auth).value, db.states[k].used)
  }

  ghost predicate TokensCapped(terms: Terms, db: Db) {
    forall t :: t in db.tokens && terms(t.auth).Some? ==> TokenAmountWithin(terms(t.auth).value, t, db.tokens[t])
  }

  /** The tables a commit charges: its own row is there, the others are as before. */
  ghost predicate ReadyFor(own: Owner, db: Db, begun: Db, k: Key) {
    && (forall x :: x in begun.states ==> Owns(own, x)) && Owns(own, k)
    && begun.tokens == db.tokens && begun.states.Keys == db.states.Keys + {k}
    && (forall x :: x in db.states ==> begun.states[x] == db.states[x])
    && begun.states[k].used == UsedIn(db, k) && UsedIn(db, k).count >= 0
  }

  /** Every token row has been charged at least once. */
  ghost predicate CountsPositive(db: Db) {
    forall t :: t in db.tokens ==> db.tokens[t].count >= 1
  }

  lemma {:induction false} SumOfCounts(keys: set<TokenKey>, tokens: map<TokenKey, Usage>)
    requires keys <= tokens.Keys && forall t :: t in keys ==> tokens[t].count >= 1
    ensures Sum(keys, tokens).count >= 0
    decreases |keys|
  {
    if keys != {} {
      var t :| t in keys;
      SumSplit(keys, tokens, t);
      SumOfCounts(keys - {t}, tokens);
    }
  }

  lemma BegunIsReady(own: Owner, db: Db, r: Request)
    requires Balanced(own, db) && Owns(own, r.key) && CountsPositive(db)
    ensures ReadyFor(own, db, Begun(db, r), r.key)
  {
    SumOfCounts(RowsOf(db.tokens, r.key.auth), db.tokens);
  }

  lemma RowsCappedIff(own: Owner, terms: Terms, db: Db, begun: Db, r: Request)
    requires ReadyFor(own, db, begun, r.key) && r.charges != []
    requires r.limits == terms(r.key.auth) && r.limits.Some? && RowsCapped(terms, db)
    ensures RowsCapped(terms, ChargeAll(begun, r.key.auth, r.charges)) <==> TotalFits(r.limits.value, db, r)
  {
    hide ChargeAll;
    var after := ChargeAll(begun, r.key.auth, r.charges);
    ChargeAllRow(own, begun, r.key, r.charges);
    ChargeAllAmounts(own, begun, r.key, r.charges, TokenOf(r.key.auth, r.charges[0]));
  }

  lemma TokensCappedIff(own: Owner, terms: Terms, db: Db, begun: Db, r: Request)
    requires ReadyFor(own, db, begun, r.key)
    requires r.limits == terms(r.key.auth) && r.limits.Some? && TokensCapped(terms, db)
    ensures TokensCapped(terms, ChargeAll(begun, r.key.auth, r.charges)) <==>
      forall t :: Charged(r.key.auth, r.charges, t) ==> TokenFits(r.limits.value, db, r, t)
  {
    hide ChargeAll, LimitKey;
    var auth, cs := r.key.auth, r.charges;
    var after := ChargeAll(begun, auth, cs);
    ChargeAllRow(own, begun, r.key, cs);
    forall t: TokenKey
      ensures t in after.tokens <==> t in db.tokens || Charged(auth, cs, t)
      ensures Charged(auth, cs, t) ==>
        t.auth == auth && (TokenAmountWithin(r.limits.value, t, after.tokens[t]) <==> TokenFits(r.limits.value, db, r, t))
      ensures t in after.tokens && !Charged(auth, cs, t) ==> after.tokens[t].amount == db.tokens[t].amount
    {
      ChargeAllAmounts(own, begun, r.key, cs, t);
      if !Charged(auth, cs, t) {
        UnchargedTokenAddsNothing(auth, cs, t);
      }
    }
  }

  /** A commit that goes through, with any number of charges, keeps all amounts within their limits if and
      only if its charges fit together; the test made inside the transaction looks at the first alone. */
  lemma CommitCapsAmountsIff(own: Owner, terms: Terms, db: Db, r: Request)
    requires Balanced(own, db) && Owns(own, r.key) && Commit(db, r).Some? && r.charges != []
    requires CountsPositive(db)
    requires r.limits == terms(r.key.auth) && r.limits.Some? && AmountsCapped(terms, db)
    ensures AmountsCapped(terms, Commit(db, r).value) <==> ChargesFit(r.limits.value, db, r)
  {
    var begun := Begun(db, r);
    CommitChargesBegun(own, db, r);
    BegunIsReady(own, db, r);
    hide Begun, ChargeAll, Commit, Balanced, ReadyFor, TokenFits, TotalFits;
    RowsCappedIff(own, terms, db, begun, r);
    TokensCappedIff(own, terms, db, begun, r);
  }

  lemma {:induction false} ChargingKeepsCounts(db: Db, auth: string, cs: seq<Charge>)
    requires CountsPositive(db)
    ensures CountsPositive(ChargeAll(db, auth, cs))
  {
    if cs != [] {
      ChargingKeepsCounts(db, auth, cs[..|cs| - 1]);
    }
  }

  lemma CommitKeepsCounts(db: Db, r: Request)
    requires CountsPositive(db) && Commit(db, r).Some?
    ensures CountsPositive(Commit(db, r).value)
  {
    ChargingKeepsCounts(Begun(db, r), r.key.auth, r.charges);
  }

  lemma {:induction false} CountsArePositive(dbs: seq<Db>, steps: seq<Step>, i: nat)
    requires Run(dbs, steps) && dbs[0] == EMPTY_DB && i < |dbs|
    ensures CountsPositive(dbs[i])
  {
    hide Next, Accepts, Commit;
    if i > 0 {
      CountsArePositive(dbs, steps, i - 1);
      if Accepts(dbs[i - 1], steps[i - 1]) {
        var checked, r := AcceptedIsCommit(dbs[i - 1], steps[i - 1]);
        CommitKeepsCounts(checked, r);
      } else {
        OnlyAcceptedRequestsCharge(dbs[i - 1], steps[i - 1]);
      }
    }
  }

  /** So at every accepted request of every run from empty tables whose amounts were within their limits:
      they still are exactly if its charges, on top of what its checks left, fit together. */
  lemma AcceptedRequestCapsAmountsIff(own: Owner, terms: Terms, dbs: seq<Db>, steps: seq<Step>, i: nat)
    returns (checked: Db, r: Request)
    requires Run(dbs, steps) && dbs[0] == EMPTY_DB && i < |steps| && Accepts(dbs[i], steps[i])
    requires forall s :: s in steps ==> Unshared(own, s)
    requires OnTerms(terms, steps[i]) && Charges(steps[i], 2) && AmountsCapped(terms, dbs[i])
    ensures Uncharged(dbs[i], checked) && Commit(checked, r) == Some(dbs[i + 1]) && r.limits == terms(r.key.auth)
    ensures r.limits.Some? ==> (AmountsCapped(terms, dbs[i + 1]) <==> ChargesFit(r.limits.value, checked, r))
  {
    LedgerIsConserved(own, dbs, steps, i);
    CountsArePositive(dbs, steps, i);
    assert Unshared(own, steps[i]);
    checked, r := AcceptedIsCommit(dbs[i], steps[i]);
    hide Commit, ChargesFit, Next, Accepts;
    assert Balanced(own, checked);
    assert AmountsCapped(terms, checked);
    if r.limits.Some? {
      CommitCapsAmountsIff(own, terms, checked, r);
    }
  }

  /** How far a bundle can go: whatever the second of two charges, it goes through where the first fits; here
      from empty tables, with a total limit of ten and a first charge of one. */
  lemma SecondTokenIsNotTested(own: Owner, terms: Terms, k: Key, n: nat)
    requires Owns(own, k) && terms(k.auth) == Some(Limits(Numeric(10), Unset, map[]))
    ensures var r := Request(k, "g", "p", None, "h", false, terms(k.auth), [Charge("1", "t", 1), Charge("1", "u", n)], true, true);
      && Commit(EMPTY_DB, r).Some?
      && (AmountsCapped(terms, Commit(EMPTY_DB, r).value) <==> n <= 9)
  {
    var cs := [Charge("1", "t", 1), Charge("1", "u", n)];
    var r := Request(k, "g", "p", None, "h", false, terms(k.auth), cs, true, true);
    hide ChargeAll;
    RowOfOwned(own, Begun(EMPTY_DB, r).states, k);
    assert Commit(EMPTY_DB, r).Some?;
    CommitCapsAmountsIff(own, terms, EMPTY_DB, r);
    assert cs[..1] == [cs[0]] && cs[..1][..0] == [];
    assert AmountOf(cs[..1]) == AmountOf([]) + 1;
    assert AmountOf(cs) == AmountOf(cs[..1]) + n;
    assert ChargesFit(r.limits.value, EMPTY_DB, r) <==> n <= 9;
  }
}
