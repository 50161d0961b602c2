/** Spending limits and replay protection over runs, including the exact places where the checks made
    inside the transaction are weaker than those made before it. */
module LedgerLimits {
  import opened Tables
  import opened Revocations
  import opened Signing
  import opened LedgerRuns
  import opened LedgerInvariants

  /** The limits an authorization was signed with; they are part of its text and never change. */
  type Terms = string -> Option<Limits>

  ghost predicate OnTerms(terms: Terms, s: Step) {
    match s.event
    case Signed(r, _, _) => r.limits == terms(r.key.auth)
    case LateCommit(r) => r.limits == terms(r.key.auth)
    case _ => true
  }

  /** Structured requests charge one token; raw transactions charge one or two. */
  ghost predicate Charges(s: Step, most: nat) {
    match s.event
    case Signed(r, _, _) => 1 <= |r.charges| <= most
    case LateCommit(r) => 1 <= |r.charges| <= most
    case _ => true
  }

  ghost predicate RowWithin(l: Limits, used: Usage, slack: nat) {
    used == UNUSED || (l.count.Enforced() ==> used.count <= l.count.n + slack)
  }

  ghost predicate AmountWithin(l: Limits, used: Usage) {
    used == UNUSED || !l.amount.Refuses(used.amount)
  }

  ghost predicate TokenAmountWithin(l: Limits, t: TokenKey, used: Usage) {
    LimitKey(t.chain, t.token) in l.tokens ==> !l.tokens[LimitKey(t.chain, t.token)].amount.Refuses(used.amount)
  }

  /** The total count never passes its limit by more than `slack`. */
  ghost predicate CountCapped(terms: Terms, db: Db, slack: nat) {
    forall k :: k in db.states && terms(k.auth).Some? ==> RowWithin(terms(k.auth).value, db.states[k].used, slack)
  }

  /** Total and per-token amounts never pass their limits. */
  ghost predicate AmountsCapped(terms: Terms, db: Db) {
    && (forall k :: k in db.states && terms(k.auth).Some? ==> AmountWithin(terms(k.auth).value, db.states[k].used))
    && (forall t :: t in db.tokens && terms(t.auth).Some? ==> TokenAmountWithin(terms(t.auth).value, t, db.tokens[t]))
  }

  /** Nothing is charged between `before` and `after`: rows keep what they used, are new, or go. */
  ghost predicate Uncharged(before: Db, after: Db) {
    && (forall k :: k in after.states ==>
          after.states[k].used == UNUSED || (k in before.states && after.states[k].used == before.states[k].used))
    && (forall t :: t in after.tokens ==> t in before.tokens && after.tokens[t] == before.tokens[t])
  }

  /** Only an accepted request charges anything. */
  lemma OnlyAcceptedRequestsCharge(db: Db, s: Step)
    requires WalksAccounts(db, s) && !Accepts(db, s)
    ensures Uncharged(db, Next(db, s))
  {
    match s.event {
      case Synced(users, chain) => SyncCharges(db, users, chain);
      case Signed(r, answer, store) => VerifyTouchesOneRow(db, r, s.now, answer, store);
      case _ =>
    }
  }

  lemma SyncCharges(db: Db, users: seq<string>, chain: Chain)
    requires Distinct(users)
    ensures Uncharged(db, Sync(db, users, chain))
  {
    SyncAt(db, users, chain);
    var after := Sync(db, users, chain);
    forall k | k in after.states
      ensures after.states[k].used == UNUSED || (k in db.states && after.states[k].used == db.states[k].used)
    {
      assert Lookup(after.states, k).Some?;
      if Reached(users, chain, k) {
        MirrorStateRevokes(Lookup(db.states, k), k.auth, chain(k.user).value);
      }
    }
  }

  /** An accepted request is its checks followed by its commit. */
  lemma AcceptedIsCommit(db: Db, s: Step) returns (checked: Db, r: Request)
    requires Accepts(db, s)
    ensures Uncharged(db, checked) && Commit(checked, r) == Some(Next(db, s))
    ensures checked.nonces == db.nonces
    ensures s.event.Signed? ==> r == s.event.r && LimitsAllow(checked, r)
    ensures s.event.LateCommit? ==> r == s.event.r && checked == db
    ensures forall own: Owner :: Balanced(own, db) && Owns(own, r.key) ==> Balanced(own, checked)
  {
    if s.event.Signed? {
      r := s.event.r;
      checked := Verify(db, r, s.now, s.event.answer, s.event.store).0;
      VerifyTouchesOneRow(db, r, s.now, s.event.answer, s.event.store);
      forall own: Owner | Balanced(own, db) && Owns(own, r.key) ensures Balanced(own, checked) {
        RowChangesBalance(own, db, checked);
      }
    } else {
      r := s.event.r;
      checked := db;
    }
  }

  /** The tables after the bundle's own row is ensured, before anything is charged. */
  ghost function Begun(db: Db, r: Request): Db {
    db.(nonces := db.nonces + {Nonce(r.key.auth, r.guid)},
        states := EnsureState(db.states, r.key, r.grantee),
        records := SaveRecord(db.records, r.key, AuthRecord(r.deadline, r.hash)))
  }

  lemma CommitChargesBegun(own: Owner, db: Db, r: Request)
    requires Balanced(own, db) && Owns(own, r.key) && Commit(db, r).Some?
    requires r.charges != []
    ensures Commit(db, r).value == ChargeAll(Begun(db, r), r.key.auth, r.charges)
    ensures Balanced(own, Begun(db, r).(nonces := db.nonces))
    ensures Uncharged(db, Begun(db, r))
    ensures RowOf(Begun(db, r).states, r.key.auth) == Some(Begun(db, r).states[r.key])
    ensures r.limits.Some? ==>
              WithinLimitsInTx(Some(Begun(db, r).states[r.key]),
                               TokenUsed(db.tokens, TokenKey(r.key.auth, r.charges[0].chain, r.charges[0].token)),
                               r.limits.value, r.charges[0])
  {
    var ensured := db.(states := EnsureState(db.states, r.key, r.grantee));
    RowChangesBalance(own, db, ensured);
    RowOfOwned(own, ensured.states, r.key);
  }

  /** Charging one token of an owned authorization: only its own rows move, by exactly the charge. */
  lemma ChargeOneRow(own: Owner, db: Db, k: Key, c: Charge)
    requires forall x :: x in db.states ==> Owns(own, x)
    requires Owns(own, k) && k in db.states
    ensures ChargeOne(db, k.auth, c)
            == db.(states := db.states[k := db.states[k].(used := db.states[k].used.Plus(Usage(c.amount, 1)))],
                   tokens := ChargeTokens(db.tokens, k.auth, c))
  {
    RowOfOwned(own, db.states, k);
  }

  lemma {:induction false} ChargeAllRow(own: Owner, db: Db, k: Key, cs: seq<Charge>)
    requires forall x :: x in db.states ==> Owns(own, x)
    requires Owns(own, k) && k in db.states
    ensures var after := ChargeAll(db, k.auth, cs);
            && after.states.Keys == db.states.Keys
            && (forall x :: x in db.states && x != k ==> after.states[x] == db.states[x])
            && after.states[k].used.count == db.states[k].used.count + |cs|
            && (forall t :: t in after.tokens && t.auth != k.auth ==> t in db.tokens && after.tokens[t] == db.tokens[t])
  {
    if cs != [] {
      ChargeAllRow(own, db, k, cs[..|cs| - 1]);
      ChargeOneRow(own, ChargeAll(db, k.auth, cs[..|cs| - 1]), k, cs[|cs| - 1]);
    }
  }

  lemma CommitCapsCount(own: Owner, terms: Terms, db: Db, r: Request, slack: nat)
    requires Balanced(own, db) && Owns(own, r.key) && Commit(db, r).Some?
    requires r.limits == terms(r.key.auth) && 1 <= |r.charges| <= slack + 1
    requires CountCapped(terms, db, slack)
    ensures CountCapped(terms, Commit(db, r).value, slack)
  {
    CommitChargesBegun(own, db, r);
    ChargeAllRow(own, Begun(db, r), r.key, r.charges);
    var after := Commit(db, r).value;
    forall k | k in after.states && terms(k.auth).Some?
      ensures RowWithin(terms(k.auth).value, after.states[k].used, slack)
    {
      if k == r.key {
        assert !r.limits.value.count.Refuses(Begun(db, r).states[k].used.count + 1);
      }
    }
  }

  lemma CommitCapsAmounts(own: Owner, terms: Terms, db: Db, r: Request)
    requires Balanced(own, db) && Owns(own, r.key) && Commit(db, r).Some?
    requires r.limits == terms(r.key.auth) && |r.charges| == 1
    requires AmountsCapped(terms, db)
    ensures AmountsCapped(terms, Commit(db, r).value)
  {
    CommitChargesBegun(own, db, r);
    var c := r.charges[0];
    assert r.charges[..0] == [];
    ChargeOneRow(own, Begun(db, r), r.key, c);
    assert Commit(db, r).value == ChargeOne(Begun(db, r), r.key.auth, c);
  }

  // ---- over runs -------------------------------------------------------------------------

  ghost predicate Lawful(own: Owner, terms: Terms, steps: seq<Step>, most: nat) {
    forall i :: 0 <= i < |steps| ==> Unshared(own, steps[i]) && OnTerms(terms, steps[i]) && Charges(steps[i], most)
  }

  lemma LawfulIsUnshared(own: Owner, terms: Terms, steps: seq<Step>, most: nat)
    requires Lawful(own, terms, steps, most)
    ensures forall s :: s in steps ==> Unshared(own, s)
  {
  }

  /** Requests that charge one token each keep the total amount, the total count and every token's
      amount within the signed limits for ever, whatever was verified how long ago. */
  lemma {:induction false} SingleTokenRunsStayWithinLimits(own: Owner, terms: Terms, dbs: seq<Db>, steps: seq<Step>, i: nat)
    requires Run(dbs, steps) && dbs[0] == EMPTY_DB && Lawful(own, terms, steps, 1)
    requires i < |dbs|
    ensures CountCapped(terms, dbs[i], 0) && AmountsCapped(terms, dbs[i])
  {
    if i > 0 {
      SingleTokenRunsStayWithinLimits(own, terms, dbs, steps, i - 1);
      RunsOvershootByExtraTokens(own, terms, dbs, steps, i, 0);
      var s := steps[i - 1];
      if Accepts(dbs[i - 1], s) {
        LawfulIsUnshared(own, terms, steps, 1);
        LedgerIsConserved(own, dbs, steps, i - 1);
        var checked, r := AcceptedIsCommit(dbs[i - 1], s);
        CommitCapsAmounts(own, terms, checked, r);
      } else {
        OnlyAcceptedRequestsCharge(dbs[i - 1], s);
      }
    }
  }

  /** Runs whose requests charge up to `slack + 1` tokens never pass the total count limit by more
      than `slack`; raw transactions charge at most two tokens, so their slack is one. */
  lemma {:induction false} RunsOvershootByExtraTokens(own: Owner, terms: Terms, dbs: seq<Db>, steps: seq<Step>,
                                                      i: nat, slack: nat)
    requires Run(dbs, steps) && dbs[0] == EMPTY_DB && Lawful(own, terms, steps, slack + 1)
    requires i < |dbs|
    ensures CountCapped(terms, dbs[i], slack)
  {
    if i > 0 {
      RunsOvershootByExtraTokens(own, terms, dbs, steps, i - 1, slack);
      var s := steps[i - 1];
      if Accepts(dbs[i - 1], s) {
        LawfulIsUnshared(own, terms, steps, slack + 1);
        LedgerIsConserved(own, dbs, steps, i - 1);
        var checked, r := AcceptedIsCommit(dbs[i - 1], s);
        CommitCapsCount(own, terms, checked, r, slack);
      } else {
        OnlyAcceptedRequestsCharge(dbs[i - 1], s);
      }
    }
  }

  lemma FirstRequestPasses(own: Owner, r: Request, l: Limits)
    requires Owns(own, r.key) && r.limits == Some(l) && |r.charges| == 2
    requires l == Limits(Unset, Numeric(1), map[])
    ensures Commit(EMPTY_DB, r).Some?
  {
    hide ChargeAll;
    RowOfOwned(own, Begun(EMPTY_DB, r).states, r.key);
  }

  /** The bound is tight: a raw transaction with two derived tokens is checked for one and charged
      for both, so a single request passes a count limit of one. */
  lemma RawTransactionCanOvershoot(own: Owner, r: Request, l: Limits)
    requires Owns(own, r.key) && r.limits == Some(l) && |r.charges| == 2
    requires l == Limits(Unset, Numeric(1), map[])
    ensures Commit(EMPTY_DB, r).Some?
    ensures r.key in Commit(EMPTY_DB, r).value.states
    ensures RowWithin(l, Commit(EMPTY_DB, r).value.states[r.key].used, 1)
    ensures !RowWithin(l, Commit(EMPTY_DB, r).value.states[r.key].used, 0)
  {
    FirstRequestPasses(own, r, l);
    CommitChargesBegun(own, EMPTY_DB, r);
    hide Commit, ChargeAll;
    ChargeAllRow(own, Begun(EMPTY_DB, r), r.key, r.charges);
  }
}
