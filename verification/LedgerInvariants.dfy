/** What every reachable ledger satisfies: revoked rows beside their records, totals equal to the
    sums of their token rows, no guid used twice, and totals within the signed limits. */
module LedgerInvariants {
  import opened Tables
  import opened Revocations
  import opened Signing
  import opened LedgerRuns

  // ---- sums over token rows --------------------------------------------------------------

  ghost function Sum(keys: set<TokenKey>, tokens: map<TokenKey, Usage>): Usage
    requires keys <= tokens.Keys
  {
    if keys == {} then UNUSED
    else var t :| t in keys; tokens[t].Plus(Sum(keys - {t}, tokens))
  }

  function RowsOf(tokens: map<TokenKey, Usage>, auth: string): set<TokenKey> {
    set t | t in tokens && t.auth == auth
  }

  /** Everything spent under an authorization, over its token rows. */
  ghost function Spent(tokens: map<TokenKey, Usage>, auth: string): Usage {
    Sum(RowsOf(tokens, auth), tokens)
  }

  lemma {:induction false} SumSplit(keys: set<TokenKey>, tokens: map<TokenKey, Usage>, t: TokenKey)
    requires keys <= tokens.Keys && t in keys
    ensures Sum(keys, tokens) == tokens[t].Plus(Sum(keys - {t}, tokens))
    decreases |keys|
  {
    var u :| u in keys && Sum(keys, tokens) == tokens[u].Plus(Sum(keys - {u}, tokens));
    if u != t {
      SumSplit(keys - {u}, tokens, t);
      SumSplit(keys - {t}, tokens, u);
      assert keys - {u} - {t} == keys - {t} - {u};
      assert Sum(keys, tokens) == tokens[u].Plus(tokens[t].Plus(Sum(keys - {u} - {t}, tokens)));
      assert Sum(keys - {t}, tokens) == tokens[u].Plus(Sum(keys - {t} - {u}, tokens));
    }
  }

  lemma {:induction false} SumFrame(keys: set<TokenKey>, m: map<TokenKey, Usage>, n: map<TokenKey, Usage>)
    requires keys <= m.Keys && keys <= n.Keys
    requires forall t :: t in keys ==> m[t] == n[t]
    ensures Sum(keys, m) == Sum(keys, n)
    decreases |keys|
  {
    if keys != {} {
      var t :| t in keys;
      SumSplit(keys, m, t);
      SumSplit(keys, n, t);
      SumFrame(keys - {t}, m, n);
    }
  }

  /** Charging moves the sum of its own authorization by exactly the charge, and no other sum. */
  lemma ChargeMovesSum(tokens: map<TokenKey, Usage>, auth: string, c: Charge, other: string)
    ensures Spent(ChargeTokens(tokens, auth, c), other)
            == if other == auth then Spent(tokens, auth).Plus(Usage(c.amount, 1)) else Spent(tokens, other)
  {
    var after := ChargeTokens(tokens, auth, c);
    var t := TokenKey(auth, c.chain, c.token);
    if other != auth {
      assert RowsOf(after, other) == RowsOf(tokens, other);
      SumFrame(RowsOf(tokens, other), tokens, after);
    } else {
      var rest := RowsOf(tokens, auth) - {t};
      assert RowsOf(after, auth) - {t} == rest;
      SumSplit(RowsOf(after, auth), after, t);
      SumFrame(rest, tokens, after);
      if t in tokens {
        SumSplit(RowsOf(tokens, auth), tokens, t);
      } else {
        assert RowsOf(tokens, auth) == rest;
      }
    }
  }

  // ---- the usage ledger ------------------------------------------------------------------

  /** Which user an authorization id belongs to: ids are not shared between users. */
  type Owner = string -> string

  ghost predicate Owns(own: Owner, k: Key) {
    k.user == own(k.auth)
  }

  /** Token rows and nonces hang off a state row, and every state row carries the sum of its token
      rows. */
  ghost predicate Balanced(own: Owner, db: Db) {
    && (forall k :: k in db.states ==> Owns(own, k) && db.states[k].used == Spent(db.tokens, k.auth))
    && (forall t :: t in db.tokens ==> Key(own(t.auth), t.auth) in db.states)
    && (forall n :: n in db.nonces ==> Key(own(n.auth), n.auth) in db.states)
  }

  /** Every authorization a step names belongs to the user it names. */
  ghost predicate Unshared(own: Owner, s: Step) {
    match s.event
    case Forwarded(k, _, _) => Owns(own, k)
    case Synced(users, chain) =>
      forall u, r :: u in users && chain(u).Some? && r in chain(u).value ==> Owns(own, Key(u, r.auth))
    case Signed(r, _, _) => Owns(own, r.key)
    case LateCommit(r) => Owns(own, r.key)
    case _ => true
  }

  lemma RowOfOwned(own: Owner, states: map<Key, State>, k: Key)
    requires forall x :: x in states ==> Owns(own, x)
    requires Owns(own, k)
    ensures RowOf(states, k.auth) == Lookup(states, k)
  {
    if exists x :: x in states && x.auth == k.auth {
      var x :| x in states && x.auth == k.auth;
      assert x == k;
    }
  }

  /** A row without token rows has spent nothing. */
  lemma FreshRowSpentNothing(own: Owner, db: Db, k: Key)
    requires Balanced(own, db) && Owns(own, k) && k !in db.states
    ensures Spent(db.tokens, k.auth) == UNUSED
  {
    assert RowsOf(db.tokens, k.auth) == {};
  }

  /** Changing statuses and opening unused rows keeps the books balanced. */
  lemma RowChangesBalance(own: Owner, db: Db, after: Db)
    requires Balanced(own, db)
    requires after.tokens == db.tokens && after.nonces == db.nonces
    requires db.states.Keys <= after.states.Keys
    requires forall k :: k in db.states ==> after.states[k].used == db.states[k].used
    requires forall k :: k in after.states && k !in db.states ==> Owns(own, k) && after.states[k].used == UNUSED
    ensures Balanced(own, after)
  {
    forall k | k in after.states
      ensures Owns(own, k) && after.states[k].used == Spent(after.tokens, k.auth)
    {
      if k !in db.states {
        FreshRowSpentNothing(own, db, k);
      }
    }
  }

  lemma ChargeBalances(own: Owner, db: Db, k: Key, c: Charge)
    requires Balanced(own, db) && Owns(own, k) && k in db.states
    ensures Balanced(own, ChargeOne(db, k.auth, c))
  {
    var after := ChargeOne(db, k.auth, c);
    RowOfOwned(own, db.states, k);
    forall x | x in after.states
      ensures Owns(own, x) && after.states[x].used == Spent(after.tokens, x.auth)
    {
      ChargeMovesSum(db.tokens, k.auth, c, x.auth);
    }
  }

  lemma {:induction false} ChargesBalance(own: Owner, db: Db, k: Key, cs: seq<Charge>)
    requires Balanced(own, db) && Owns(own, k) && k in db.states
    ensures Balanced(own, ChargeAll(db, k.auth, cs))
  {
    if cs != [] {
      ChargesBalance(own, db, k, cs[..|cs| - 1]);
      ChargeKeepsRevocations(db, k.auth, cs[..|cs| - 1]);
      ChargeBalances(own, ChargeAll(db, k.auth, cs[..|cs| - 1]), k, cs[|cs| - 1]);
    }
  }

  lemma CommitBalances(own: Owner, db: Db, r: Request)
    requires Balanced(own, db) && Owns(own, r.key)
    ensures Commit(db, r).Some? ==> Balanced(own, Commit(db, r).value)
  {
    if Commit(db, r).Some? {
      var ensured := db.(states := EnsureState(db.states, r.key, r.grantee));
      RowChangesBalance(own, db, ensured);
      ChargesBalance(own,
                     ensured.(nonces := db.nonces + {Nonce(r.key.auth, r.guid)},
                              records := SaveRecord(db.records, r.key, AuthRecord(r.deadline, r.hash))),
                     r.key, r.charges);
    }
  }

  /** Removing every row of some authorizations, and of no other, keeps the books balanced. */
  lemma DropBalances(own: Owner, db: Db, after: Db, auths: set<string>)
    requires Balanced(own, db)
    requires after.states == map k | k in db.states && k.auth !in auths :: db.states[k]
    requires after.tokens == map t | t in db.tokens && t.auth !in auths :: db.tokens[t]
    requires after.nonces == set n | n in db.nonces && n.auth !in auths
    ensures Balanced(own, after)
  {
    forall k | k in after.states
      ensures after.states[k].used == Spent(after.tokens, k.auth)
    {
      assert RowsOf(after.tokens, k.auth) == RowsOf(db.tokens, k.auth);
      SumFrame(RowsOf(db.tokens, k.auth), db.tokens, after.tokens);
    }
  }

  lemma {:induction false} RecordChainBalances(own: Owner, db: Db, user: string, records: seq<ChainRecord>)
    requires Balanced(own, db)
    requires forall r :: r in records ==> Owns(own, Key(user, r.auth))
    ensures Balanced(own, RecordChain(db, user, records))
  {
    if records != [] {
      var front, r := records[..|records| - 1], records[|records| - 1];
      assert records == front + [r];
      assert r in records && forall x :: x in front ==> x in records;
      RecordChainBalances(own, db, user, front);
      var before := RecordChain(db, user, front);
      RowChangesBalance(own, before, Record(before, Key(user, r.auth), Mirrored(before, user, r)));
    }
  }

  lemma {:induction false} SyncBalances(own: Owner, db: Db, users: seq<string>, chain: Chain)
    requires Balanced(own, db)
    requires forall u, r :: u in users && chain(u).Some? && r in chain(u).value ==> Owns(own, Key(u, r.auth))
    ensures Balanced(own, Sync(db, users, chain))
  {
    if users != [] {
      var front, u := users[..|users| - 1], users[|users| - 1];
      assert users == front + [u];
      assert u in users && forall x :: x in front ==> x in users;
      SyncBalances(own, db, front, chain);
      if chain(u).Some? {
        var before := Sync(db, front, chain);
        RecordChainBalances(own, before, u, chain(u).value);
        RowChangesBalance(own, RecordChain(before, u, chain(u).value), SyncUser(before, u, chain(u).value));
      }
    }
  }

  /** The checks leave token rows and nonces alone and open at most one unused row. */
  lemma VerifyTouchesOneRow(db: Db, r: Request, now: int, answer: ContractAnswer, store: Store)
    ensures var after := Verify(db, r, now, answer, store).0;
            && after.tokens == db.tokens && after.nonces == db.nonces
            && db.states.Keys <= after.states.Keys <= db.states.Keys + {r.key}
            && (forall k :: k in db.states ==> after.states[k].used == db.states[k].used)
            && (r.key in after.states && r.key !in db.states ==> after.states[r.key].used == UNUSED)
  {
    if r.earlierChecks {
      RevocationStepTouchesOneRow(db, r, now, answer, store);
    }
  }

  lemma RevocationStepTouchesOneRow(db: Db, r: Request, now: int, answer: ContractAnswer, store: Store)
    ensures var after := RevocationStep(db, r, now, answer, store).0;
            && after.tokens == db.tokens && after.nonces == db.nonces
            && db.states.Keys <= after.states.Keys <= db.states.Keys + {r.key}
            && (forall k :: k in db.states ==> after.states[k].used == db.states[k].used)
            && (r.key in after.states && r.key !in db.states ==> after.states[r.key].used == UNUSED)
  {
    if LocallyRevoked(db, r.key, now) {
    } else {
      var current := DropExpired(db, r.key, now, store);
      assert current.states == db.states;
    }
  }

  lemma SignBalances(own: Owner, db: Db, r: Request, now: int, answer: ContractAnswer, store: Store)
    requires Balanced(own, db) && Owns(own, r.key)
    ensures Balanced(own, Sign(db, r, now, answer, store).0)
  {
    var (verified, verdict) := Verify(db, r, now, answer, store);
    VerifyTouchesOneRow(db, r, now, answer, store);
    RowChangesBalance(own, db, verified);
    CommitBalances(own, verified, r);
  }

  /** Steps that only write revocations and statuses. */
  lemma RevocationStepsBalance(own: Owner, db: Db, s: Step)
    requires Balanced(own, db) && Unshared(own, s)
    requires s.event.Forwarded? || s.event.Reconciled? || s.event.ExpiredCleaned? || s.event.AccountCreated?
    ensures Balanced(own, Next(db, s))
  {
    hide Sync, Sign, Commit, Cascade, CleanInvalidated, Balanced;
    if s.event.AccountCreated? || s.event.ExpiredCleaned? {
      SameRowsBalance(own, db, Next(db, s));
    } else {
      RowChangesBalance(own, db, Next(db, s));
    }
  }

  lemma SameRowsBalance(own: Owner, db: Db, after: Db)
    requires Balanced(own, db)
    requires after.states == db.states && after.tokens == db.tokens && after.nonces == db.nonces
    ensures Balanced(own, after)
  {
  }

  /** Every step keeps the books balanced. */
  lemma StepBalances(own: Owner, db: Db, s: Step)
    requires Balanced(own, db) && Unshared(own, s)
    ensures Balanced(own, Next(db, s))
  {
    hide Sync, Sign, Reconcile, Revoke, CleanExpired;
    match s.event {
      case Synced(users, chain) => SyncBalances(own, db, users, chain);
      case InvalidatedCleaned => DropBalances(own, db, Next(db, s), InvalidAuths(db));
      case Signed(r, answer, store) => SignBalances(own, db, r, s.now, answer, store);
      case LateCommit(r) => CommitBalances(own, db, r);
      case AccountDeleted(user) =>
        DropBalances(own, db, Next(db, s), set k | k in db.states && k.user == user :: k.auth);
      case _ => RevocationStepsBalance(own, db, s);
    }
  }

  /** Conservation: in every state of every run from empty tables, the totals of an authorization are
      the sums over its token rows, and nothing is kept without a state row. */
  lemma {:induction false} LedgerIsConserved(own: Owner, dbs: seq<Db>, steps: seq<Step>, i: nat)
    requires Run(dbs, steps) && dbs[0] == EMPTY_DB
    requires forall s :: s in steps ==> Unshared(own, s)
    requires i < |dbs|
    ensures Balanced(own, dbs[i])
  {
    if i > 0 {
      LedgerIsConserved(own, dbs, steps, i - 1);
      assert steps[i - 1] in steps;
      StepBalances(own, dbs[i - 1], steps[i - 1]);
    }
  }
}
