/** Runs of the ledger: every table operation as an event, and what survives any sequence of them. */
module LedgerRuns {
  import opened Tables
  import opened Revocations
  import opened Signing

  /** Each event is one request or one timer task, run to its end. LateCommit is the exception: the
      transaction bundle of a request whose checks were passed at some earlier time, so anything may
      have happened in between. */
  datatype Event =
    | Forwarded(k: Key, grantee: string, supplied: AuthRecord)
    | Synced(users: seq<string>, chain: Chain)
    | Reconciled(chain: Chain)
    | ExpiredCleaned
    | InvalidatedCleaned
    | Signed(r: Request, answer: ContractAnswer, store: Store)
    | LateCommit(r: Request)
    | AccountDeleted(user: string)
    | AccountCreated(user: string)

  datatype Step = Step(now: int, event: Event)

  ghost function Next(db: Db, s: Step): Db {
    match s.event
    case Forwarded(k, grantee, supplied) => Revoke(db, k, grantee, supplied, s.now)
    case Synced(users, chain) => Sync(db, users, chain)
    case Reconciled(chain) => Reconcile(db, chain, s.now)
    case ExpiredCleaned => CleanExpired(db, s.now)
    case InvalidatedCleaned => CleanInvalidated(db)
    case Signed(r, answer, store) => Sign(db, r, s.now, answer, store).0
    case LateCommit(r) => if Commit(db, r).Some? then Commit(db, r).value else db
    case AccountDeleted(user) => Cascade(db, user)
    case AccountCreated(user) => db.(accounts := db.accounts + {user})
  }

  /** The request a step hands out a signature for, if it does. */
  ghost predicate Accepts(db: Db, s: Step) {
    match s.event
    case Signed(r, answer, store) => Sign(db, r, s.now, answer, store).1
    case LateCommit(r) => Commit(db, r).Some?
    case _ => false
  }

  /** A sync walks over the accounts table, in some order. */
  ghost predicate WalksAccounts(db: Db, s: Step) {
    s.event.Synced? ==> Distinct(s.event.users) && (set u | u in s.event.users) == db.accounts
  }

  ghost predicate Run(dbs: seq<Db>, steps: seq<Step>) {
    && |dbs| == |steps| + 1
    && forall i :: 0 <= i < |steps| ==> dbs[i + 1] == Next(dbs[i], steps[i]) && WalksAccounts(dbs[i], steps[i])
  }

  // ---- the life of a revocation record ---------------------------------------------------

  /** Exactly when a step takes the record of `k` away. */
  ghost predicate Drops(db: Db, s: Step, k: Key) {
    && k in db.revocations
    && var record := db.revocations[k];
    match s.event
    case ExpiredCleaned => ExpiredBy(record, s.now)
    case AccountDeleted(user) => k.user == user
    case Reconciled(chain) => Stale(record, k, chain, s.now)
    case Synced(users, chain) =>
      record.source.Contract? && Reached(users, chain, k) && k.auth !in Ids(chain(k.user).value)
    case Signed(r, answer, store) =>
      && r.key == k && r.earlierChecks && ExpiredBy(record, s.now)
      && (store.drop || (store.clear && record.source.Contract? && answer.NotRevoked?))
    case _ => false
  }

  /** Sources only rise, times only move earlier, and what is known stays known. */
  predicate Strengthens(before: Revocation, after: Revocation) {
    && (before.source.Platform? ==> after.source.Platform?)
    && after.revokedAt <= before.revokedAt
    && (before.expiresAt.Some? ==> after.expiresAt.Some?)
    && (before.hash.Some? ==> after.hash.Some?)
  }

  /** Charging and committing never touch the revocation table or the accounts. */
  lemma {:induction false} ChargeKeepsRevocations(db: Db, auth: string, cs: seq<Charge>)
    ensures var after := ChargeAll(db, auth, cs);
            (after.revocations, after.accounts, after.nonces, after.records)
            == (db.revocations, db.accounts, db.nonces, db.records)
    ensures ChargeAll(db, auth, cs).states.Keys == db.states.Keys
    ensures forall k :: k in db.states ==>
              ChargeAll(db, auth, cs).states[k] == db.states[k].(used := ChargeAll(db, auth, cs).states[k].used)
  {
    if cs != [] {
      ChargeKeepsRevocations(db, auth, cs[..|cs| - 1]);
    }
  }

  lemma CommitKeepsRevocations(db: Db, r: Request)
    ensures Commit(db, r).Some? ==>
              && Commit(db, r).value.revocations == db.revocations
              && Commit(db, r).value.accounts == db.accounts
              && Commit(db, r).value.nonces == db.nonces + {Nonce(r.key.auth, r.guid)}
  {
    if Commit(db, r).Some? {
      var begun := db.(nonces := db.nonces + {Nonce(r.key.auth, r.guid)},
                       states := EnsureState(db.states, r.key, r.grantee));
      ChargeKeepsRevocations(begun.(records := SaveRecord(db.records, r.key, AuthRecord(r.deadline, r.hash))),
                             r.key.auth, r.charges);
    }
  }

  /** The record a signing request may change is that of its own authorization. */
  lemma SigningKeepsOthers(db: Db, r: Request, now: int, answer: ContractAnswer, store: Store)
    ensures Sign(db, r, now, answer, store).0.revocations
            == if r.earlierChecks then RevocationStep(db, r, now, answer, store).0.revocations else db.revocations
  {
    var (verified, verdict) := Verify(db, r, now, answer, store);
    CommitKeepsRevocations(verified, r);
  }

  lemma SyncSurvives(db: Db, users: seq<string>, chain: Chain, k: Key)
    requires Distinct(users)
    requires k in db.revocations
    ensures var record, after := db.revocations[k], Lookup(Sync(db, users, chain).revocations, k);
            if record.source.Contract? && Reached(users, chain, k) && k.auth !in Ids(chain(k.user).value)
            then after.None?
            else after.Some? && Strengthens(record, after.value)
  {
    SyncAt(db, users, chain);
    if Reached(users, chain, k) {
      MirrorOneClosed(Lookup(db.revocations, k), StoredHash(db, k), k.auth, chain(k.user).value);
    }
  }

  lemma SigningSurvives(db: Db, r: Request, now: int, answer: ContractAnswer, store: Store, k: Key)
    requires k in db.revocations && !Drops(db, Step(now, Signed(r, answer, store)), k)
    ensures var after := Sign(db, r, now, answer, store).0.revocations;
            k in after && Strengthens(db.revocations[k], after[k])
  {
    hide Sign, Commit, Verify;
    SigningKeepsOthers(db, r, now, answer, store);
  }

  /** A step either drops a record or leaves it at least as strong as it was. */
  lemma RecordSurvives(db: Db, s: Step, k: Key)
    requires WalksAccounts(db, s)
    requires k in db.revocations && !Drops(db, s, k)
    ensures k in Next(db, s).revocations
    ensures Strengthens(db.revocations[k], Next(db, s).revocations[k])
  {
    match s.event {
      case Synced(users, chain) => SyncSurvives(db, users, chain, k);
      case Signed(r, answer, store) => SigningSurvives(db, r, s.now, answer, store, k);
      case LateCommit(r) => CommitKeepsRevocations(db, r);
      case _ =>
    }
  }

  /** Drops is exact: a dropped record is gone, unless the same request finds it on chain and stores
      it again as a contract record. */
  lemma DroppedRecordIsGone(db: Db, s: Step, k: Key)
    requires WalksAccounts(db, s)
    requires Drops(db, s, k)
    ensures k in Next(db, s).revocations ==>
              && s.event.Signed? && s.event.answer.RevokedOnChain? && s.event.store.record
              && Next(db, s).revocations[k].source.Contract?
  {
    match s.event {
      case Synced(users, chain) => SyncSurvives(db, users, chain, k);
      case Signed(r, answer, store) => SigningKeepsOthers(db, r, s.now, answer, store);
      case _ =>
    }
  }

  /** Along any stretch of a run that does not drop a record, it only gets stronger. */
  lemma {:induction false} RevocationsOnlyStrengthen(dbs: seq<Db>, steps: seq<Step>, k: Key, i: nat, j: nat)
    requires Run(dbs, steps)
    requires i <= j < |dbs|
    requires k in dbs[i].revocations
    requires forall d :: i <= d < j ==> !Drops(dbs[d], steps[d], k)
    ensures k in dbs[j].revocations
    ensures Strengthens(dbs[i].revocations[k], dbs[j].revocations[k])
    decreases j - i
  {
    if i < j {
      RevocationsOnlyStrengthen(dbs, steps, k, i, j - 1);
      RecordSurvives(dbs[j - 1], steps[j - 1], k);
    }
  }

  /** What may end a platform record: its stored expiry has passed, or its account is deleted. */
  predicate Excused(db: Db, s: Step, k: Key) {
    && k in db.revocations
    && db.revocations[k].source.Platform?
    && (|| ExpiredBy(db.revocations[k], s.now)
        || (s.event.AccountDeleted? && s.event.user == k.user))
  }

  /** A request is refused as long as a local record stands. */
  lemma StandingRecordRefuses(db: Db, s: Step, k: Key)
    requires s.event.Signed? && s.event.r.key == k
    requires LocallyRevoked(db, k, s.now)
    ensures !Accepts(db, s)
  {
  }

  /** Once a platform revocation is stored, no signing of that authorization is approved before the
      record was excused: its stored expiry passed, or the whole account went. */
  lemma {:induction false} PlatformRevocationIsFinal(dbs: seq<Db>, steps: seq<Step>, k: Key, i: nat, j: nat)
    requires Run(dbs, steps)
    requires i <= j < |steps|
    requires k in dbs[i].revocations && dbs[i].revocations[k].source.Platform?
    requires steps[j].event.Signed? && steps[j].event.r.key == k && Accepts(dbs[j], steps[j])
    ensures exists d :: i <= d <= j && Excused(dbs[d], steps[d], k)
  {
    if forall d :: i <= d < j ==> !Drops(dbs[d], steps[d], k) {
      RevocationsOnlyStrengthen(dbs, steps, k, i, j);
      if !Excused(dbs[j], steps[j], k) {
        StandingRecordRefuses(dbs[j], steps[j], k);
      }
    } else {
      var d := FirstDrop(dbs, steps, k, i, j);
      RevocationsOnlyStrengthen(dbs, steps, k, i, d);
      assert Excused(dbs[d], steps[d], k);
    }
  }

  lemma {:induction false} FirstDrop(dbs: seq<Db>, steps: seq<Step>, k: Key, i: nat, j: nat) returns (d: nat)
    requires |dbs| == |steps| + 1 && i <= j <= |steps|
    requires exists x :: i <= x < j && Drops(dbs[x], steps[x], k)
    ensures i <= d < j && Drops(dbs[d], steps[d], k)
    ensures forall x :: i <= x < d ==> !Drops(dbs[x], steps[x], k)
    decreases j - i
  {
    if Drops(dbs[i], steps[i], k) {
      d := i;
    } else {
      d := FirstDrop(dbs, steps, k, i + 1, j);
    }
  }
}
