/** Where two requests meet: replayed guids, revocations arriving between a request's checks and its
    commit, shared authorization ids, and the count test inside the transaction. Each property that
    the code does not keep unconditionally comes with the exact condition under which it does. */
module LedgerRaces {
  import opened Tables
  import opened Revocations
  import opened Signing
  import opened LedgerRuns
  import opened LedgerInvariants
  import opened LedgerLimits

  // ---- replay ----------------------------------------------------------------------------

  ghost predicate Uses(s: Step, n: Nonce) {
    match s.event
    case Signed(r, _, _) => n == Nonce(r.key.auth, r.guid)
    case LateCommit(r) => n == Nonce(r.key.auth, r.guid)
    case _ => false
  }

  /** The two clean-ups that forget the guids of an authorization. */
  ghost predicate Purges(db: Db, s: Step, auth: string) {
    match s.event
    case InvalidatedCleaned => auth in InvalidAuths(db)
    case AccountDeleted(user) => exists k :: k in db.states && k.user == user && k.auth == auth
    case _ => false
  }

  lemma NonceSurvives(db: Db, s: Step, n: Nonce)
    requires WalksAccounts(db, s)
    requires n in db.nonces && !Purges(db, s, n.auth)
    ensures n in Next(db, s).nonces
    ensures Uses(s, n) ==> !Accepts(db, s)
  {
    match s.event {
      case Synced(users, chain) => SyncAt(db, users, chain);
      case Signed(r, answer, store) =>
        var (verified, verdict) := Verify(db, r, s.now, answer, store);
        VerifyTouchesOneRow(db, r, s.now, answer, store);
        CommitKeepsRevocations(verified, r);
      case LateCommit(r) => CommitKeepsRevocations(db, r);
      case _ =>
    }
  }

  lemma AcceptedNonceIsStored(db: Db, s: Step, n: Nonce)
    requires Uses(s, n) && Accepts(db, s)
    ensures n in Next(db, s).nonces
  {
    var checked, r := AcceptedIsCommit(db, s);
    CommitKeepsRevocations(checked, r);
  }

  /** No guid is accepted twice unless its authorization was purged in between. */
  lemma {:induction false} NoGuidIsAcceptedTwice(dbs: seq<Db>, steps: seq<Step>, n: Nonce, i: nat, j: nat)
    requires Run(dbs, steps)
    requires i < j < |steps|
    requires Uses(steps[i], n) && Accepts(dbs[i], steps[i])
    requires Uses(steps[j], n) && Accepts(dbs[j], steps[j])
    ensures exists d :: i < d < j && Purges(dbs[d], steps[d], n.auth)
  {
    AcceptedNonceIsStored(dbs[i], steps[i], n);
    if forall d :: i < d < j ==> !Purges(dbs[d], steps[d], n.auth) {
      NonceStays(dbs, steps, n, i + 1, j);
      NonceSurvives(dbs[j], steps[j], n);
    }
  }

  lemma {:induction false} NonceStays(dbs: seq<Db>, steps: seq<Step>, n: Nonce, i: nat, j: nat)
    requires Run(dbs, steps)
    requires i <= j < |dbs|
    requires n in dbs[i].nonces
    requires forall d :: i <= d < j ==> !Purges(dbs[d], steps[d], n.auth)
    ensures n in dbs[j].nonces
    decreases j - i
  {
    if i < j {
      NonceStays(dbs, steps, n, i, j - 1);
      NonceSurvives(dbs[j - 1], steps[j - 1], n);
    }
  }

  // ---- records beside state rows ---------------------------------------------------------

  /** A revocation record never stands beside a state row that is not revoked. */
  ghost predicate Coherent(db: Db) {
    forall k :: k in db.revocations && k in db.states ==> db.states[k].status == Revoked
  }

  /** A signing opens a row beside an expired record that the store would not drop: the contract does not
      say revoked, the record is not cleared either, there was no row, and the checks or the commit open one. */
  ghost predicate StrandsBySigning(db: Db, r: Request, now: int, answer: ContractAnswer, store: Store) {
    && r.earlierChecks && !store.drop
    && r.key !in db.states && r.key in db.revocations && ExpiredBy(db.revocations[r.key], now)
    && !answer.RevokedOnChain?
    && !(answer.NotRevoked? && store.clear && db.revocations[r.key].source.Contract?)
    && ((answer.NotRevoked? && store.create) || Sign(db, r, now, answer, store).1)
  }

  /** The two ways to open an active row beside a record: such a signing, or a late commit that goes through
      when the record stands and its row is gone. */
  ghost predicate Strands(db: Db, s: Step) {
    match s.event
    case Signed(r, answer, store) => StrandsBySigning(db, r, s.now, answer, store)
    case LateCommit(r) => Commit(db, r).Some? && r.key in db.revocations && r.key !in db.states
    case _ => false
  }

  lemma CommitStatuses(db: Db, r: Request)
    requires Commit(db, r).Some?
    ensures var after := Commit(db, r).value;
            && after.states.Keys == db.states.Keys + {r.key}
            && (forall k :: k in db.states ==> after.states[k].status == db.states[k].status)
            && (r.key !in db.states ==> after.states[r.key].status == Active)
            && after.revocations == db.revocations
  {
    var begun := Begun(db, r);
    ChargeKeepsRevocations(begun, r.key.auth, r.charges);
    CommitKeepsRevocations(db, r);
    if r.key !in db.states {
      assert begun.states[r.key].status == Active;
    }
  }

  /** Two states that differ at most in what they hold about one authorization. */
  ghost predicate SameElsewhere(db: Db, after: Db, k: Key) {
    && (forall x :: x != k ==> (x in after.states <==> x in db.states) && (x in after.revocations <==> x in db.revocations))
    && (forall x :: x != k && x in db.states ==> after.states[x] == db.states[x])
  }

  /** A row stands beside a record and is not revoked. */
  predicate OpenBesideRecord(db: Db, k: Key) {
    k in db.revocations && k in db.states && db.states[k].status != Revoked
  }

  lemma CoherentByRow(db: Db, after: Db, k: Key)
    requires Coherent(db) && SameElsewhere(db, after, k)
    ensures Coherent(after) <==> !OpenBesideRecord(after, k)
  {
  }

  /** A local hit touches one record and revokes its row. */
  lemma LocalHitKeepsRows(db: Db, r: Request, now: int, answer: ContractAnswer, store: Store)
    requires Coherent(db) && LocallyRevoked(db, r.key, now)
    ensures SameElsewhere(db, RevocationStep(db, r, now, answer, store).0, r.key)
    ensures !OpenBesideRecord(RevocationStep(db, r, now, answer, store).0, r.key)
  {
  }

  /** What the checks leave of the record and the row they are about; others they do not touch. */
  lemma CheckedRow(db: Db, r: Request, now: int, answer: ContractAnswer, store: Store)
    requires Coherent(db)
    ensures var after := RevocationStep(db, r, now, answer, store).0;
      && SameElsewhere(db, after, r.key)
      && (OpenBesideRecord(after, r.key) <==>
            && !store.drop
            && r.key !in db.states && r.key in db.revocations && ExpiredBy(db.revocations[r.key], now)
            && answer.NotRevoked? && store.create
            && !(store.clear && db.revocations[r.key].source.Contract?))
  {
    hide SameElsewhere, RevocationStep, OpenBesideRecord;
    if LocallyRevoked(db, r.key, now) {
      LocalHitKeepsRows(db, r, now, answer, store);
    } else if answer.NotRevoked? {
      NotRevokedRow(db, r, now, store);
    } else {
      OtherAnswerRow(db, r, now, answer, store);
    }
  }

  lemma NotRevokedRow(db: Db, r: Request, now: int, store: Store)
    requires Coherent(db) && !LocallyRevoked(db, r.key, now)
    ensures var after := RevocationStep(db, r, now, NotRevoked, store).0;
      && SameElsewhere(db, after, r.key)
      && (OpenBesideRecord(after, r.key) <==>
            && !store.drop && store.create
            && r.key !in db.states && r.key in db.revocations
            && !(store.clear && db.revocations[r.key].source.Contract?))
  {
    hide ExpiredBy, Delete;
    var k, current := r.key, DropExpired(db, r.key, now, store);
    DroppedRow(db, k, now, store);
    var cleared := Attempt(store.clear, current, Delete(current, k, Some(Contract), true));
    ClearedRow(current, k);
    var created := cleared.(states := EnsureState(cleared.states, k, r.grantee));
    assert RevocationStep(db, r, now, NotRevoked, store).0 == Attempt(store.create, cleared, created);
  }

  lemma DroppedRow(db: Db, k: Key, now: int, store: Store)
    requires !LocallyRevoked(db, k, now)
    ensures var after := DropExpired(db, k, now, store);
      after.states == db.states
      && after.revocations == if store.drop then db.revocations - {k} else db.revocations
  {
  }

  /** Clearing the contract's record takes the record and may give its row back. */
  lemma ClearedRow(db: Db, k: Key)
    ensures var after := Delete(db, k, Some(Contract), true);
      && SameElsewhere(db, after, k)
      && (k in after.states <==> k in db.states)
      && (if k in db.revocations && db.revocations[k].source.Contract? then k !in after.revocations else after == db)
  {
  }

  lemma OtherAnswerRow(db: Db, r: Request, now: int, answer: ContractAnswer, store: Store)
    requires Coherent(db) && !LocallyRevoked(db, r.key, now) && !answer.NotRevoked?
    ensures SameElsewhere(db, RevocationStep(db, r, now, answer, store).0, r.key)
    ensures !OpenBesideRecord(RevocationStep(db, r, now, answer, store).0, r.key)
  {
    hide ExpiredBy;
    var current := DropExpired(db, r.key, now, store);
    assert current.states == db.states;
  }

  lemma SyncIsCoherent(db: Db, users: seq<string>, chain: Chain)
    requires Coherent(db) && Distinct(users)
    ensures Coherent(Sync(db, users, chain))
  {
    SyncAt(db, users, chain);
    var after := Sync(db, users, chain);
    forall k | k in after.revocations && k in after.states ensures after.states[k].status == Revoked {
      assert Lookup(after.states, k).Some? && Lookup(after.revocations, k).Some?;
      if Reached(users, chain, k) {
        MirrorStateRevokes(Lookup(db.states, k), k.auth, chain(k.user).value);
        MirrorOneClosed(Lookup(db.revocations, k), StoredHash(db, k), k.auth, chain(k.user).value);
      }
    }
  }

  /** After the checks a commit strands exactly when it goes through beside a record without a row. */
  lemma CommitIsCoherentIff(db: Db, r: Request)
    requires Commit(db, r).Some?
    ensures Coherent(Commit(db, r).value) <==> Coherent(db) && !(r.key in db.revocations && r.key !in db.states)
  {
    CommitStatuses(db, r);
    var after := Commit(db, r).value;
    assert forall k :: k in db.states ==> k in after.states;
  }

  lemma SigningIsCoherentIff(db: Db, r: Request, now: int, answer: ContractAnswer, store: Store)
    requires Coherent(db)
    ensures Coherent(Sign(db, r, now, answer, store).0) <==> !StrandsBySigning(db, r, now, answer, store)
  {
    var (after, verdict) := RevocationStep(db, r, now, answer, store);
    var (verified, final) := Verify(db, r, now, answer, store);
    CheckedRow(db, r, now, answer, store);
    if verdict.Approved? {
      CheckedRecord(db, r, now, answer, store);
    }
    hide RevocationStep, Coherent, Commit;
    CoherentByRow(db, after, r.key);
    if r.earlierChecks && final.Approved? && Commit(verified, r).Some? {
      CommitIsCoherentIff(verified, r);
    }
  }

  /** After checks that pass, a record is left exactly when it is expired and was neither dropped nor cleared;
      then a row is there if there was one or one has been created. */
  lemma CheckedRecord(db: Db, r: Request, now: int, answer: ContractAnswer, store: Store)
    requires RevocationStep(db, r, now, answer, store).1.Approved?
    ensures var after := RevocationStep(db, r, now, answer, store).0;
      && (r.key in after.revocations <==>
            && r.key in db.revocations && ExpiredBy(db.revocations[r.key], now) && !store.drop
            && !(answer.NotRevoked? && store.clear && db.revocations[r.key].source.Contract?))
      && (r.key in after.revocations ==>
            (r.key in after.states <==> r.key in db.states || (answer.NotRevoked? && store.create)))
  {
    hide ExpiredBy;
  }

  /** A step keeps records beside revoked rows if and only if it strands none. */
  lemma StepIsCoherentIff(db: Db, s: Step)
    requires Coherent(db) && WalksAccounts(db, s)
    ensures Coherent(Next(db, s)) <==> !Strands(db, s)
  {
    match s.event {
      case Synced(users, chain) => SyncIsCoherent(db, users, chain);
      case Signed(r, answer, store) =>
        hide Sign, StrandsBySigning, Coherent;
        SigningIsCoherentIff(db, r, s.now, answer, store);
      case LateCommit(r) =>
        if Commit(db, r).Some? {
          CommitIsCoherentIff(db, r);
        }
      case _ => OtherStepsAreCoherent(db, s);
    }
  }

  lemma OtherStepsAreCoherent(db: Db, s: Step)
    requires Coherent(db) && !s.event.Synced? && !s.event.Signed? && !s.event.LateCommit?
    ensures Coherent(Next(db, s))
  {
    hide Sync, Sign, Commit;
  }

  /** In every run that strands no record, revoked rows are all there is beside the records. */
  lemma {:induction false} RecordsStandBesideRevokedRows(dbs: seq<Db>, steps: seq<Step>, i: nat)
    requires Run(dbs, steps) && Coherent(dbs[0])
    requires forall d :: 0 <= d < |steps| ==> !Strands(dbs[d], steps[d])
    requires i < |dbs|
    ensures Coherent(dbs[i])
  {
    if i > 0 {
      RecordsStandBesideRevokedRows(dbs, steps, i - 1);
      StepIsCoherentIff(dbs[i - 1], steps[i - 1]);
    }
  }

  /** A platform record whose revoked row has been cleaned away, reached from empty tables. */
  lemma RecordWithoutRow(k: Key) returns (dbs: seq<Db>, steps: seq<Step>)
    ensures Run(dbs, steps) && |steps| == 2 && dbs[0] == EMPTY_DB && Coherent(dbs[2])
    ensures dbs[2].states == map[] && dbs[2].nonces == {} && k in dbs[2].revocations
    ensures dbs[2].revocations[k] == Revocation(Some("p"), Platform, 5, Some(6), Some("h"))
  {
    var revoke, clean := Step(5, Forwarded(k, "p", AuthRecord(Some(6), "h"))), Step(5, InvalidatedCleaned);
    var revoked := Next(EMPTY_DB, revoke);
    RowIsCleaned(revoked, Next(revoked, clean), k);
    dbs, steps := [EMPTY_DB, revoked, Next(revoked, clean)], [revoke, clean];
  }

  /** Both ways are reached from empty tables. A request after the record's expiry, while the store fails to
      drop it, opens a row beside it. */
  lemma SigningCanStrand() returns (dbs: seq<Db>, steps: seq<Step>)
    ensures Run(dbs, steps) && dbs[0] == EMPTY_DB && |steps| == 3 && steps[2].event.Signed?
    ensures !Coherent(dbs[3])
  {
    var k := Key("u", "a");
    dbs, steps := RecordWithoutRow(k);
    var r := Request(k, "g", "p", None, "h", false, None, [], true, true);
    var request := Step(7, Signed(r, NotRevoked, Store(false, true, true, true)));
    hide Commit, Sign, Coherent, Next;
    StepIsCoherentIff(dbs[2], request);
    dbs, steps := dbs + [Next(dbs[2], request)], steps + [request];
  }

  /** And so does the commit of a request that was checked before the revocation. */
  lemma LateCommitCanStrand() returns (dbs: seq<Db>, steps: seq<Step>)
    ensures Run(dbs, steps) && dbs[0] == EMPTY_DB && |steps| == 3 && steps[2].event.LateCommit?
    ensures !Coherent(dbs[3])
  {
    var k := Key("u", "a");
    dbs, steps := RecordWithoutRow(k);
    var r := Request(k, "g", "p", None, "h", false, None, [], true, true);
    var commit := Step(6, LateCommit(r));
    assert Commit(dbs[2], r).Some?;
    hide Commit, Sign, Coherent, Next;
    StepIsCoherentIff(dbs[2], commit);
    dbs, steps := dbs + [Next(dbs[2], commit)], steps + [commit];
  }

  lemma RowIsCleaned(revoked: Db, cleaned: Db, k: Key)
    requires cleaned == CleanInvalidated(revoked)
    requires revoked.states.Keys == {k} && revoked.states[k].status == Revoked
    ensures cleaned.states == map[] && cleaned.revocations == revoked.revocations && Coherent(cleaned)
    ensures revoked.nonces == {} ==> cleaned.nonces == {}
  {
    assert k.auth in InvalidAuths(revoked);
  }

  // ---- a revocation between the checks and the commit --------------------------------------

  /** A request was checked, then its authorization was revoked. Its commit is accepted exactly when
      the guid is new and either no cumulative limits were signed, or the revoked row was already
      cleaned away and the limits allow one more charge from zero. */
  lemma LateCommitAfterRevocationIff(own: Owner, db: Db, r: Request)
    requires Balanced(own, db) && Owns(own, r.key) && Coherent(db)
    requires r.key in db.revocations && r.charges != []
    ensures Commit(db, r).Some? <==>
              && Nonce(r.key.auth, r.guid) !in db.nonces
              && (|| r.limits.None?
                  || (r.key !in db.states
                      && WithinLimitsInTx(None, UNUSED, r.limits.value, r.charges[0])))
  {
    var begun := db.(states := EnsureState(db.states, r.key, r.grantee));
    RowOfOwned(own, begun.states, r.key);
  }

  /** Such a commit exists: a request without cumulative limits is accepted although the platform
      revocation already stands. */
  lemma RevocationCanLoseTheRace() returns (dbs: seq<Db>, steps: seq<Step>, k: Key)
    ensures Run(dbs, steps) && |steps| == 2
    ensures k in dbs[1].revocations && dbs[1].revocations[k] == Revocation(Some("p"), Platform, 5, None, Some("h"))
    ensures steps[1].event.LateCommit? && steps[1].event.r.key == k && Accepts(dbs[1], steps[1])
  {
    k := Key("u", "a");
    var revoke := Step(5, Forwarded(k, "p", AuthRecord(None, "h")));
    var r := Request(k, "g", "p", None, "h", false, None, [Charge("1", "t", 1)], true, true);
    var commit := Step(6, LateCommit(r));
    var revoked := Next(EMPTY_DB, revoke);
    dbs := [EMPTY_DB, revoked, Next(revoked, commit)];
    steps := [revoke, commit];
  }

  // ---- counting tokens inside the transaction ----------------------------------------------

  /** In a balanced ledger the token count test inside the transaction refuses nothing that the total
      count test lets through, except that a total limit of numeric zero makes it refuse everything. */
  lemma TokenCountTestInTxAddsNothing(row: Option<State>, tokenUsed: Usage, l: Limits, c: Charge)
    requires 0 <= tokenUsed.count <= UsedBy(row).count
    ensures WithinLimitsInTx(row, tokenUsed, l, c) <==>
              && WithinShared(row, tokenUsed, l, c)
              && !(&& LimitKey(c.chain, c.token) in l.tokens
                   && l.tokens[LimitKey(c.chain, c.token)].count.Enforced()
                   && l.count == Numeric(0))
  {
  }

  function Max(a: int, b: int): int {
    if a >= b then a else b
  }

  /** What the transaction accepts keeps a token's own count limit exactly when the total count limit
      is a numeric zero, or is set and no larger. */
  lemma TokenCountKeptInTxIff(l: Limits, c: Charge)
    requires LimitKey(c.chain, c.token) in l.tokens
    requires l.tokens[LimitKey(c.chain, c.token)].count.Enforced()
    ensures var limit := l.tokens[LimitKey(c.chain, c.token)].count.n;
            (forall row: Option<State>, tokenUsed: Usage ::
               0 <= tokenUsed.count <= UsedBy(row).count && WithinLimitsInTx(row, tokenUsed, l, c)
               ==> tokenUsed.count + 1 <= limit)
            <==> l.count == Numeric(0) || (l.count.Enforced() && l.count.n <= Max(limit, 0))
  {
    var tl := l.tokens[LimitKey(c.chain, c.token)];
    var n := Max(tl.count.n, 0);
    if !(l.count == Numeric(0) || (l.count.Enforced() && l.count.n <= n)) {
      var total := if l.amount.Unset? then 0 else l.amount.n - c.amount;
      var spent := if tl.amount.Unset? then 0 else tl.amount.n - c.amount;
      var row := Some(State("*", Active, Usage(total, n)));
      var tokenUsed := Usage(spent, n);
      assert WithinLimitsInTx(row, tokenUsed, l, c);
      assert 0 <= tokenUsed.count <= UsedBy(row).count;
    }
  }

  /** The checks made before the transaction do compare with the token's own limit, so handling each
      request in one go keeps every token's count within it. */
  ghost predicate TokenCountWithin(l: Limits, t: TokenKey, used: Usage) {
    LimitKey(t.chain, t.token) in l.tokens ==> !l.tokens[LimitKey(t.chain, t.token)].count.Refuses(used.count)
  }

  ghost predicate TokenCountsCapped(terms: Terms, db: Db) {
    forall t :: t in db.tokens && terms(t.auth).Some? ==> TokenCountWithin(terms(t.auth).value, t, db.tokens[t])
  }

  lemma CheckedCommitCapsTokenCount(own: Owner, terms: Terms, db: Db, r: Request)
    requires Balanced(own, db) && Owns(own, r.key) && Commit(db, r).Some?
    requires r.limits == terms(r.key.auth) && |r.charges| == 1 && LimitsAllow(db, r)
    requires TokenCountsCapped(terms, db)
    ensures TokenCountsCapped(terms, Commit(db, r).value)
  {
    CommitChargesBegun(own, db, r);
    assert r.charges[..0] == [];
    ChargeOneRow(own, Begun(db, r), r.key, r.charges[0]);
    assert Commit(db, r).value == ChargeOne(Begun(db, r), r.key.auth, r.charges[0]);
  }

  lemma {:induction false} UninterruptedRunsCapTokenCounts(own: Owner, terms: Terms, dbs: seq<Db>, steps: seq<Step>, i: nat)
    requires Run(dbs, steps) && dbs[0] == EMPTY_DB && Lawful(own, terms, steps, 1)
    requires forall d :: 0 <= d < |steps| ==> !steps[d].event.LateCommit?
    requires i < |dbs|
    ensures TokenCountsCapped(terms, dbs[i])
  {
    if i > 0 {
      UninterruptedRunsCapTokenCounts(own, terms, dbs, steps, i - 1);
      var s := steps[i - 1];
      if Accepts(dbs[i - 1], s) {
        LawfulIsUnshared(own, terms, steps, 1);
        LedgerIsConserved(own, dbs, steps, i - 1);
        var checked, r := AcceptedIsCommit(dbs[i - 1], s);
        CheckedCommitCapsTokenCount(own, terms, checked, r);
      } else {
        OnlyAcceptedRequestsCharge(dbs[i - 1], s);
      }
    }
  }

  // ---- authorization ids shared between users ----------------------------------------------

  /** The books without any assumption about who owns an id. */
  ghost predicate Books(db: Db) {
    && (forall k :: k in db.states ==> db.states[k].used == Spent(db.tokens, k.auth))
    && (forall t :: t in db.tokens ==> db.tokens[t].count >= 1)
  }

  lemma {:induction false} ChargeAllCounts(db: Db, auth: string, cs: seq<Charge>)
    ensures var after := ChargeAll(db, auth, cs);
            && after.states.Keys == db.states.Keys
            && (forall k :: k in db.states ==>
                  after.states[k].used.count == db.states[k].used.count + (if k.auth == auth then |cs| else 0))
            && Spent(after.tokens, auth).count == Spent(db.tokens, auth).count + |cs|
  {
    if cs != [] {
      ChargeAllCounts(db, auth, cs[..|cs| - 1]);
      ChargeMovesSum(ChargeAll(db, auth, cs[..|cs| - 1]).tokens, auth, cs[|cs| - 1], auth);
    }
  }

  lemma ChargeOneKeepsBooks(db: Db, auth: string, c: Charge)
    requires Books(db) && exists k :: k in db.states && k.auth == auth
    ensures Books(ChargeOne(db, auth, c))
  {
    var after := ChargeOne(db, auth, c);
    forall x | x in after.states ensures after.states[x].used == Spent(after.tokens, x.auth) {
      ChargeMovesSum(db.tokens, auth, c, x.auth);
    }
  }

  /** While all rows of an id agree, charging them together keeps the books. */
  lemma {:induction false} ChargeAllKeepsBooks(db: Db, auth: string, cs: seq<Charge>)
    requires Books(db) && exists k :: k in db.states && k.auth == auth
    ensures Books(ChargeAll(db, auth, cs))
  {
    if cs != [] {
      var front := cs[..|cs| - 1];
      ChargeAllKeepsBooks(db, auth, front);
      ChargeAllCounts(db, auth, front);
      var k :| k in db.states && k.auth == auth;
      assert k in ChargeAll(db, auth, front).states;
      ChargeOneKeepsBooks(ChargeAll(db, auth, front), auth, cs[|cs| - 1]);
    }
  }

  lemma {:induction false} SpentNothingIff(keys: set<TokenKey>, tokens: map<TokenKey, Usage>)
    requires keys <= tokens.Keys && forall t :: t in keys ==> tokens[t].count >= 1
    ensures Sum(keys, tokens).count >= |keys|
    ensures keys == {} ==> Sum(keys, tokens) == UNUSED
    decreases |keys|
  {
    if keys != {} {
      var t :| t in keys;
      SumSplit(keys, tokens, t);
      SpentNothingIff(keys - {t}, tokens);
    }
  }

  /** When users share an authorization id, a commit keeps the books exactly when it opens no new row
      under an id that has already been charged. */
  lemma SharedIdsKeepBooksIff(db: Db, r: Request)
    requires Books(db) && Commit(db, r).Some?
    ensures Books(Commit(db, r).value) <==> r.key in db.states || RowsOf(db.tokens, r.key.auth) == {}
  {
    var begun, auth := Begun(db, r), r.key.auth;
    SpentNothingIff(RowsOf(db.tokens, auth), db.tokens);
    ChargeAllCounts(begun, auth, r.charges);
    if r.key in db.states || RowsOf(db.tokens, auth) == {} {
      ChargeAllKeepsBooks(begun, auth, r.charges);
    } else {
      assert r.key in begun.states && begun.states[r.key].used == UNUSED;
      assert r.key in Commit(db, r).value.states;
    }
  }
}
