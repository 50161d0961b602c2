/** What a signing request and a forwarded revocation do, said of their inputs and the tables alone: when
    a signature is handed out, what a commit writes, and what is stored of a revocation. */
module LedgerLaws {
  import opened Tables
  import opened Revocations
  import opened Signing
  import opened LedgerRuns

  // ---- reading the tables ----------------------------------------------------------------

  /** A record without an expiry, or with one still ahead. */
  predicate Stands(db: Db, k: Key, now: int) {
    k in db.revocations && match db.revocations[k].expiresAt case None => true case Some(t) => now < t
  }

  /** A missing limit and the number zero allow everything; any other limit is the most there may be. */
  predicate Keeps(limit: Bound, total: int) {
    match limit
    case Unset => true
    case Numeric(n) => n == 0 || total <= n
    case Text(n) => total <= n
  }

  predicate IsSet(limit: Bound) {
    match limit
    case Unset => false
    case Numeric(n) => n != 0
    case Text(_) => true
  }

  /** A comparison that a missing limit passes and the number zero does not. */
  predicate AtMost(limit: Bound, total: int) {
    match limit
    case Unset => true
    case Numeric(n) => total <= n
    case Text(n) => total <= n
  }

  /** No other user has a row under this authorization id. */
  ghost predicate OwnRowOnly(states: map<Key, State>, k: Key) {
    forall x :: x in states && x.auth == k.auth ==> x == k
  }

  /** Cumulative limits were signed and some token is charged; only the first one is tested. */
  predicate Limited(r: Request) {
    r.limits.Some? && r.charges != []
  }

  /** The token's limit goes by its chain and address, unless the address names the chain already. */
  predicate HasLimit(l: Limits, c: Charge, limit: TokenLimit) {
    exists name :: name in l.tokens && l.tokens[name] == limit
      && name == if c.chain + "_" <= c.token then c.token else c.chain + "_" + c.token
  }

  /** The totals with the first charge stay within the limits on them, and so does its token's amount. */
  ghost predicate TotalsFit(used: Usage, spent: Usage, l: Limits, c: Charge) {
    && Keeps(l.amount, used.amount + c.amount)
    && Keeps(l.count, used.count + 1)
    && forall limit :: HasLimit(l, c, limit) ==> Keeps(limit.amount, spent.amount + c.amount)
  }

  ghost predicate TokenCountFits(spent: Usage, l: Limits, c: Charge) {
    forall limit :: HasLimit(l, c, limit) ==> Keeps(limit.count, spent.count + 1)
  }

  /** Inside the transaction a token with a count limit has its count compared with the total count limit. */
  ghost predicate TokenCountFitsInTx(spent: Usage, l: Limits, c: Charge) {
    forall limit :: HasLimit(l, c, limit) && IsSet(limit.count) ==> AtMost(l.count, spent.count + 1)
  }

  function UsedBefore(db: Db, k: Key): Usage {
    if k in db.states then db.states[k].used else Usage(0, 0)
  }

  function SpentBefore(db: Db, t: TokenKey): Usage {
    if t in db.tokens then db.tokens[t] else Usage(0, 0)
  }

  function FirstToken(r: Request): TokenKey
    requires r.charges != []
  {
    TokenKey(r.key.auth, r.charges[0].chain, r.charges[0].token)
  }

  predicate NotLate(r: Request, now: int) {
    match r.deadline case None => true case Some(end) => now <= end
  }

  // ---- when a signature is handed out ----------------------------------------------------

  /** A revoked row becomes active at step 6: its record is the contract's, expired but not dropped, and
      cleared since the contract no longer has it. */
  predicate Reopened(db: Db, r: Request, answer: ContractAnswer, store: Store) {
    && r.key in db.states && db.states[r.key].status == Revoked
    && r.key in db.revocations && db.revocations[r.key].source == Contract
    && answer == NotRevoked && store.clear && !store.drop
  }

  /** At step 13 the row is active or there is none. */
  predicate RowOpens(db: Db, r: Request, answer: ContractAnswer, store: Store) {
    r.key in db.states ==> db.states[r.key].status == Active || Reopened(db, r, answer, store)
  }

  ghost predicate SigningAllowed(db: Db, r: Request, now: int, answer: ContractAnswer, store: Store) {
    && r.earlierChecks && r.laterChecks && NotLate(r, now)
    && !Stands(db, r.key, now)
    && (answer == NotRevoked || (answer == Unavailable && r.allowUnavailable))
    && Nonce(r.key.auth, r.guid) !in db.nonces
    && (Limited(r) ==>
          var used, spent := UsedBefore(db, r.key), SpentBefore(db, FirstToken(r));
          var l, c := r.limits.value, r.charges[0];
          && RowOpens(db, r, answer, store)
          && TotalsFit(used, spent, l, c) && TokenCountFits(spent, l, c) && TokenCountFitsInTx(spent, l, c))
  }

  lemma OwnRow(states: map<Key, State>, k: Key)
    requires OwnRowOnly(states, k)
    ensures RowOf(states, k.auth) == Lookup(states, k)
  {
    if x :| x in states && x.auth == k.auth {
      assert x == k;
    }
  }

  /** The limit tests of the two moments, on the row and the token row of the request. */
  lemma LimitTests(row: Option<State>, spent: Usage, l: Limits, c: Charge)
    ensures var used := if row.Some? then row.value.used else Usage(0, 0);
      var active := row.Some? ==> row.value.status == Active;
      && (WithinLimits(row, spent, l, c) <==> active && TotalsFit(used, spent, l, c) && TokenCountFits(spent, l, c))
      && (WithinLimitsInTx(row, spent, l, c) <==>
            active && TotalsFit(used, spent, l, c) && TokenCountFitsInTx(spent, l, c))
  {
    var name := LimitKey(c.chain, c.token);
    if name in l.tokens {
      assert HasLimit(l, c, l.tokens[name]);
    }
  }

  /** The transaction goes through exactly when the guid is new and, under limits, the row is active or new
      and the first charge fits. */
  lemma CommitIff(db: Db, r: Request)
    requires Limited(r) ==> OwnRowOnly(db.states, r.key)
    ensures Commit(db, r).Some? <==>
      && Nonce(r.key.auth, r.guid) !in db.nonces
      && (Limited(r) ==>
            var used, spent := UsedBefore(db, r.key), SpentBefore(db, FirstToken(r));
            && (r.key in db.states ==> db.states[r.key].status == Active)
            && TotalsFit(used, spent, r.limits.value, r.charges[0])
            && TokenCountFitsInTx(spent, r.limits.value, r.charges[0]))
  {
    hide TotalsFit, TokenCountFitsInTx, WithinLimitsInTx;
    if Limited(r) {
      var states := EnsureState(db.states, r.key, r.grantee);
      OwnRow(states, r.key);
      LimitTests(Lookup(states, r.key), SpentBefore(db, FirstToken(r)), r.limits.value, r.charges[0]);
    }
  }

  lemma LaterStepsIff(db: Db, r: Request, now: int)
    requires Limited(r) ==> OwnRowOnly(db.states, r.key)
    ensures LaterSteps(db, r, now) == Approved <==>
      && r.laterChecks && NotLate(r, now)
      && (Limited(r) ==>
            var used, spent := UsedBefore(db, r.key), SpentBefore(db, FirstToken(r));
            && (r.key in db.states ==> db.states[r.key].status == Active)
            && TotalsFit(used, spent, r.limits.value, r.charges[0])
            && TokenCountFits(spent, r.limits.value, r.charges[0]))
  {
    hide TotalsFit, TokenCountFits, WithinLimits;
    if Limited(r) {
      OwnRow(db.states, r.key);
      LimitTests(Lookup(db.states, r.key), SpentBefore(db, FirstToken(r)), r.limits.value, r.charges[0]);
    }
  }

  // ---- what the checks write -------------------------------------------------------------

  /** Two states that agree on everything but the record and the row of one authorization. */
  ghost predicate OnlyOneChanges(db: Db, after: Db, k: Key) {
    && (after.accounts, after.tokens, after.nonces, after.records) == (db.accounts, db.tokens, db.nonces, db.records)
    && after.revocations - {k} == db.revocations - {k}
    && after.states - {k} == db.states - {k}
  }

  /** A local record that stands refuses, whatever else is given. A missing hash, or a missing expiry the
      request can give, is filled in from the request when the store takes it, and the row is revoked. */
  lemma StandingRecordIsCompleted(db: Db, r: Request, now: int, answer: ContractAnswer, store: Store)
    requires r.earlierChecks && Stands(db, r.key, now)
    ensures var (after, signed) := Sign(db, r, now, answer, store);
      var e := db.revocations[r.key];
      && !signed && OnlyOneChanges(db, after, r.key)
      && (if store.record && (e.hash == None || (e.expiresAt == None && r.deadline != None))
          then
            && r.key in after.revocations && r.key in after.states
            && after.revocations[r.key]
               == e.(hash := Some(r.hash), expiresAt := if r.deadline != None then r.deadline else e.expiresAt)
            && after.states[r.key] == RevokedRow(db, r.key, e.grantee)
          else after == db)
  {
  }

  /** The row of an authorization after it is revoked: the one there was, or an unused one for the grantee. */
  function RevokedRow(db: Db, k: Key, grantee: Option<string>): State {
    if k in db.states then State(db.states[k].grantee, Revoked, db.states[k].used)
    else State(match grantee case Some(g) => g case None => "*", Revoked, Usage(0, 0))
  }

  /** What is left of an expired record before the contract's answer is stored. */
  function LeftRecord(db: Db, k: Key, store: Store): Option<Revocation> {
    if k in db.revocations && !store.drop then Some(db.revocations[k]) else None
  }

  /** An authorization the contract has revoked is refused. If the store takes the write, it stands recorded
      as the contract's, with the contract's time and the request's deadline and hash, and its row is revoked;
      of an expired record that was not dropped a platform's keeps everything, and the contract's is updated. */
  lemma ChainAnswerIsStored(db: Db, r: Request, now: int, grantee: Option<string>, at: int, store: Store)
    requires r.earlierChecks && !Stands(db, r.key, now)
    ensures var (after, signed) := Sign(db, r, now, RevokedOnChain(grantee, at), store);
      && !signed && OnlyOneChanges(db, after, r.key)
      && (store.record ==>
            && r.key in after.revocations && r.key in after.states
            && after.states[r.key] == RevokedRow(db, r.key, grantee)
            && after.revocations[r.key] == match LeftRecord(db, r.key, store)
               case None => Revocation(grantee, Contract, at, r.deadline, Some(r.hash))
               case Some(e) =>
                 if e.source == Platform then e.(hash := if e.hash == None then Some(r.hash) else e.hash)
                 else Revocation(if grantee == None then e.grantee else grantee, Contract,
                                 if at <= e.revokedAt then at else e.revokedAt,
                                 if r.deadline == None then e.expiresAt else r.deadline, Some(r.hash)))
      && (!store.record ==>
            && after.states == db.states
            && after.revocations == if store.drop then db.revocations - {r.key} else db.revocations)
  {
    hide DropExpired, LaterSteps, Commit;
    DroppingWrites(db, r.key, now, store);
  }

  /** The record, expired, goes: dropped, or cleared as one of the contract's that it no longer has. */
  predicate RecordGoes(db: Db, k: Key, answer: ContractAnswer, store: Store) {
    && k in db.revocations
    && (store.drop || (db.revocations[k].source == Contract && answer == NotRevoked && store.clear))
  }

  /** The row of a request whose checks got past step 6, if there is one then. */
  function RowAfterChecks(db: Db, r: Request, answer: ContractAnswer, store: Store): State {
    if r.key !in db.states then State(r.grantee, Active, Usage(0, 0))
    else if Reopened(db, r, answer, store) then State(db.states[r.key].grantee, Active, db.states[r.key].used)
    else db.states[r.key]
  }

  /** The tables after checks that neither a local record nor a revocation on chain ends: an expired record
      is dropped or cleared, clearing gives its row back, and a request without a row gets one. */
  ghost predicate ChecksWrote(db: Db, after: Db, r: Request, answer: ContractAnswer, store: Store) {
    && OnlyOneChanges(db, after, r.key)
    && after.revocations == (if RecordGoes(db, r.key, answer, store) then db.revocations - {r.key} else db.revocations)
    && (r.key in after.states <==> r.key in db.states || (answer == NotRevoked && store.create))
    && (r.key in after.states ==> after.states[r.key] == RowAfterChecks(db, r, answer, store))
  }

  lemma DroppingWrites(db: Db, k: Key, now: int, store: Store)
    requires !Stands(db, k, now)
    ensures DropExpired(db, k, now, store) == db.(revocations := if store.drop then db.revocations - {k} else db.revocations)
  {
  }

  /** A record is deleted when it is there and of the source asked for; its row, if revoked, may be given back. */
  lemma DeletingWrites(db: Db, k: Key, expected: Option<Source>, restore: bool)
    ensures Delete(db, k, expected, restore) ==
      if k !in db.revocations || (expected != None && Some(db.revocations[k].source) != expected) then db
      else db.(revocations := db.revocations - {k},
               states := if restore && k in db.states && db.states[k].status == Revoked
                         then db.states[k := db.states[k].(status := Active)] else db.states)
  {
  }

  lemma NotRevokedWrites(db: Db, r: Request, now: int, store: Store)
    requires !Stands(db, r.key, now)
    ensures ChecksWrote(db, RevocationStep(db, r, now, NotRevoked, store).0, r, NotRevoked, store)
    ensures RevocationStep(db, r, now, NotRevoked, store).1 == Approved
  {
    hide DropExpired, Delete;
    DroppingWrites(db, r.key, now, store);
    DeletingWrites(DropExpired(db, r.key, now, store), r.key, Some(Contract), true);
  }

  lemma UnavailableWrites(db: Db, r: Request, now: int, store: Store)
    requires !Stands(db, r.key, now)
    ensures ChecksWrote(db, RevocationStep(db, r, now, Unavailable, store).0, r, Unavailable, store)
    ensures RevocationStep(db, r, now, Unavailable, store).1 == Approved <==> r.allowUnavailable
  {
  }

  lemma ChecksWrite(db: Db, r: Request, now: int, answer: ContractAnswer, store: Store)
    requires r.earlierChecks && !Stands(db, r.key, now) && !answer.RevokedOnChain?
    ensures ChecksWrote(db, Verify(db, r, now, answer, store).0, r, answer, store)
    ensures Verify(db, r, now, answer, store).1 == Approved <==>
      && (answer == NotRevoked || r.allowUnavailable)
      && LaterSteps(Verify(db, r, now, answer, store).0, r, now) == Approved
  {
    hide LaterSteps, RevocationStep, ChecksWrote;
    if answer == NotRevoked {
      NotRevokedWrites(db, r, now, store);
    } else {
      UnavailableWrites(db, r, now, store);
    }
  }

  /** Step 6 approves exactly when no local record stands, and the contract says not revoked or, if that is
      allowed, cannot be asked. */
  lemma RevocationStepIff(db: Db, r: Request, now: int, answer: ContractAnswer, store: Store)
    ensures RevocationStep(db, r, now, answer, store).1 == Approved <==>
      !Stands(db, r.key, now) && (answer == NotRevoked || (answer == Unavailable && r.allowUnavailable))
  {
  }

  lemma ChecksKeepWhatTheyRead(db: Db, after: Db, r: Request, answer: ContractAnswer, store: Store)
    requires ChecksWrote(db, after, r, answer, store)
    ensures OwnRowOnly(db.states, r.key) ==> OwnRowOnly(after.states, r.key)
    ensures after.tokens == db.tokens && after.nonces == db.nonces && UsedBefore(after, r.key) == UsedBefore(db, r.key)
    ensures (r.key in after.states ==> after.states[r.key].status == Active) <==> RowOpens(db, r, answer, store)
  {
    forall x | x in after.states && x != r.key ensures x in db.states {
      assert x in after.states - {r.key};
    }
  }

  /** A request is signed if and only if its stateless checks pass, it is not late, no local record stands
      against it, the contract says it is not revoked or cannot be asked and that is allowed, its guid is new,
      and under cumulative limits its row is active and its first charge fits them. */
  lemma SignedIff(db: Db, r: Request, now: int, answer: ContractAnswer, store: Store)
    requires Limited(r) ==> OwnRowOnly(db.states, r.key)
    ensures Sign(db, r, now, answer, store).1 <==> SigningAllowed(db, r, now, answer, store)
  {
    hide Commit, Verify, TotalsFit, TokenCountFits, TokenCountFitsInTx, OwnRowOnly, ChecksWrote;
    if !r.earlierChecks {
      EarlierChecksEnd(db, r, now, answer, store);
    } else if Stands(db, r.key, now) {
      StandingRecordIsCompleted(db, r, now, answer, store);
    } else if answer.RevokedOnChain? {
      ChainAnswerIsStored(db, r, now, answer.grantee, answer.at, store);
    } else {
      var checked := Verify(db, r, now, answer, store).0;
      ChecksWrite(db, r, now, answer, store);
      ChecksKeepWhatTheyRead(db, checked, r, answer, store);
      LaterStepsIff(checked, r, now);
      CommitIff(checked, r);
    }
  }

  lemma EarlierChecksEnd(db: Db, r: Request, now: int, answer: ContractAnswer, store: Store)
    requires !r.earlierChecks
    ensures Sign(db, r, now, answer, store) == (db, false)
  {
  }

  // ---- what a commit writes --------------------------------------------------------------

  function Total(cs: seq<Charge>): int {
    if cs == [] then 0 else Total(cs[..|cs| - 1]) + cs[|cs| - 1].amount
  }

  /** The charges of one token. */
  function ForToken(cs: seq<Charge>, t: TokenKey): seq<Charge> {
    if cs == [] then []
    else
      var front, last := ForToken(cs[..|cs| - 1], t), cs[|cs| - 1];
      if last.chain == t.chain && last.token == t.token then front + [last] else front
  }

  lemma TotalOfOneMore(cs: seq<Charge>, c: Charge)
    ensures Total(cs + [c]) == Total(cs) + c.amount
  {
    assert (cs + [c])[..|cs|] == cs;
  }

  /** One charge: its row and its token row move by the amount and by one. */
  lemma OneChargeAdds(db: Db, k: Key, c: Charge)
    requires OwnRowOnly(db.states, k) && k in db.states
    ensures var row, t := db.states[k], TokenKey(k.auth, c.chain, c.token);
      ChargeOne(db, k.auth, c) == db.(
        states := db.states[k := row.(used := Usage(row.used.amount + c.amount, row.used.count + 1))],
        tokens := db.tokens[t := Usage(SpentBefore(db, t).amount + c.amount, SpentBefore(db, t).count + 1)])
  {
    OwnRow(db.states, k);
  }

  lemma {:induction false} ChargesAddToTheRow(db: Db, k: Key, cs: seq<Charge>)
    requires OwnRowOnly(db.states, k) && k in db.states
    ensures var row := db.states[k];
      ChargeAll(db, k.auth, cs) == db.(
        tokens := ChargeAll(db, k.auth, cs).tokens,
        states := db.states[k := row.(used := Usage(row.used.amount + Total(cs), row.used.count + |cs|))])
  {
    hide ChargeOne;
    if cs == [] {
      assert db.states[k := db.states[k]] == db.states;
    } else {
      var front, last := cs[..|cs| - 1], cs[|cs| - 1];
      ChargesAddToTheRow(db, k, front);
      OneChargeAdds(ChargeAll(db, k.auth, front), k, last);
    }
  }

  lemma {:induction false} ChargesAddToTheirTokens(db: Db, k: Key, cs: seq<Charge>, t: TokenKey)
    requires OwnRowOnly(db.states, k) && k in db.states
    ensures var after, own := ChargeAll(db, k.auth, cs), if t.auth == k.auth then ForToken(cs, t) else [];
      && (t in after.tokens <==> t in db.tokens || own != [])
      && SpentBefore(after, t) == Usage(SpentBefore(db, t).amount + Total(own), SpentBefore(db, t).count + |own|)
  {
    hide ChargeOne;
    if cs != [] {
      var front, last := cs[..|cs| - 1], cs[|cs| - 1];
      ChargesAddToTheirTokens(db, k, front, t);
      ChargesAddToTheRow(db, k, front);
      OneChargeAdds(ChargeAll(db, k.auth, front), k, last);
      TotalOfOneMore(ForToken(front, t), last);
    }
  }

  /** A commit adds the guid and, if there was none, the authorization text; its own row, new or not, is
      charged all amounts and once for each charge, and every token its own. Nothing else changes. */
  lemma CommitStores(db: Db, r: Request, t: TokenKey)
    requires OwnRowOnly(db.states, r.key) && Commit(db, r).Some?
    ensures var after, k := Commit(db, r).value, r.key;
      var used, spent := UsedBefore(db, k), SpentBefore(db, t);
      var own := if t.auth == k.auth then ForToken(r.charges, t) else [];
      && (after.accounts, after.revocations) == (db.accounts, db.revocations)
      && after.nonces == db.nonces + {Nonce(k.auth, r.guid)}
      && after.records == (if k in db.records then db.records else db.records[k := AuthRecord(r.deadline, r.hash)])
      && after.states == db.states[k := State(
           if k in db.states then db.states[k].grantee else r.grantee,
           if k in db.states then db.states[k].status else Active,
           Usage(used.amount + Total(r.charges), used.count + |r.charges|))]
      && (t in after.tokens <==> t in db.tokens || own != [])
      && SpentBefore(after, t) == Usage(spent.amount + Total(own), spent.count + |own|)
  {
    hide LimitsPass, ChargeAll;
    var begun := db.(nonces := db.nonces + {Nonce(r.key.auth, r.guid)},
                     states := EnsureState(db.states, r.key, r.grantee),
                     records := SaveRecord(db.records, r.key, AuthRecord(r.deadline, r.hash)));
    ChargesAddToTheRow(begun, r.key, r.charges);
    ChargesAddToTheirTokens(begun, r.key, r.charges, t);
  }

  /** A request that is signed commits on the tables its checks left; one that is not leaves those. */
  lemma SigningCommitsAfterChecks(db: Db, r: Request, now: int, answer: ContractAnswer, store: Store) returns (checked: Db)
    requires r.earlierChecks && !Stands(db, r.key, now) && !answer.RevokedOnChain?
    ensures ChecksWrote(db, checked, r, answer, store)
    ensures var (after, signed) := Sign(db, r, now, answer, store);
      if signed then Commit(checked, r) == Some(after) else after == checked
  {
    hide LaterSteps, RevocationStep, ChecksWrote, Commit;
    checked := Verify(db, r, now, answer, store).0;
    ChecksWrite(db, r, now, answer, store);
  }

  // ---- forwarded revocations -------------------------------------------------------------

  /** The text a forwarded revocation goes by: the stored one, otherwise the one it brings. */
  function TextFor(db: Db, k: Key, supplied: AuthRecord): AuthRecord {
    if k in db.records then db.records[k] else supplied
  }

  /** However the tables stand, a forwarded revocation leaves a platform record with this grantee, the time
      now or an earlier one already stored, and the expiry and hash of the authorization's text, which is
      stored with it if it was not; a text without a deadline leaves a known expiry. The row is revoked. */
  ghost predicate ForwardedStored(db: Db, after: Db, k: Key, grantee: string, supplied: AuthRecord, now: int) {
    var text := TextFor(db, k, supplied);
    && k in after.revocations && k in after.states && k in after.records
    && after.revocations[k].source == Platform
    && after.revocations[k].grantee == Some(grantee)
    && after.revocations[k].revokedAt
       == (if k in db.revocations && db.revocations[k].revokedAt < now then db.revocations[k].revokedAt else now)
    && after.revocations[k].expiresAt
       == (if text.deadline == None && k in db.revocations then db.revocations[k].expiresAt else text.deadline)
    && after.revocations[k].hash == Some(text.hash)
    && after.states[k] == RevokedRow(db, k, Some(grantee))
    && after.records == db.records[k := text]
    && OnlyOneChanges(db, after.(records := db.records), k)
  }

  lemma ForwardedIsStored(db: Db, k: Key, grantee: string, supplied: AuthRecord, now: int)
    ensures ForwardedStored(db, Revoke(db, k, grantee, supplied, now), k, grantee, supplied, now)
  {
    if k in db.records {
      assert db.records[k := db.records[k]] == db.records;
    }
  }

  /** The account goes, or the expiry on the record has passed. */
  predicate EndsRecord(db: Db, s: Step, k: Key) {
    || s.event == AccountDeleted(k.user)
    || (k in db.revocations && match db.revocations[k].expiresAt case Some(t) => t <= s.now case None => false)
  }

  /** So from the moment a platform forwards a revocation, no signing of that authorization is approved
      before the account was deleted or the expiry then stored on the record had passed. */
  lemma ForwardedRevocationIsFinal(dbs: seq<Db>, steps: seq<Step>, k: Key, i: nat, j: nat)
    requires Run(dbs, steps) && i < j < |steps|
    requires steps[i].event.Forwarded? && steps[i].event.k == k
    requires steps[j].event.Signed? && steps[j].event.r.key == k && Accepts(dbs[j], steps[j])
    ensures exists d :: i < d <= j && EndsRecord(dbs[d], steps[d], k)
  {
    hide Run, Accepts, Sign, Sync, Revoke;
    var e := steps[i].event;
    RunStep(dbs, steps, i);
    ForwardedIsStored(dbs[i], k, e.grantee, e.supplied, steps[i].now);
    PlatformRevocationIsFinal(dbs, steps, k, i + 1, j);
    var d :| i + 1 <= d <= j && Excused(dbs[d], steps[d], k);
    assert EndsRecord(dbs[d], steps[d], k);
  }

  lemma RunStep(dbs: seq<Db>, steps: seq<Step>, i: nat)
    requires Run(dbs, steps) && i < |steps|
    ensures |dbs| == |steps| + 1 && dbs[i + 1] == Next(dbs[i], steps[i])
  {
  }
}
