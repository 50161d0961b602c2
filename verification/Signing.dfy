/** The signing path over the ledger tables: limit checks, charging, the transaction bundle and
    step 6 and 13 of the 14 checks (state-manager.js:88-126, 187-244, 415-536, 962-975;
    auth-engine.js:149-288; tx-signing.js:220-256, 406-450). */
module Signing {
  import opened Tables
  import opened Revocations

  // ---- limits ----------------------------------------------------------------------------

  /** A limit as the authorization JSON gives it. A missing or zero number is no limit at all, while
      a text such as "0" is a limit like any other. */
  datatype Bound = Unset | Numeric(n: int) | Text(n: int) {
    predicate Enforced() {
      Text? || (Numeric? && n != 0)
    }

    /** `x > limit` in the source language, where comparing with a missing value is false. */
    predicate Below(x: int) {
      !Unset? && x > n
    }

    predicate Refuses(x: int) {
      Enforced() && Below(x)
    }
  }

  datatype TokenLimit = TokenLimit(amount: Bound, count: Bound)

  datatype Limits = Limits(amount: Bound, count: Bound, tokens: map<string, TokenLimit>)

  datatype Charge = Charge(chain: string, token: string, amount: int)

  /** Native and unknown tokens already carry their chain as a prefix. */
  function LimitKey(chain: string, token: string): string {
    if chain + "_" <= token then token else chain + "_" + token
  }

  /** The first row a query by authorization id alone returns; which one is up to the database. */
  ghost function RowOf(states: map<Key, State>, auth: string): Option<State> {
    if exists k :: k in states && k.auth == auth
    then var k :| k in states && k.auth == auth; Some(states[k])
    else None
  }

  /** A row such a query may return: any under the id, none if there is none. */
  ghost predicate RowAmong(states: map<Key, State>, auth: string, row: Option<State>) {
    if row.Some? then exists k :: k in states && k.auth == auth && states[k] == row.value
    else forall k :: k in states ==> k.auth != auth
  }

  function UsedBy(row: Option<State>): Usage {
    if row.Some? then row.value.used else UNUSED
  }

  function TokenUsed(tokens: map<TokenKey, Usage>, t: TokenKey): Usage {
    if t in tokens then tokens[t] else UNUSED
  }

  /** The checks both limit tests share: status, total amount, total count, token amount. */
  predicate WithinShared(row: Option<State>, tokenUsed: Usage, l: Limits, c: Charge) {
    && (row.Some? ==> row.value.status == Active)
    && !l.amount.Refuses(UsedBy(row).amount + c.amount)
    && !l.count.Refuses(UsedBy(row).count + 1)
    && (LimitKey(c.chain, c.token) in l.tokens ==>
          !l.tokens[LimitKey(c.chain, c.token)].amount.Refuses(tokenUsed.amount + c.amount))
  }

  /** Step 13, before the transaction: the token count is compared with the token's own limit. */
  predicate WithinLimits(row: Option<State>, tokenUsed: Usage, l: Limits, c: Charge) {
    && WithinShared(row, tokenUsed, l, c)
    && (LimitKey(c.chain, c.token) in l.tokens ==>
          !l.tokens[LimitKey(c.chain, c.token)].count.Refuses(tokenUsed.count + 1))
  }

  /** Inside the transaction: the token's count limit only switches the test on; the number compared
      with is the total count limit (state-manager.js:486). */
  predicate WithinLimitsInTx(row: Option<State>, tokenUsed: Usage, l: Limits, c: Charge) {
    && WithinShared(row, tokenUsed, l, c)
    && (LimitKey(c.chain, c.token) in l.tokens && l.tokens[LimitKey(c.chain, c.token)].count.Enforced() ==>
          !l.count.Below(tokenUsed.count + 1))
  }

  // ---- charging --------------------------------------------------------------------------

  /** UPDATE ... WHERE authorization_id = ?: the amount read from the first row is written to all. */
  ghost function ChargeStates(states: map<Key, State>, auth: string, amount: int): map<Key, State> {
    ChargeStatesFrom(states, auth, amount, RowOf(states, auth))
  }

  function ChargeStatesFrom(states: map<Key, State>, auth: string, amount: int, row: Option<State>): map<Key, State> {
    var total := UsedBy(row).amount + amount;
    map k | k in states ::
      if k.auth == auth then states[k].(used := Usage(total, states[k].used.count + 1)) else states[k]
  }

  function ChargeTokens(tokens: map<TokenKey, Usage>, auth: string, c: Charge): map<TokenKey, Usage> {
    var t := TokenKey(auth, c.chain, c.token);
    tokens[t := TokenUsed(tokens, t).Plus(Usage(c.amount, 1))]
  }

  ghost function ChargeOne(db: Db, auth: string, c: Charge): Db {
    db.(states := ChargeStates(db.states, auth, c.amount), tokens := ChargeTokens(db.tokens, auth, c))
  }

  ghost function ChargeAll(db: Db, auth: string, cs: seq<Charge>): Db {
    if cs == [] then db else ChargeOne(ChargeAll(db, auth, cs[..|cs| - 1]), auth, cs[|cs| - 1])
  }

  // ---- the signing request ---------------------------------------------------------------

  /** `earlierChecks` and `laterChecks` are the verdicts of the stateless steps 1-5 and 8-12, 14 and
      of signing itself. `charges` has one entry per derived token. */
  datatype Request = Request(
    key: Key,
    guid: string,
    grantee: string,
    deadline: Option<int>,
    hash: string,
    allowUnavailable: bool,
    limits: Option<Limits>,
    charges: seq<Charge>,
    earlierChecks: bool,
    laterChecks: bool)

  function EnsureState(states: map<Key, State>, k: Key, grantee: string): map<Key, State> {
    if k in states then states else states[k := State(grantee, Active, UNUSED)]
  }

  function SaveRecord(records: map<Key, AuthRecord>, k: Key, r: AuthRecord): map<Key, AuthRecord> {
    if k in records then records else records[k := r]
  }

  ghost predicate LimitsPass(db: Db, r: Request) {
    r.limits.Some? && r.charges != [] ==>
      WithinLimitsInTx(RowOf(db.states, r.key.auth),
                       TokenUsed(db.tokens, TokenKey(r.key.auth, r.charges[0].chain, r.charges[0].token)),
                       r.limits.value, r.charges[0])
  }

  /** The transaction bundle; None when it is rolled back. */
  ghost function Commit(db: Db, r: Request): Option<Db> {
    var begun := db.(nonces := db.nonces + {Nonce(r.key.auth, r.guid)},
                      states := EnsureState(db.states, r.key, r.grantee));
    if Nonce(r.key.auth, r.guid) in db.nonces || !LimitsPass(begun, r) then None
    else
      var saved := begun.(records := SaveRecord(db.records, r.key, AuthRecord(r.deadline, r.hash)));
      Some(ChargeAll(saved, r.key.auth, r.charges))
  }

  // ---- step 6: revocation, local first ---------------------------------------------------

  datatype ContractAnswer = Unavailable | NotRevoked | RevokedOnChain(grantee: Option<string>, at: int)

  /** Step 6 swallows the failure of its own writes; the environment says which ones the store
      takes: dropping an expired record, recording or completing one, clearing a cached one, and
      creating the state row. */
  datatype Store = Store(drop: bool, record: bool, clear: bool, create: bool)

  function Attempt(taken: bool, before: Db, after: Db): Db {
    if taken then after else before
  }

  function DropExpired(db: Db, k: Key, now: int, store: Store): Db {
    if k in db.revocations && ExpiredBy(db.revocations[k], now)
    then Attempt(store.drop, db, Delete(db, k, None, false)) else db
  }

  predicate LocallyRevoked(db: Db, k: Key, now: int) {
    k in db.revocations && !ExpiredBy(db.revocations[k], now)
  }

  /** Complete a local hit with the expiry and hash of the authorization just verified. */
  function FillIn(db: Db, r: Request): Db
    requires r.key in db.revocations
  {
    var e := db.revocations[r.key];
    if (e.expiresAt.None? && r.deadline.Some?) || e.hash.None?
    then Record(db, r.key, e.(expiresAt := Coalesce(r.deadline, e.expiresAt), hash := Some(r.hash)))
    else db
  }

  datatype Verdict = Approved | Rejected(step: int)

  function RevocationStep(db: Db, r: Request, now: int, answer: ContractAnswer, store: Store): (Db, Verdict) {
    if LocallyRevoked(db, r.key, now) then
      (Attempt(store.record, db, FillIn(db, r)), Rejected(6))
    else
      var current := DropExpired(db, r.key, now, store);
      match answer
      case RevokedOnChain(grantee, at) =>
        (Attempt(store.record, current, Record(current, r.key, Revocation(grantee, Contract, at, r.deadline, Some(r.hash)))),
         Rejected(6))
      case NotRevoked =>
        var cleared := Attempt(store.clear, current, Delete(current, r.key, Some(Contract), true));
        (Attempt(store.create, cleared, cleared.(states := EnsureState(cleared.states, r.key, r.grantee))), Approved)
      case Unavailable =>
        (current, if r.allowUnavailable then Approved else Rejected(6))
  }

  ghost predicate LimitsAllow(db: Db, r: Request) {
    r.limits.Some? && r.charges != [] ==>
      WithinLimits(RowOf(db.states, r.key.auth),
                   TokenUsed(db.tokens, TokenKey(r.key.auth, r.charges[0].chain, r.charges[0].token)),
                   r.limits.value, r.charges[0])
  }

  /** Steps 7 to 14, which only read. */
  ghost function LaterSteps(db: Db, r: Request, now: int): Verdict {
    if r.deadline.Some? && r.deadline.value < now then Rejected(7)
    else if !r.laterChecks then Rejected(8)
    else if !LimitsAllow(db, r) then Rejected(13)
    else Approved
  }

  /** The 14 checks in order, with the writes step 6 makes on the way. */
  ghost function Verify(db: Db, r: Request, now: int, answer: ContractAnswer, store: Store): (Db, Verdict) {
    if !r.earlierChecks then (db, Rejected(1))
    else
      var (after, verdict) := RevocationStep(db, r, now, answer, store);
      if verdict.Rejected? then (after, verdict) else (after, LaterSteps(after, r, now))
  }

  /** A whole signing request: verified, then committed; true when a signature is handed out. */
  ghost function Sign(db: Db, r: Request, now: int, answer: ContractAnswer, store: Store): (Db, bool) {
    var (verified, verdict) := Verify(db, r, now, answer, store);
    if verdict.Rejected? then (verified, false)
    else match Commit(verified, r)
      case Some(after) => (after, true)
      case None => (verified, false)
  }

  // ---- the remaining table operations ----------------------------------------------------

  /** Rows that are not active go, with everything stored under their authorization ids. */
  function InvalidAuths(db: Db): set<string> {
    set k | k in db.states && db.states[k].status != Active :: k.auth
  }

  function DropAuths(db: Db, auths: set<string>): Db {
    db.(states := map k | k in db.states && k.auth !in auths :: db.states[k],
        tokens := map t | t in db.tokens && t.auth !in auths :: db.tokens[t],
        nonces := (set n | n in db.nonces && n.auth !in auths))
  }

  function CleanInvalidated(db: Db): Db {
    DropAuths(db, InvalidAuths(db))
  }

  /** Deleting a user's last passkey takes the account and its authorization data along; the stored
      authorization texts stay (passkey-manager.js:174-184). */
  function Cascade(db: Db, user: string): Db {
    var auths := set k | k in db.states && k.user == user :: k.auth;
    db.(accounts := db.accounts - {user},
        states := map k | k in db.states && k.user != user :: db.states[k],
        tokens := map t | t in db.tokens && t.auth !in auths :: db.tokens[t],
        nonces := (set n | n in db.nonces && n.auth !in auths),
        revocations := map k | k in db.revocations && k.user != user :: db.revocations[k])
  }

  /** A platform forwards a user's revocation; the authorization text is saved in the same
      transaction when the ledger did not have it (auth-revocation.js:167-182). */
  function Revoke(db: Db, k: Key, grantee: string, supplied: AuthRecord, now: int): Db {
    var text := if k in db.records then db.records[k] else supplied;
    Record(db.(records := SaveRecord(db.records, k, text)), k,
           Revocation(Some(grantee), Platform, now, text.deadline, Some(text.hash)))
  }
}
