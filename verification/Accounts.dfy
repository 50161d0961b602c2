/** Passkeys, account freezes and registration challenges as tables, and the decisions taken over
    them: registration in its five outcomes, the freeze gate in front of every other route, and
    lifting. Models passkey-register.js, account-freeze-manager.js, passkey-manager.js,
    challenge-manager.js and the gate of server.js; AccountManagement.dfy has the methods. */
module Accounts {
  import opened Tables

  /** UNIQUE (user_id, credential_id) */
  datatype PasskeyId = PasskeyId(user: string, credential: string)

  datatype Purpose = ForRegister | ForRegisterPasskey | ForOther

  datatype Challenge = Challenge(user: string, purpose: Purpose, expiresAt: int)

  /** The single freeze row of a user; `until` is in milliseconds, a whole number of seconds. */
  datatype Freeze = Freeze(credential: string, until: int, lifted: bool)

  /** A passkey row is kept as the SHA-256 hash of its public key, the only part ever compared. */
  datatype AccountTables = AccountTables(
    users: set<string>,
    passkeys: map<PasskeyId, string>,
    freezes: map<string, Freeze>,
    challenges: map<string, Challenge>)

  // ---- freezes ---------------------------------------------------------------------------

  const DEFAULT_FREEZE_SECONDS := 259200

  /** A configured duration that is not positive falls back to 72 hours. */
  function FreezeSeconds(configured: int): int {
    if configured > 0 then configured else DEFAULT_FREEZE_SECONDS
  }

  /** The end of a freeze is stored as text with whole seconds. */
  function FreezeUntil(now: int, configured: int): int {
    (now + FreezeSeconds(configured) * 1000) / 1000 * 1000
  }

  predicate Frozen(db: AccountTables, user: string) {
    user in db.freezes && !db.freezes[user].lifted
  }

  predicate WithinFreeze(db: AccountTables, user: string, now: int) {
    Frozen(db, user) && now < db.freezes[user].until
  }

  /** An account that is already frozen keeps its row. */
  function FreezeAccount(freezes: map<string, Freeze>, user: string, credential: string, until: int): map<string, Freeze> {
    if user in freezes && !freezes[user].lifted then freezes
    else freezes[user := Freeze(credential, until, false)]
  }

  function ResetFreeze(freezes: map<string, Freeze>, user: string, credential: string, until: int): map<string, Freeze> {
    if user in freezes && !freezes[user].lifted then freezes[user := Freeze(credential, until, false)] else freezes
  }

  function LiftFreeze(freezes: map<string, Freeze>, user: string): map<string, Freeze> {
    if user in freezes && !freezes[user].lifted then freezes[user := freezes[user].(lifted := true)] else freezes
  }

  // ---- the gate --------------------------------------------------------------------------

  datatype Gate = Gate(blocked: bool, canLift: bool)

  function CheckRequest(db: AccountTables, user: string, credential: Option<string>, signed: bool, now: int): Gate {
    if !Frozen(db, user) then Gate(false, false)
    else if WithinFreeze(db, user, now) then Gate(true, false)
    else if !signed then Gate(true, false)
    else if credential != Some(db.freezes[user].credential) then Gate(true, false)
    else Gate(false, true)
  }

  datatype Action = DeletePasskeys(credentials: set<string>) | Otherwise

  /** A request to a gated route. `user` and `credential` are what the gate extracts from the payload;
      `attested` is the id of an attestation response in it, which only registrations carry;
      `handled` says whether the handler's own checks pass, so that it does not throw. */
  datatype Call = Call(
    user: Option<string>,
    credential: Option<string>,
    signed: bool,
    challengeForRegister: bool,
    attested: Option<string>,
    action: Action,
    handled: bool)

  predicate SkipsGate(db: AccountTables, c: Call, now: int) {
    || c.challengeForRegister
    || (&& c.attested.Some? && c.user.Some?
        && WithinFreeze(db, c.user.value, now)
        && c.attested.value != db.freezes[c.user.value].credential)
  }

  function GateOf(db: AccountTables, c: Call, now: int): Gate {
    if SkipsGate(db, c, now) || c.user.None? then Gate(false, false)
    else CheckRequest(db, c.user.value, c.credential, c.signed, now)
  }

  function PasskeysOf(db: AccountTables, user: string): set<string> {
    set p | p in db.passkeys && p.user == user :: p.credential
  }

  /** Deleting the last passkey deletes the account; the freeze row is not part of that. */
  function DeleteCredentials(db: AccountTables, user: string, credentials: set<string>): AccountTables {
    var left := map p | p in db.passkeys && !(p.user == user && p.credential in credentials) :: db.passkeys[p];
    db.(passkeys := left,
        users := if exists p :: p in left && p.user == user then db.users else db.users - {user})
  }

  function Perform(db: AccountTables, c: Call): AccountTables {
    if c.action.DeletePasskeys? && c.user.Some? then DeleteCredentials(db, c.user.value, c.action.credentials) else db
  }

  /** Gate, handler, and the lift that follows a successful request. */
  function Serve(db: AccountTables, c: Call, now: int): (AccountTables, bool) {
    var gate := GateOf(db, c, now);
    if gate.blocked || !c.handled then (db, false)
    else
      var done := Perform(db, c);
      (if gate.canLift then done.(freezes := LiftFreeze(done.freezes, c.user.value)) else done, true)
  }

  // ---- registration ----------------------------------------------------------------------

  /** A registration. `verified` is the verdict on the attestation response, `recovery` whether the
      contract holds an Owner entry for this user and key, `existing` the credential and verdict of a
      signature by a passkey already bound, `funded` whether the account has wallets. */
  datatype Registration = Registration(
    user: Option<string>,
    challenge: string,
    credential: string,
    keyHash: string,
    verified: bool,
    recovery: bool,
    existingCredential: Option<string>,
    existingSignature: Option<bool>,
    funded: bool,
    freezeSeconds: int)

  datatype Route =
    | NewUser                          // no user given: the challenge names one
    | FirstPasskey                     // an account without passkeys
    | PotentialRecovery                // has passkeys, but no signature by one of them
    | FrozenReplacement(previous: string) // inside a freeze, with a register challenge
    | AddPasskey                       // signed by an existing passkey

  datatype Outcome = Refused | Recovered | Replaced | Added(froze: bool)

  predicate FoundChallenge(db: AccountTables, challenge: string, user: Option<string>, purpose: Purpose, now: int) {
    && challenge in db.challenges
    && now < db.challenges[challenge].expiresAt
    && (user.Some? ==> db.challenges[challenge].user == user.value)
    && db.challenges[challenge].purpose == purpose
  }

  function Consume(db: AccountTables, challenge: string): AccountTables {
    db.(challenges := db.challenges - {challenge})
  }

  /** Step 4: which of the scenarios this is, or None when the request is refused outright. */
  function RouteOf(db: AccountTables, r: Registration, now: int): Option<Route> {
    if r.user.None? then Some(NewUser)
    else if WithinFreeze(db, r.user.value, now) then
      if FoundChallenge(db, r.challenge, r.user, ForRegister, now)
      then Some(FrozenReplacement(db.freezes[r.user.value].credential)) else None
    else if PasskeysOf(db, r.user.value) == {} then Some(FirstPasskey)
    else if r.existingSignature.None? then Some(PotentialRecovery)
    else Some(AddPasskey)
  }

  /** The challenge the route asks for. */
  predicate ChallengeHolds(db: AccountTables, r: Registration, route: Route, now: int) {
    if route.AddPasskey?
    then r.existingCredential.Some? && FoundChallenge(db, r.challenge, r.user, ForRegisterPasskey, now)
    else FoundChallenge(db, r.challenge, r.user, ForRegister, now)
  }

  predicate KeyPresent(db: AccountTables, user: string, keyHash: string) {
    exists p :: p in db.passkeys && p.user == user && db.passkeys[p] == keyHash
  }

  /** The signature over the new key is by a passkey of this account. */
  predicate SignedByBound(db: AccountTables, r: Registration, user: string) {
    && r.existingCredential.Some?
    && PasskeyId(user, r.existingCredential.value) in db.passkeys
    && r.existingSignature == Some(true)
  }

  function InsertPasskey(db: AccountTables, user: string, credential: string, keyHash: string): AccountTables {
    db.(users := db.users + {user}, passkeys := db.passkeys[PasskeyId(user, credential) := keyHash])
  }

  /** UPDATE passkeys ... WHERE user_id = ? AND credential_id = old: in place, one row. */
  function RenamePasskey(db: AccountTables, user: string, previous: string, credential: string, keyHash: string)
    : AccountTables
  {
    db.(passkeys := (map p | p in db.passkeys && p != PasskeyId(user, previous) :: db.passkeys[p])
                    [PasskeyId(user, credential) := keyHash])
  }

  /** Owner recovery: whatever was there, one passkey remains and the freeze row goes. */
  function Recover(db: AccountTables, user: string, credential: string, keyHash: string): AccountTables {
    db.(users := db.users + {user},
        passkeys := (map p | p in db.passkeys && p.user != user :: db.passkeys[p])[PasskeyId(user, credential) := keyHash],
        freezes := map u | u in db.freezes && u != user :: db.freezes[u])
  }

  /** Steps 6.5 to 9 for an attested key, once route and challenge are settled. */
  function Bind(db: AccountTables, r: Registration, route: Route, user: string, now: int): (AccountTables, Outcome) {
    if r.user.Some? && r.recovery then
      if KeyPresent(db, user, r.keyHash) && !Frozen(db, user) then (db, Refused)
      else (Recover(Consume(db, r.challenge), user, r.credential, r.keyHash), Recovered)
    else match route
      case PotentialRecovery => (db, Refused)
      case AddPasskey =>
        if !SignedByBound(db, r, user) then (db, Refused)
        else if PasskeyId(user, r.credential) in db.passkeys then (Consume(db, r.challenge), Refused)
        else (InsertPasskey(Consume(db, r.challenge), user, r.credential, r.keyHash), Added(false))
      case FrozenReplacement(previous) =>
        if PasskeyId(user, previous) !in db.passkeys then (db, Refused)
        else if r.credential != previous && PasskeyId(user, r.credential) in db.passkeys then (db, Refused)
        else
          var replaced := RenamePasskey(db, user, previous, r.credential, r.keyHash);
          (replaced.(freezes := ResetFreeze(db.freezes, user, r.credential, FreezeUntil(now, r.freezeSeconds))), Replaced)
      case _ =>
        if PasskeyId(user, r.credential) in db.passkeys then (db, Refused)
        else
          var inserted := InsertPasskey(db, user, r.credential, r.keyHash);
          if route.FirstPasskey? && r.funded
          then
            var freezes := FreezeAccount(db.freezes, user, r.credential, FreezeUntil(now, r.freezeSeconds));
            (inserted.(freezes := freezes), Added(true))
          else (inserted, Added(false))
  }

  /** A whole registration. A register challenge is consumed before the attestation is verified. */
  function Register(db: AccountTables, r: Registration, now: int): (AccountTables, Outcome) {
    var route := RouteOf(db, r, now);
    if route.None? || !ChallengeHolds(db, r, route.value, now) then (db, Refused)
    else
      var held := if route.value.AddPasskey? then db else Consume(db, r.challenge);
      if !r.verified then (held, Refused)
      else
        var user := if r.user.Some? then r.user.value else db.challenges[r.challenge].user;
        Bind(held, r, route.value, user, now)
  }
}
