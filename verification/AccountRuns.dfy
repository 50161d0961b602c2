/** Runs of registrations, gated requests and challenges over the account tables: what a freeze row
    always names, what Owner recovery leaves, and the only two ways a freeze ends. */
module AccountRuns {
  import opened Tables
  import opened Accounts

  datatype Event =
    | Registered(r: Registration)
    | Called(c: Call)
    | Minted(challenge: string, row: Challenge)
    | Purged

  datatype Step = Step(now: int, event: Event)

  const EMPTY_ACCOUNTS := AccountTables({}, map[], map[], map[])

  function Next(db: AccountTables, s: Step): AccountTables {
    match s.event
    case Registered(r) => Register(db, r, s.now).0
    case Called(c) => Serve(db, c, s.now).0
    case Minted(challenge, row) => db.(challenges := db.challenges[challenge := row])
    case Purged => db.(challenges := map c | c in db.challenges && s.now < db.challenges[c].expiresAt :: db.challenges[c])
  }

  function After(db: AccountTables, steps: seq<Step>): AccountTables {
    if steps == [] then db else Next(After(db, steps[..|steps| - 1]), steps[|steps| - 1])
  }

  // ---- the invariant ---------------------------------------------------------------------

  /** A freeze in force names a passkey bound to the account; inside the window it is the only one. */
  ghost predicate FreezeNamesItsPasskey(db: AccountTables, user: string, now: int) {
    Frozen(db, user) ==>
      && PasskeyId(user, db.freezes[user].credential) in db.passkeys
      && (now < db.freezes[user].until ==> PasskeysOf(db, user) == {db.freezes[user].credential})
  }

  ghost predicate Sound(db: AccountTables, now: int) {
    && (forall u :: FreezeNamesItsPasskey(db, u, now))
    && (forall u :: u in db.users <==> PasskeysOf(db, u) != {})
  }

  /** A registration naming no user binds a passkey to the account inside its freeze window, through the live
      register challenge of that account. Challenges minted without a user carry an id nobody has yet, so
      with them this cannot happen. */
  predicate BindsDuringFreeze(db: AccountTables, r: Registration, now: int) {
    && r.user.None? && r.verified
    && FoundChallenge(db, r.challenge, None, ForRegister, now)
    && WithinFreeze(db, db.challenges[r.challenge].user, now)
    && PasskeyId(db.challenges[r.challenge].user, r.credential) !in db.passkeys
  }

  /** Only registration payloads carry an attestation response, and asking for a challenge deletes nothing. */
  predicate Regular(db: AccountTables, s: Step) {
    match s.event
    case Registered(r) => !BindsDuringFreeze(db, r, s.now)
    case Called(c) => c.challengeForRegister || c.attested.Some? ==> c.action.Otherwise?
    case _ => true
  }

  /** The clock does not go back, and every step is regular where it is taken. */
  ghost predicate RegularRun(db: AccountTables, since: int, steps: seq<Step>) {
    && (forall i :: 0 <= i < |steps| ==> since <= steps[i].now)
    && (forall i, j :: 0 <= i < j < |steps| ==> steps[i].now <= steps[j].now)
    && (forall i :: 0 <= i < |steps| ==> Regular(After(db, steps[..i]), steps[i]))
  }

  lemma BoundCredentials(db: AccountTables, user: string, credential: string)
    ensures credential in PasskeysOf(db, user) <==> PasskeyId(user, credential) in db.passkeys
  {
    if PasskeyId(user, credential) in db.passkeys {
      assert PasskeyId(user, credential).user == user;
    }
  }

  /** Only the rows of one account and the challenges change. */
  ghost predicate OthersKept(a: AccountTables, b: AccountTables, user: string) {
    && (forall p: PasskeyId :: p.user != user ==> (p in a.passkeys <==> p in b.passkeys))
    && (forall p: PasskeyId :: p.user != user && p in a.passkeys ==> a.passkeys[p] == b.passkeys[p])
    && (forall u :: u != user ==> (u in a.freezes <==> u in b.freezes) && (u in a.users <==> u in b.users))
    && (forall u :: u != user && u in a.freezes ==> a.freezes[u] == b.freezes[u])
  }

  lemma OthersKeepTheirPasskeys(a: AccountTables, b: AccountTables, user: string, other: string)
    requires OthersKept(a, b, user) && other != user
    ensures PasskeysOf(a, other) == PasskeysOf(b, other)
  {
    forall c ensures c in PasskeysOf(a, other) <==> c in PasskeysOf(b, other) {
      BoundCredentials(a, other, c);
      BoundCredentials(b, other, c);
    }
  }

  lemma SoundByUser(a: AccountTables, b: AccountTables, user: string, now: int)
    requires Sound(a, now) && OthersKept(a, b, user)
    requires FreezeNamesItsPasskey(b, user, now)
    requires user in b.users <==> PasskeysOf(b, user) != {}
    ensures Sound(b, now)
  {
    forall u ensures FreezeNamesItsPasskey(b, u, now) && (u in b.users <==> PasskeysOf(b, u) != {}) {
      if u != user {
        OthersKeepTheirPasskeys(a, b, user, u);
        assert FreezeNamesItsPasskey(a, u, now);
      }
    }
  }

  lemma BindKeepsOthers(db: AccountTables, r: Registration, route: Route, user: string, now: int)
    ensures OthersKept(db, Bind(db, r, route, user, now).0, user)
  {
  }

  lemma KeptByBoth(a: AccountTables, b: AccountTables, c: AccountTables, user: string)
    requires OthersKept(a, b, user) && OthersKept(b, c, user)
    ensures OthersKept(a, c, user)
  {
  }

  lemma RegisterKeepsOthers(db: AccountTables, r: Registration, user: string, now: int)
    requires || r.user == Some(user)
             || (r.user.None? && r.challenge in db.challenges && db.challenges[r.challenge].user == user)
    ensures OthersKept(db, Register(db, r, now).0, user)
  {
    hide Bind, RouteOf, ChallengeHolds;
    var route := RouteOf(db, r, now);
    var held := Consume(db, r.challenge);
    assert OthersKept(db, db, user) && OthersKept(db, held, user);
    if route.Some? {
      BindKeepsOthers(db, r, route.value, user, now);
      BindKeepsOthers(held, r, route.value, user, now);
      KeptByBoth(db, held, Bind(held, r, route.value, user, now).0, user);
    }
  }

  // ---- one step --------------------------------------------------------------------------

  lemma RecoveryLeavesOnePasskey(db: AccountTables, user: string, credential: string, keyHash: string, now: int)
    ensures PasskeysOf(Recover(db, user, credential, keyHash), user) == {credential}
    ensures FreezeNamesItsPasskey(Recover(db, user, credential, keyHash), user, now)
  {
    var next := Recover(db, user, credential, keyHash);
    forall c ensures c in PasskeysOf(next, user) <==> c == credential {
      BoundCredentials(next, user, c);
    }
  }

  lemma InsertAddsOnePasskey(db: AccountTables, user: string, credential: string, keyHash: string)
    ensures PasskeysOf(InsertPasskey(db, user, credential, keyHash), user) == PasskeysOf(db, user) + {credential}
  {
    var next := InsertPasskey(db, user, credential, keyHash);
    forall c ensures c in PasskeysOf(next, user) <==> c in PasskeysOf(db, user) + {credential} {
      BoundCredentials(next, user, c);
      BoundCredentials(db, user, c);
    }
  }

  lemma RenameSwapsOnePasskey(db: AccountTables, user: string, previous: string, credential: string, keyHash: string)
    ensures PasskeysOf(RenamePasskey(db, user, previous, credential, keyHash), user)
         == PasskeysOf(db, user) - {previous} + {credential}
  {
    var next := RenamePasskey(db, user, previous, credential, keyHash);
    forall c ensures c in PasskeysOf(next, user) <==> c in PasskeysOf(db, user) - {previous} + {credential} {
      BoundCredentials(next, user, c);
      BoundCredentials(db, user, c);
    }
  }

  /** Deleting passkeys deletes the account exactly when none is left. */
  lemma DeletionTakesTheAccountWithTheLastPasskey(db: AccountTables, user: string, credentials: set<string>)
    requires user in db.users <==> PasskeysOf(db, user) != {}
    ensures var next := DeleteCredentials(db, user, credentials);
      && PasskeysOf(next, user) == PasskeysOf(db, user) - credentials
      && (user in next.users <==> PasskeysOf(next, user) != {})
      && OthersKept(db, next, user)
  {
    var next := DeleteCredentials(db, user, credentials);
    forall c ensures c in PasskeysOf(next, user) <==> c in PasskeysOf(db, user) - credentials {
      BoundCredentials(next, user, c);
      BoundCredentials(db, user, c);
    }
    if p :| p in next.passkeys && p.user == user {
      assert p.credential in PasskeysOf(next, user);
    }
  }

  function UserOf(db: AccountTables, r: Registration): string {
    if r.user.Some? then r.user.value
    else if r.challenge in db.challenges then db.challenges[r.challenge].user
    else ""
  }

  lemma RegistrationIsSoundForItsUser(db: AccountTables, r: Registration, now: int)
    requires Sound(db, now) && !BindsDuringFreeze(db, r, now)
    requires Register(db, r, now).1 != Refused
    ensures FreezeNamesItsPasskey(Register(db, r, now).0, UserOf(db, r), now)
    ensures UserOf(db, r) in Register(db, r, now).0.users <==> PasskeysOf(Register(db, r, now).0, UserOf(db, r)) != {}
  {
    var user := UserOf(db, r);
    var (next, outcome) := Register(db, r, now);
    var held := Consume(db, r.challenge);
    assert FreezeNamesItsPasskey(db, user, now);
    assert PasskeysOf(held, user) == PasskeysOf(db, user);
    RecoveryLeavesOnePasskey(held, user, r.credential, r.keyHash, now);
    InsertAddsOnePasskey(held, user, r.credential, r.keyHash);
    BoundCredentials(next, user, r.credential);
    if Frozen(db, user) {
      var previous := db.freezes[user].credential;
      RenameSwapsOnePasskey(held, user, previous, r.credential, r.keyHash);
      BoundCredentials(next, user, previous);
      BoundCredentials(held, user, previous);
    }
  }

  lemma RegistrationIsSound(db: AccountTables, r: Registration, now: int)
    requires Sound(db, now) && !BindsDuringFreeze(db, r, now)
    ensures Sound(Register(db, r, now).0, now)
  {
    var (next, outcome) := Register(db, r, now);
    if outcome == Refused {
      assert next.passkeys == db.passkeys && next.freezes == db.freezes && next.users == db.users;
      SameAccountsAreSound(db, next, now);
    } else {
      RegisterKeepsOthers(db, r, UserOf(db, r), now);
      RegistrationIsSoundForItsUser(db, r, now);
      SoundByUser(db, next, UserOf(db, r), now);
    }
  }

  lemma SameAccountsAreSound(a: AccountTables, b: AccountTables, now: int)
    requires Sound(a, now) && a.passkeys == b.passkeys && a.freezes == b.freezes && a.users == b.users
    ensures Sound(b, now)
  {
    forall u ensures FreezeNamesItsPasskey(b, u, now) && (u in b.users <==> PasskeysOf(b, u) != {}) {
      assert FreezeNamesItsPasskey(a, u, now);
      assert PasskeysOf(a, u) == PasskeysOf(b, u);
    }
  }

  lemma ServingIsSound(db: AccountTables, c: Call, now: int)
    requires Sound(db, now)
    requires c.challengeForRegister || c.attested.Some? ==> c.action.Otherwise?
    ensures Sound(Serve(db, c, now).0, now)
  {
    var gate := GateOf(db, c, now);
    if c.user.Some? && !gate.blocked && c.handled {
      var user := c.user.value;
      var done := Perform(db, c);
      var next := Serve(db, c, now).0;
      if c.action.DeletePasskeys? {
        DeletionTakesTheAccountWithTheLastPasskey(db, user, c.action.credentials);
        assert !SkipsGate(db, c, now);
      }
      assert PasskeysOf(next, user) == PasskeysOf(done, user);
      assert FreezeNamesItsPasskey(db, user, now);
      SoundByUser(db, next, user, now);
    }
  }

  lemma TimePasses(db: AccountTables, now: int, later: int)
    requires Sound(db, now) && now <= later
    ensures Sound(db, later)
  {
    forall u ensures FreezeNamesItsPasskey(db, u, later) {
      assert FreezeNamesItsPasskey(db, u, now);
    }
  }

  lemma StepIsSound(db: AccountTables, s: Step)
    requires Sound(db, s.now) && Regular(db, s)
    ensures Sound(Next(db, s), s.now)
  {
    match s.event
    case Registered(r) => RegistrationIsSound(db, r, s.now);
    case Called(c) => ServingIsSound(db, c, s.now);
    case Minted(_, _) => SameAccountsAreSound(db, Next(db, s), s.now);
    case Purged => SameAccountsAreSound(db, Next(db, s), s.now);
  }
}
