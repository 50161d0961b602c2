/** Which registrations go through and what each binds, and which requests pass the freeze gate, said of the
    request and the tables alone. */
module RegistrationLaws {
  import opened Tables
  import opened Accounts

  // ---- reading the tables ----------------------------------------------------------------

  /** A freeze row in force. */
  predicate InForce(db: AccountTables, user: string) {
    user in db.freezes && db.freezes[user].lifted == false
  }

  predicate InWindow(db: AccountTables, user: string, now: int) {
    InForce(db, user) && now < db.freezes[user].until
  }

  predicate Bound(db: AccountTables, user: string, credential: string) {
    PasskeyId(user, credential) in db.passkeys
  }

  ghost predicate HasPasskeys(db: AccountTables, user: string) {
    exists c :: Bound(db, user, c)
  }

  /** The challenge is minted for this user and purpose and has not run out. */
  predicate Live(db: AccountTables, challenge: string, user: string, purpose: Purpose, now: int) {
    && challenge in db.challenges
    && db.challenges[challenge].user == user && db.challenges[challenge].purpose == purpose
    && now < db.challenges[challenge].expiresAt
  }

  /** A freeze lasts the configured seconds, or 72 hours, and its end is cut to a whole second. */
  predicate EndOfFreeze(end: int, now: int, configured: int) {
    var seconds := if configured > 0 then configured else 72 * 60 * 60;
    end % 1000 == 0 && end <= now + seconds * 1000 < end + 1000
  }

  // ---- when each scenario goes through ---------------------------------------------------

  /** The user's first passkey, given by name. */
  ghost predicate FirstGoesThrough(db: AccountTables, r: Registration, now: int) {
    && r.user.Some? && r.verified && !r.recovery
    && !InWindow(db, r.user.value, now) && !HasPasskeys(db, r.user.value)
    && Live(db, r.challenge, r.user.value, ForRegister, now)
  }

  /** A registration that names no user: the challenge does. */
  predicate UnnamedGoesThrough(db: AccountTables, r: Registration, now: int) {
    && r.user.None? && r.verified
    && r.challenge in db.challenges
    && Live(db, r.challenge, db.challenges[r.challenge].user, ForRegister, now)
    && !Bound(db, db.challenges[r.challenge].user, r.credential)
  }

  /** One more passkey, signed for by one already bound. */
  ghost predicate SignedGoesThrough(db: AccountTables, r: Registration, now: int) {
    && r.user.Some? && r.verified && !r.recovery
    && !InWindow(db, r.user.value, now)
    && Live(db, r.challenge, r.user.value, ForRegisterPasskey, now)
    && r.existingSignature == Some(true)
    && (exists c :: r.existingCredential == Some(c) && Bound(db, r.user.value, c))
    && !Bound(db, r.user.value, r.credential)
  }

  /** Inside a freeze: the passkey the freeze names is replaced. */
  predicate ReplacementGoesThrough(db: AccountTables, r: Registration, now: int) {
    && r.user.Some? && r.verified && !r.recovery
    && InWindow(db, r.user.value, now)
    && Live(db, r.challenge, r.user.value, ForRegister, now)
    && Bound(db, r.user.value, db.freezes[r.user.value].credential)
    && (Bound(db, r.user.value, r.credential) ==> r.credential == db.freezes[r.user.value].credential)
  }

  /** An Owner recovery, with the challenge of the scenario it was asked for in. */
  ghost predicate RecoveryGoesThrough(db: AccountTables, r: Registration, now: int) {
    && r.user.Some? && r.verified && r.recovery
    && (if r.existingSignature != None && HasPasskeys(db, r.user.value) && !InWindow(db, r.user.value, now)
        then r.existingCredential != None && Live(db, r.challenge, r.user.value, ForRegisterPasskey, now)
        else Live(db, r.challenge, r.user.value, ForRegister, now))
    && ((exists c :: Bound(db, r.user.value, c) && db.passkeys[PasskeyId(r.user.value, c)] == r.keyHash)
        ==> InForce(db, r.user.value))
  }

  lemma PasskeysAre(db: AccountTables, user: string)
    ensures PasskeysOf(db, user) == {} <==> !HasPasskeys(db, user)
    ensures forall h :: KeyPresent(db, user, h) <==> exists c :: Bound(db, user, c) && db.passkeys[PasskeyId(user, c)] == h
  {
    forall c | Bound(db, user, c) ensures c in PasskeysOf(db, user) {
      assert PasskeyId(user, c).user == user;
    }
    forall c | c in PasskeysOf(db, user) ensures Bound(db, user, c) {
      var p :| p in db.passkeys && p.user == user && p.credential == c;
      assert p == PasskeyId(user, c);
    }
    forall h ensures KeyPresent(db, user, h) <==> exists c :: Bound(db, user, c) && db.passkeys[PasskeyId(user, c)] == h {
      if c :| Bound(db, user, c) && db.passkeys[PasskeyId(user, c)] == h {
        assert PasskeyId(user, c).user == user;
      }
      if p :| p in db.passkeys && p.user == user && db.passkeys[p] == h {
        assert p == PasskeyId(user, p.credential);
      }
    }
  }

  /** Which registrations go through, and as what. Only the first passkey of an account that has wallets
      freezes it. */
  lemma OutcomeIff(db: AccountTables, r: Registration, now: int)
    ensures Register(db, r, now).1 == Added(true) <==> FirstGoesThrough(db, r, now) && r.funded
    ensures Register(db, r, now).1 == Added(false) <==>
      || (FirstGoesThrough(db, r, now) && !r.funded)
      || UnnamedGoesThrough(db, r, now)
      || SignedGoesThrough(db, r, now)
    ensures Register(db, r, now).1 == Replaced <==> ReplacementGoesThrough(db, r, now)
    ensures Register(db, r, now).1 == Recovered <==> RecoveryGoesThrough(db, r, now)
  {
    if r.user.Some? {
      PasskeysAre(db, r.user.value);
      assert Bound(db, r.user.value, r.credential) ==> HasPasskeys(db, r.user.value);
      assert KeyPresent(Consume(db, r.challenge), r.user.value, r.keyHash) <==> KeyPresent(db, r.user.value, r.keyHash);
    }
  }

  // ---- what each leaves ------------------------------------------------------------------

  /** Nobody else's rows change, and only this challenge goes. */
  ghost predicate OnlyThisAccount(db: AccountTables, after: AccountTables, user: string, challenge: string) {
    && after.users == db.users + {user}
    && after.challenges == db.challenges - {challenge}
    && after.freezes - {user} == db.freezes - {user}
    && forall p: PasskeyId :: p.user != user ==>
         (p in after.passkeys <==> p in db.passkeys) && (p in db.passkeys ==> after.passkeys[p] == db.passkeys[p])
  }

  /** A passkey added comes with the key attested, beside those already bound. The first one of an account
      with wallets freezes it, with itself, from now for the freeze time, unless it is frozen already. */
  lemma AddedIsBound(db: AccountTables, r: Registration, now: int)
    requires Register(db, r, now).1.Added?
    ensures var (after, outcome) := Register(db, r, now);
      r.challenge in db.challenges
      && var user := db.challenges[r.challenge].user;
      && OnlyThisAccount(db, after, user, r.challenge)
      && (r.user.Some? ==> r.user == Some(user))
      && after.passkeys == db.passkeys[PasskeyId(user, r.credential) := r.keyHash]
      && (if outcome == Added(true) && !InForce(db, user) then
            && InForce(after, user) && after.freezes[user].credential == r.credential
            && EndOfFreeze(after.freezes[user].until, now, r.freezeSeconds)
          else after.freezes == db.freezes)
  {
  }

  /** A replacement takes the place of the passkey the freeze named, and the freeze starts over with it. */
  lemma ReplacedIsRenamed(db: AccountTables, r: Registration, now: int, c: string)
    requires Register(db, r, now).1 == Replaced
    ensures var after := Register(db, r, now).0;
      r.user.Some? && InForce(db, r.user.value)
      && var user := r.user.value; var previous := db.freezes[user].credential;
      && after.users == db.users
      && OnlyThisAccount(db, after.(users := db.users + {user}), user, r.challenge)
      && (Bound(after, user, c) <==> c == r.credential || (Bound(db, user, c) && c != previous))
      && (Bound(after, user, c) ==>
            after.passkeys[PasskeyId(user, c)] == if c == r.credential then r.keyHash else db.passkeys[PasskeyId(user, c)])
      && InForce(after, user) && after.freezes[user].credential == r.credential
      && EndOfFreeze(after.freezes[user].until, now, r.freezeSeconds)
  {
  }

  /** After a recovery the account has this passkey alone and no freeze row. */
  lemma RecoveredIsAlone(db: AccountTables, r: Registration, now: int, c: string)
    requires Register(db, r, now).1 == Recovered
    ensures var after := Register(db, r, now).0;
      r.user.Some?
      && var user := r.user.value;
      && OnlyThisAccount(db, after, user, r.challenge)
      && (Bound(after, user, c) <==> c == r.credential)
      && after.passkeys[PasskeyId(user, r.credential)] == r.keyHash
      && user !in after.freezes
  {
  }

  /** A register challenge asked for is spent before the attestation is looked at; the other kind only by
      a key that turns out to be bound already. */
  ghost predicate SpentInVain(db: AccountTables, r: Registration, now: int) {
    match r.user
    case None => r.challenge in db.challenges && Live(db, r.challenge, db.challenges[r.challenge].user, ForRegister, now)
    case Some(user) =>
      if InWindow(db, user, now) || !HasPasskeys(db, user) || r.existingSignature == None then
        Live(db, r.challenge, user, ForRegister, now)
      else
        && Live(db, r.challenge, user, ForRegisterPasskey, now)
        && r.verified && !r.recovery && r.existingSignature == Some(true)
        && (exists c :: r.existingCredential == Some(c) && Bound(db, user, c))
        && Bound(db, user, r.credential)
  }

  /** A registration that is refused binds nothing and freezes nothing; at most its challenge is spent. */
  lemma RefusedBindsNothing(db: AccountTables, r: Registration, now: int)
    requires Register(db, r, now).1 == Refused
    ensures Register(db, r, now).0
         == db.(challenges := if SpentInVain(db, r, now) then db.challenges - {r.challenge} else db.challenges)
  {
    if r.user.Some? {
      PasskeysAre(db, r.user.value);
    }
  }

  // ---- the freeze gate -------------------------------------------------------------------

  /** The freeze of an account lets a request through after its window, signed by the passkey it names. */
  predicate Unlocks(f: Freeze, c: Call, now: int) {
    f.until <= now && c.signed && c.credential == Some(f.credential)
  }

  /** A request for a register challenge, and one registering another passkey inside the window, skip the gate. */
  predicate Exempt(db: AccountTables, c: Call, now: int) {
    || c.challengeForRegister
    || (match (c.attested, c.user)
        case (Some(id), Some(user)) => InWindow(db, user, now) && id != db.freezes[user].credential
        case _ => false)
  }

  /** A request is served exactly when its handler takes it and it is exempt, names no user, or its account
      is not frozen or is unlocked by it. Served by unlocking, it lifts the freeze and changes no other. */
  lemma ServedIff(db: AccountTables, c: Call, now: int)
    ensures var (after, served) := Serve(db, c, now);
      && (served <==>
            && c.handled
            && (Exempt(db, c, now)
                || match c.user
                   case None => true
                   case Some(user) => InForce(db, user) ==> Unlocks(db.freezes[user], c, now)))
      && (!served ==> after == db)
      && after.challenges == db.challenges
      && after.freezes ==
           if served && !Exempt(db, c, now) && c.user.Some? && InForce(db, c.user.value)
           then db.freezes[c.user.value := db.freezes[c.user.value].(lifted := true)] else db.freezes
  {
  }

  /** A served request deletes the passkeys it names of its own account, and the account with the last one. */
  lemma ServedDeletes(db: AccountTables, c: Call, now: int, user: string, credential: string)
    requires Serve(db, c, now).1
    ensures var after := Serve(db, c, now).0;
      var deleting := c.user == Some(user) && c.action.DeletePasskeys?;
      && (Bound(after, user, credential) <==>
            Bound(db, user, credential) && !(deleting && credential in c.action.credentials))
      && (Bound(after, user, credential) ==>
            after.passkeys[PasskeyId(user, credential)] == db.passkeys[PasskeyId(user, credential)])
      && (user in after.users <==> user in db.users && (deleting ==> HasPasskeys(after, user)))
  {
    var after := Serve(db, c, now).0;
    if p :| p in after.passkeys && p.user == user {
      assert Bound(after, user, p.credential);
    }
    if HasPasskeys(after, user) {
      var x :| Bound(after, user, x);
      assert PasskeyId(user, x).user == user;
    }
  }
}
