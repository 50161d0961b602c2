/** The objects that own the account tables and change them in place: passkeys, freezes, challenges,
    the registration handler and the freeze gate. Every method is tied to the functions of
    Accounts.dfy. The freeze duration is looked up at each call, so it is a parameter. */
module AccountManagement {
  import opened Tables
  import opened Accounts
  import RegistrationLaws
  import opened AccountRuns

  class PasskeyManager {
    var users: set<string>
    var passkeys: map<PasskeyId, string>

    constructor ()
      ensures users == {} && passkeys == map[]
    {
      users := {};
      passkeys := map[];
    }

    /** A duplicate credential breaks the UNIQUE constraint and rolls the account row back too. */
    method RegisterPasskey(user: string, credential: string, keyHash: string) returns (ok: bool)
      modifies this
      ensures ok <==> PasskeyId(user, credential) !in old(passkeys)
      ensures users == if ok then old(users) + {user} else old(users)
      ensures passkeys == if ok then old(passkeys)[PasskeyId(user, credential) := keyHash] else old(passkeys)
    {
      ok := PasskeyId(user, credential) !in passkeys;
      if ok {
        users := users + {user};
        passkeys := passkeys[PasskeyId(user, credential) := keyHash];
      }
    }

    method DeletePasskeys(user: string, credentials: set<string>) returns (deletedCount: nat, accountDeleted: bool)
      modifies this
      ensures forall db: AccountTables :: db.users == old(users) && db.passkeys == old(passkeys) ==>
        var next := DeleteCredentials(db, user, credentials);
        && users == next.users && passkeys == next.passkeys
        && deletedCount == |PasskeysOf(db, user) * credentials|
        && (accountDeleted <==> PasskeysOf(next, user) == {})
    {
      ghost var db := AccountTables(users, passkeys, map[], map[]);
      var rows := set p | p in passkeys && p.user == user && p.credential in credentials;
      CountCredentials(rows, user, PasskeysOf(db, user) * credentials);
      deletedCount := |rows|;
      passkeys := map p | p in passkeys && p !in rows :: passkeys[p];
      assert passkeys == DeleteCredentials(db, user, credentials).passkeys;
      var remaining := set p | p in passkeys && p.user == user;
      accountDeleted := |remaining| == 0;
      RemainingCredentials(DeleteCredentials(db, user, credentials), user, remaining);
      if accountDeleted {
        users := users - {user};
      }
    }

    /** The key an Owner entry names as old is looked for, only to be reported. */
    method RecoveryReplace(user: string, oldKeyHash: Option<string>, credential: string, keyHash: string)
      returns (matched: Option<string>, deletedCount: nat)
      modifies this
      ensures users == old(users) + {user}
      ensures passkeys ==
        (map p | p in old(passkeys) && p.user != user :: old(passkeys)[p])[PasskeyId(user, credential) := keyHash]
      ensures matched.Some? <==>
          (oldKeyHash.Some? && exists p :: p in old(passkeys) && p.user == user && old(passkeys)[p] == oldKeyHash.value)
      ensures matched.Some? ==>
          PasskeyId(user, matched.value) in old(passkeys) && Some(old(passkeys)[PasskeyId(user, matched.value)]) == oldKeyHash
      ensures deletedCount == |set p | p in old(passkeys) && p.user == user|
    {
      matched := None;
      var existing := set p | p in passkeys && p.user == user;
      deletedCount := |existing|;
      if oldKeyHash.Some? {
        var rows := existing;
        while rows != {} && matched.None?
          invariant rows <= existing
          invariant matched.None? ==> forall p :: p in existing - rows ==> passkeys[p] != oldKeyHash.value
          invariant matched.Some? ==>
              PasskeyId(user, matched.value) in passkeys && passkeys[PasskeyId(user, matched.value)] == oldKeyHash.value
          decreases |rows|
        {
          var row :| row in rows;
          rows := rows - {row};
          if passkeys[row] == oldKeyHash.value {
            assert row == PasskeyId(user, row.credential);
            matched := Some(row.credential);
          }
        }
      }
      users := users + {user};
      passkeys := map p | p in passkeys && p.user != user :: passkeys[p];
      passkeys := passkeys[PasskeyId(user, credential) := keyHash];
    }

    /** UPDATE in place. It fails when there is no such row, or when another row has the new credential. */
    method ReplacePasskey(user: string, previous: string, credential: string, keyHash: string) returns (replaced: bool)
      modifies `passkeys
      ensures replaced <==>
        && PasskeyId(user, previous) in old(passkeys)
        && (credential == previous || PasskeyId(user, credential) !in old(passkeys))
      ensures !replaced ==> passkeys == old(passkeys)
      ensures replaced ==> forall db: AccountTables :: db.passkeys == old(passkeys) ==>
        passkeys == RenamePasskey(db, user, previous, credential, keyHash).passkeys
    {
      replaced := false;
      if PasskeyId(user, previous) in passkeys && (credential == previous || PasskeyId(user, credential) !in passkeys) {
        passkeys := passkeys - {PasskeyId(user, previous)};
        passkeys := passkeys[PasskeyId(user, credential) := keyHash];
        replaced := true;
      }
    }
  }

  lemma {:induction false} CountCredentials(rows: set<PasskeyId>, user: string, credentials: set<string>)
    requires forall p :: p in rows ==> p.user == user && p.credential in credentials
    requires forall c :: c in credentials ==> PasskeyId(user, c) in rows
    ensures |rows| == |credentials|
    decreases |rows|
  {
    if rows == {} {
      assert credentials == {};
    } else {
      var p :| p in rows;
      assert p == PasskeyId(user, p.credential);
      CountCredentials(rows - {p}, user, credentials - {p.credential});
    }
  }

  lemma RemainingCredentials(db: AccountTables, user: string, rows: set<PasskeyId>)
    requires rows == set p | p in db.passkeys && p.user == user
    ensures rows == {} <==> PasskeysOf(db, user) == {}
    ensures rows == {} <==> !exists p :: p in db.passkeys && p.user == user
  {
    if p :| p in db.passkeys && p.user == user {
      assert p in rows && p.credential in PasskeysOf(db, user);
    }
    if c :| c in PasskeysOf(db, user) {
      BoundCredentials(db, user, c);
      assert PasskeyId(user, c) in rows;
    }
  }

  class AccountFreezeManager {
    var freezes: map<string, Freeze>

    constructor ()
      ensures freezes == map[]
    {
      freezes := map[];
    }

    method GetFreezeStatus(user: string, now: int)
      returns (frozen: bool, withinFreezePeriod: bool, credential: Option<string>)
      ensures forall db: AccountTables :: db.freezes == freezes ==>
          frozen == Frozen(db, user) && withinFreezePeriod == WithinFreeze(db, user, now)
      ensures frozen ==> user in freezes && credential == Some(freezes[user].credential)
      ensures !frozen ==> credential == None
    {
      if user !in freezes || freezes[user].lifted {
        return false, false, None;
      }
      return true, now < freezes[user].until, Some(freezes[user].credential);
    }

    method FreezeAccount(user: string, credential: string, now: int, configured: int) returns (until: int)
      modifies this
      ensures freezes == Accounts.FreezeAccount(old(freezes), user, credential, FreezeUntil(now, configured))
      ensures user in freezes && !freezes[user].lifted && until == freezes[user].until
      ensures forall other :: other != user ==> (other in freezes <==> other in old(freezes))
    {
      if user in freezes && !freezes[user].lifted {
        return freezes[user].until;
      }
      until := FreezeUntil(now, configured);
      freezes := freezes[user := Freeze(credential, until, false)];
    }

    method ResetFreeze(user: string, credential: string, now: int, configured: int) returns (reset: bool)
      modifies this
      ensures freezes == Accounts.ResetFreeze(old(freezes), user, credential, FreezeUntil(now, configured))
      ensures reset <==> user in old(freezes) && !old(freezes)[user].lifted
      ensures reset ==> freezes[user] == Freeze(credential, FreezeUntil(now, configured), false)
    {
      if user !in freezes || freezes[user].lifted {
        return false;
      }
      freezes := freezes[user := Freeze(credential, FreezeUntil(now, configured), false)];
      return true;
    }

    method ClearFreeze(user: string) returns (cleared: bool)
      modifies this
      ensures freezes == map u | u in old(freezes) && u != user :: old(freezes)[u]
      ensures cleared <==> user in old(freezes)
    {
      cleared := user in freezes;
      freezes := map u | u in freezes && u != user :: freezes[u];
    }

    method LiftFreeze(user: string) returns (lifted: bool)
      modifies this
      ensures freezes == Accounts.LiftFreeze(old(freezes), user)
      ensures lifted <==> user in old(freezes) && !old(freezes)[user].lifted
      ensures user in freezes ==> freezes[user].lifted && freezes.Keys == old(freezes).Keys
    {
      lifted := user in freezes && !freezes[user].lifted;
      if lifted {
        freezes := freezes[user := freezes[user].(lifted := true)];
      }
    }

    method CheckRequest(user: string, credential: Option<string>, signed: bool, now: int) returns (gate: Gate)
      ensures forall db: AccountTables :: db.freezes == freezes ==>
          gate == Accounts.CheckRequest(db, user, credential, signed, now)
    {
      var frozen, within, bound := GetFreezeStatus(user, now);
      ghost var db := AccountTables({}, map[], freezes, map[]);
      assert frozen == Frozen(db, user) && within == WithinFreeze(db, user, now);
      if !frozen {
        return Gate(false, false);
      }
      if within || !signed {
        return Gate(true, false);
      }
      if credential != bound {
        return Gate(true, false);
      }
      return Gate(false, true);
    }
  }

  class ChallengeManager {
    var challenges: map<string, Challenge>

    constructor ()
      ensures challenges == map[]
    {
      challenges := map[];
    }

    method FindChallenge(challenge: string, user: Option<string>, purpose: Purpose, now: int) returns (found: bool)
      ensures forall db: AccountTables :: db.challenges == challenges ==>
          found == FoundChallenge(db, challenge, user, purpose, now)
    {
      if challenge !in challenges || challenges[challenge].expiresAt <= now {
        return false;
      }
      var row := challenges[challenge];
      if user.Some? && row.user != user.value {
        return false;
      }
      return row.purpose == purpose;
    }

    method ConsumeChallenge(challenge: string)
      modifies this
      ensures challenges == old(challenges) - {challenge}
    {
      challenges := challenges - {challenge};
    }

    method VerifyAndConsumeChallenge(challenge: string, user: Option<string>, purpose: Purpose, now: int)
      returns (owner: Option<string>)
      modifies this
      ensures forall db: AccountTables :: db.challenges == old(challenges) ==>
          (owner.Some? <==> FoundChallenge(db, challenge, user, purpose, now))
      ensures owner.Some? ==>
        && challenge in old(challenges) && owner.value == old(challenges)[challenge].user
        && challenges == old(challenges) - {challenge}
      ensures owner.None? ==> challenges == old(challenges)
    {
      var found := FindChallenge(challenge, user, purpose, now);
      assert found == FoundChallenge(AccountTables({}, map[], map[], challenges), challenge, user, purpose, now);
      if !found {
        return None;
      }
      owner := Some(challenges[challenge].user);
      challenges := challenges - {challenge};
    }
  }

  class PasskeyRegisterHandler {
    const passkey: PasskeyManager
    const accountFreeze: AccountFreezeManager
    const challenge: ChallengeManager

    constructor (passkey: PasskeyManager, accountFreeze: AccountFreezeManager, challenge: ChallengeManager)
      ensures this.passkey == passkey && this.accountFreeze == accountFreeze && this.challenge == challenge
    {
      this.passkey, this.accountFreeze, this.challenge := passkey, accountFreeze, challenge;
    }

    ghost function Tables(): AccountTables
      reads passkey, accountFreeze, challenge
    {
      AccountTables(passkey.users, passkey.passkeys, accountFreeze.freezes, challenge.challenges)
    }

    /** Step 4. The flags as the handler sets them, read off the route they stand for. */
    method ChooseScenario(r: Registration, now: int) returns (route: Option<Route>)
      ensures route == RouteOf(Tables(), r, now)
    {
      if r.user.None? {
        return Some(NewUser);
      }
      var hasNoPasskeys := true;
      var isPotentialRecovery := false;
      var frozen, within, bound := accountFreeze.GetFreezeStatus(r.user.value, now);
      assert within == WithinFreeze(Tables(), r.user.value, now);
      if frozen && within {
        var registerChallenge := challenge.FindChallenge(r.challenge, r.user, ForRegister, now);
        assert registerChallenge == FoundChallenge(Tables(), r.challenge, r.user, ForRegister, now);
        if !registerChallenge {
          return None;
        }
        return Some(FrozenReplacement(bound.value));
      }
      var existing := set p | p in passkey.passkeys && p.user == r.user.value;
      RemainingCredentials(Tables(), r.user.value, existing);
      hasNoPasskeys := |existing| == 0;
      if !hasNoPasskeys && r.existingSignature.None? {
        isPotentialRecovery := true;
        hasNoPasskeys := true;
      }
      return Some(if isPotentialRecovery then PotentialRecovery else if hasNoPasskeys then FirstPasskey else AddPasskey);
    }

    /** Step 6.5: an Owner entry decides alone, except that repeating it in normal state is refused. */
    method ForceRecovery(r: Registration, route: Route, user: string, now: int) returns (outcome: Outcome)
      requires r.user.Some? && r.recovery
      modifies passkey, accountFreeze, challenge
      ensures (Tables(), outcome) == Bind(old(Tables()), r, route, user, now)
    {
      ghost var db := Tables();
      var targets := set p | p in passkey.passkeys && p.user == user && passkey.passkeys[p] == r.keyHash;
      var frozen, within, bound := accountFreeze.GetFreezeStatus(user, now);
      assert frozen == Frozen(db, user);
      assert |targets| != 0 <==> KeyPresent(db, user, r.keyHash) by {
        if p :| p in db.passkeys && p.user == user && db.passkeys[p] == r.keyHash {
          assert p in targets;
        }
      }
      if |targets| != 0 && !frozen {
        return Refused;
      }
      challenge.ConsumeChallenge(r.challenge);
      var matched, deleted := passkey.RecoveryReplace(user, None, r.credential, r.keyHash);
      var cleared := accountFreeze.ClearFreeze(user);
      return Recovered;
    }

    /** Steps 6.5 to 9. */
    method BindPasskey(r: Registration, route: Route, user: string, now: int) returns (outcome: Outcome)
      modifies passkey, accountFreeze, challenge
      ensures (Tables(), outcome) == Bind(old(Tables()), r, route, user, now)
    {
      if r.user.Some? && r.recovery {
        outcome := ForceRecovery(r, route, user, now);
      } else {
        outcome := BindInScenario(r, route, user, now);
      }
    }

    method BindInScenario(r: Registration, route: Route, user: string, now: int) returns (outcome: Outcome)
      requires !(r.user.Some? && r.recovery)
      modifies passkey, accountFreeze, challenge
      ensures (Tables(), outcome) == Bind(old(Tables()), r, route, user, now)
      ensures outcome.Added? ==>
        && PasskeyId(user, r.credential) !in old(passkey.passkeys)
        && passkey.passkeys == old(passkey.passkeys)[PasskeyId(user, r.credential) := r.keyHash]
      ensures outcome.Added? && route == FirstPasskey && r.funded && !RegistrationLaws.InForce(old(Tables()), user) ==>
        && RegistrationLaws.InForce(Tables(), user) && accountFreeze.freezes[user].credential == r.credential
        && RegistrationLaws.EndOfFreeze(accountFreeze.freezes[user].until, now, r.freezeSeconds)
    {
      ghost var db := Tables();
      match route
      case PotentialRecovery =>
        return Refused;
      case AddPasskey =>
        if r.existingCredential.None? || PasskeyId(user, r.existingCredential.value) !in passkey.passkeys {
          return Refused;
        }
        if r.existingSignature != Some(true) {
          return Refused;
        }
        challenge.ConsumeChallenge(r.challenge);
        var ok := passkey.RegisterPasskey(user, r.credential, r.keyHash);
        return if ok then Added(false) else Refused;
      case FrozenReplacement(previous) =>
        var replaced := passkey.ReplacePasskey(user, previous, r.credential, r.keyHash);
        if !replaced {
          return Refused;
        }
        assert passkey.passkeys == RenamePasskey(db, user, previous, r.credential, r.keyHash).passkeys;
        var reset := accountFreeze.ResetFreeze(user, r.credential, now, r.freezeSeconds);
        return Replaced;
      case NewUser =>
        var ok := passkey.RegisterPasskey(user, r.credential, r.keyHash);
        return if ok then Added(false) else Refused;
      case FirstPasskey =>
        var ok := passkey.RegisterPasskey(user, r.credential, r.keyHash);
        if !ok {
          return Refused;
        }
        if r.funded {
          var until := accountFreeze.FreezeAccount(user, r.credential, now, r.freezeSeconds);
        }
        return Added(r.funded);
    }

    method HandleComplete(r: Registration, now: int) returns (outcome: Outcome)
      modifies passkey, accountFreeze, challenge
      ensures (Tables(), outcome) == Register(old(Tables()), r, now)
      ensures outcome == Added(true) <==> RegistrationLaws.FirstGoesThrough(old(Tables()), r, now) && r.funded
      ensures outcome == Added(true) && !RegistrationLaws.InForce(old(Tables()), r.user.value) ==>
        && RegistrationLaws.InForce(Tables(), r.user.value)
        && accountFreeze.freezes[r.user.value].credential == r.credential
        && RegistrationLaws.EndOfFreeze(accountFreeze.freezes[r.user.value].until, now, r.freezeSeconds)
      ensures outcome == Replaced <==> RegistrationLaws.ReplacementGoesThrough(old(Tables()), r, now)
      ensures outcome == Recovered <==> RegistrationLaws.RecoveryGoesThrough(old(Tables()), r, now)
    {
      ghost var db := Tables();
      RegistrationLaws.OutcomeIff(db, r, now);
      if Register(db, r, now).1.Added? {
        RegistrationLaws.AddedIsBound(db, r, now);
      }
      hide RegistrationLaws.FirstGoesThrough, RegistrationLaws.ReplacementGoesThrough,
           RegistrationLaws.RecoveryGoesThrough, RegistrationLaws.EndOfFreeze, Bind;
      var route := ChooseScenario(r, now);
      if route.None? {
        return Refused;
      }
      var finalUser := r.user;
      if route.value.AddPasskey? {
        if r.existingCredential.None? {
          return Refused;
        }
        var found := challenge.FindChallenge(r.challenge, r.user, ForRegisterPasskey, now);
        assert found == FoundChallenge(db, r.challenge, r.user, ForRegisterPasskey, now);
        if !found {
          return Refused;
        }
      } else {
        var owner := challenge.VerifyAndConsumeChallenge(r.challenge, r.user, ForRegister, now);
        assert owner.Some? <==> FoundChallenge(db, r.challenge, r.user, ForRegister, now);
        if owner.None? {
          return Refused;
        }
        if finalUser.None? {
          finalUser := owner;
        }
      }
      if !r.verified {
        return Refused;
      }
      outcome := BindPasskey(r, route.value, finalUser.value, now);
    }
  }

  /** The wrapper around every gated route: gate, handler, lift. */
  class GatedServer {
    const passkey: PasskeyManager
    const accountFreeze: AccountFreezeManager
    const challenge: ChallengeManager

    constructor (passkey: PasskeyManager, accountFreeze: AccountFreezeManager, challenge: ChallengeManager)
      ensures this.passkey == passkey && this.accountFreeze == accountFreeze && this.challenge == challenge
    {
      this.passkey, this.accountFreeze, this.challenge := passkey, accountFreeze, challenge;
    }

    ghost function Tables(): AccountTables
      reads passkey, accountFreeze, challenge
    {
      AccountTables(passkey.users, passkey.passkeys, accountFreeze.freezes, challenge.challenges)
    }

    method CheckFreeze(c: Call, now: int) returns (gate: Gate)
      ensures gate == GateOf(Tables(), c, now)
    {
      var skipFreezeCheck := c.challengeForRegister;
      if !skipFreezeCheck && c.attested.Some? && c.user.Some? {
        var frozen, within, bound := accountFreeze.GetFreezeStatus(c.user.value, now);
        assert within == WithinFreeze(Tables(), c.user.value, now);
        if frozen && within && c.attested != bound {
          skipFreezeCheck := true;
        }
      }
      gate := Gate(false, false);
      if !skipFreezeCheck && c.user.Some? {
        gate := accountFreeze.CheckRequest(c.user.value, c.credential, c.signed, now);
        assert gate == Accounts.CheckRequest(Tables(), c.user.value, c.credential, c.signed, now);
      }
    }

    method Wrap(c: Call, now: int) returns (success: bool)
      modifies passkey, accountFreeze
      ensures (Tables(), success) == Serve(old(Tables()), c, now)
    {
      ghost var db := Tables();
      var gate := CheckFreeze(c, now);
      if gate.blocked {
        return false;
      }
      if !c.handled {
        return false;
      }
      if c.action.DeletePasskeys? && c.user.Some? {
        var deleted, gone := passkey.DeletePasskeys(c.user.value, c.action.credentials);
        var next := DeleteCredentials(db, c.user.value, c.action.credentials);
        assert db.users == old(passkey.users);
        assert passkey.users == next.users && passkey.passkeys == next.passkeys;
      }
      if gate.canLift {
        var lifted := accountFreeze.LiftFreeze(c.user.value);
      }
      return true;
    }
  }
}
