/** What holds of freezes over whole runs: soundness of every reachable state, Owner recovery, when a
    registration without a user breaks the rule, and the only two ways in which a freeze ends. */
module FreezeRuns {
  import opened Tables
  import opened Accounts
  import opened AccountRuns

  lemma PrefixIsRegular(db: AccountTables, since: int, steps: seq<Step>)
    requires RegularRun(db, since, steps) && steps != []
    ensures RegularRun(db, since, steps[..|steps| - 1])
  {
    var front := steps[..|steps| - 1];
    forall i | 0 <= i < |front| ensures Regular(After(db, front[..i]), front[i]) {
      assert front[..i] == steps[..i];
    }
  }

  /** In every reachable state a freeze in force names a bound passkey, which inside the window is the
      only one, and an account exists exactly while it has a passkey; however much time then passes. */
  lemma {:induction false} ReachableAccountsAreSound(db: AccountTables, since: int, steps: seq<Step>, now: int)
    requires Sound(db, since) && RegularRun(db, since, steps)
    requires since <= now && (steps != [] ==> steps[|steps| - 1].now <= now)
    ensures Sound(After(db, steps), now)
  {
    if steps == [] {
      TimePasses(db, since, now);
    } else {
      var last := steps[|steps| - 1];
      var front := steps[..|steps| - 1];
      PrefixIsRegular(db, since, steps);
      ReachableAccountsAreSound(db, since, front, last.now);
      assert Regular(After(db, front), last);
      StepIsSound(After(db, front), last);
      TimePasses(After(db, steps), last.now, now);
    }
  }

  /** So from the very first start, without accounts. */
  lemma AccountsAreSoundFromTheStart(since: int, steps: seq<Step>, now: int)
    requires RegularRun(EMPTY_ACCOUNTS, since, steps)
    requires since <= now && (steps != [] ==> steps[|steps| - 1].now <= now)
    ensures Sound(After(EMPTY_ACCOUNTS, steps), now)
  {
    forall u ensures PasskeysOf(EMPTY_ACCOUNTS, u) == {} {
      assert forall p :: p !in EMPTY_ACCOUNTS.passkeys;
    }
    ReachableAccountsAreSound(EMPTY_ACCOUNTS, since, steps, now);
  }

  // ---- Owner recovery --------------------------------------------------------------------

  /** When a registration is taken as an Owner recovery: decided before, and whatever, the scenario. */
  predicate RecoveryGranted(db: AccountTables, r: Registration, now: int) {
    && r.user.Some? && r.verified && r.recovery
    && (if r.existingSignature.Some? && !WithinFreeze(db, r.user.value, now) && PasskeysOf(db, r.user.value) != {}
        then r.existingCredential.Some? && FoundChallenge(db, r.challenge, r.user, ForRegisterPasskey, now)
        else FoundChallenge(db, r.challenge, r.user, ForRegister, now))
    && (KeyPresent(db, r.user.value, r.keyHash) ==> Frozen(db, r.user.value))
  }

  /** From any state, recovery is taken exactly when it is granted, and leaves the account with the new
      passkey alone, no freeze row and the challenge spent; nobody else's rows change. */
  lemma RecoveryNormalizesTheAccount(db: AccountTables, r: Registration, now: int)
    ensures Register(db, r, now).1 == Recovered <==> RecoveryGranted(db, r, now)
    ensures RecoveryGranted(db, r, now) ==>
      var user := r.user.value; var next := Register(db, r, now).0;
      && user in next.users && PasskeysOf(next, user) == {r.credential}
      && next.passkeys[PasskeyId(user, r.credential)] == r.keyHash
      && user !in next.freezes
      && next.challenges == db.challenges - {r.challenge}
      && OthersKept(db, next, user)
  {
    if r.user.Some? {
      var user := r.user.value;
      assert KeyPresent(Consume(db, r.challenge), user, r.keyHash) <==> KeyPresent(db, user, r.keyHash);
      if RecoveryGranted(db, r, now) {
        RecoveryLeavesOnePasskey(Consume(db, r.challenge), user, r.credential, r.keyHash, now);
        RecoveryLeavesOnePasskey(Consume(Consume(db, r.challenge), r.challenge), user, r.credential, r.keyHash, now);
        RegisterKeepsOthers(db, r, user, now);
        BoundCredentials(Register(db, r, now).0, user, r.credential);
      }
    }
  }

  /** The guard against repeating a recovery: the same key again, with the account in normal state, is refused. */
  lemma RecoveryIsNotRepeated(db: AccountTables, r: Registration, now: int, again: Registration, later: int)
    requires Register(db, r, now).1 == Recovered
    requires again.user == r.user && again.recovery && again.keyHash == r.keyHash
    ensures Register(Register(db, r, now).0, again, later).1 == Refused
  {
    var next := Register(db, r, now).0;
    RecoveryNormalizesTheAccount(db, r, now);
    BoundCredentials(next, r.user.value, r.credential);
    RecoveryNormalizesTheAccount(next, again, later);
    assert KeyPresent(next, r.user.value, again.keyHash) by {
      var p := PasskeyId(r.user.value, r.credential);
      assert p in next.passkeys && p.user == r.user.value;
    }
  }

  // ---- registrations without a user ------------------------------------------------------

  /** A registration keeps the accounts sound if and only if it is not one that names no user and uses
      the live register challenge of an account inside its freeze, with a credential it does not have. */
  lemma RegistrationIsSoundIff(db: AccountTables, r: Registration, now: int)
    requires Sound(db, now)
    ensures Sound(Register(db, r, now).0, now) <==> !BindsDuringFreeze(db, r, now)
  {
    var next := Register(db, r, now).0;
    if BindsDuringFreeze(db, r, now) {
      var user := db.challenges[r.challenge].user;
      assert FreezeNamesItsPasskey(db, user, now);
      InsertAddsOnePasskey(Consume(db, r.challenge), user, r.credential, r.keyHash);
      assert PasskeysOf(Consume(db, r.challenge), user) == PasskeysOf(db, user);
      BoundCredentials(db, user, r.credential);
      assert r.credential in PasskeysOf(next, user);
      assert !FreezeNamesItsPasskey(next, user, now);
    } else {
      RegistrationIsSound(db, r, now);
    }
  }

  // ---- how a freeze ends -----------------------------------------------------------------

  /** The gate lets a request of a frozen account through only after the window, signed, and by the
      passkey the freeze names; time alone changes nothing about that. */
  lemma OnlyTheFrozenPasskeyPasses(db: AccountTables, c: Call, now: int)
    requires c.user.Some? && Frozen(db, c.user.value) && !SkipsGate(db, c, now)
    ensures Serve(db, c, now).1 <==>
      (c.handled && db.freezes[c.user.value].until <= now && c.signed
       && c.credential == Some(db.freezes[c.user.value].credential))
    ensures Serve(db, c, now).1 ==> !Frozen(Serve(db, c, now).0, c.user.value)
    ensures !Serve(db, c, now).1 ==> Serve(db, c, now).0 == db
  {
  }

  /** An Owner recovery of this account. */
  predicate RecoversUser(db: AccountTables, s: Step, user: string) {
    s.event.Registered? && s.event.r.user == Some(user) && RecoveryGranted(db, s.event.r, s.now)
  }

  /** A handled request of this account, signed, after the window, with the passkey its freeze names. */
  predicate Unfreezes(db: AccountTables, s: Step, user: string) {
    && Frozen(db, user) && s.event.Called? && s.event.c.user == Some(user)
    && !SkipsGate(db, s.event.c, s.now)
    && s.event.c.handled && s.event.c.signed
    && s.event.c.credential == Some(db.freezes[user].credential)
    && db.freezes[user].until <= s.now
  }

  /** A step by which the freeze of this account begins, or starts over with a new passkey. */
  predicate Freezes(db: AccountTables, s: Step, user: string) {
    && s.event.Registered? && s.event.r.user == Some(user)
    && var outcome := Register(db, s.event.r, s.now).1;
      outcome == Replaced || (outcome == Added(true) && !Frozen(db, user))
  }

  /** One step either leaves the freeze of an account as it is, or starts it, or ends it in one of the two ways. */
  lemma StepAndFreeze(db: AccountTables, s: Step, user: string)
    ensures var next := Next(db, s);
      if Freezes(db, s, user) then
        && Frozen(next, user)
        && next.freezes[user] == Freeze(s.event.r.credential, FreezeUntil(s.now, s.event.r.freezeSeconds), false)
      else if RecoversUser(db, s, user) || Unfreezes(db, s, user) then !Frozen(next, user)
      else
        && (Frozen(next, user) <==> Frozen(db, user))
        && (Frozen(db, user) ==> next.freezes[user] == db.freezes[user])
  {
    match s.event
    case Registered(r) =>
      if r.user.Some? {
        RecoveryNormalizesTheAccount(db, r, s.now);
      }
    case _ =>
  }

  predicate LeavesFreeze(db: AccountTables, s: Step, user: string) {
    !Freezes(db, s, user) && !RecoversUser(db, s, user) && !Unfreezes(db, s, user)
  }

  /** Step i begins the freeze of this account, and no later step begins or ends it. */
  ghost predicate LatestFreeze(db: AccountTables, steps: seq<Step>, user: string, i: nat) {
    && i < |steps| && Freezes(After(db, steps[..i]), steps[i], user)
    && forall j :: i < j < |steps| ==> LeavesFreeze(After(db, steps[..j]), steps[j], user)
  }

  lemma LatestFreezeStays(db: AccountTables, steps: seq<Step>, user: string, i: nat)
    requires steps != [] && LatestFreeze(db, steps[..|steps| - 1], user, i)
    requires LeavesFreeze(After(db, steps[..|steps| - 1]), steps[|steps| - 1], user)
    ensures LatestFreeze(db, steps, user, i)
  {
    hide Freezes, LeavesFreeze;
    var front := steps[..|steps| - 1];
    assert front[..i] == steps[..i];
    forall j | i < j < |steps| ensures LeavesFreeze(After(db, steps[..j]), steps[j], user) {
      if j < |front| {
        assert front[..j] == steps[..j];
      }
    }
  }

  /** A freeze in force is the one begun by the latest freeze or reset in the run: its passkey, its end. */
  lemma {:induction false} FreezeComesFromItsLatestStart(db: AccountTables, steps: seq<Step>, user: string) returns (i: nat)
    requires !Frozen(db, user) && Frozen(After(db, steps), user)
    ensures LatestFreeze(db, steps, user, i)
    ensures After(db, steps).freezes[user]
         == Freeze(steps[i].event.r.credential, FreezeUntil(steps[i].now, steps[i].event.r.freezeSeconds), false)
  {
    var n := |steps| - 1;
    var front, last := steps[..n], steps[n];
    StepAndFreeze(After(db, front), last, user);
    if Freezes(After(db, front), last, user) {
      i := n;
    } else {
      i := FreezeComesFromItsLatestStart(db, front, user);
      LatestFreezeStays(db, steps, user, i);
    }
  }

  lemma WindowIsWholeSeconds(now: int, configured: int)
    ensures FreezeUntil(now, configured) > now + FreezeSeconds(configured) * 1000 - 1000
    ensures FreezeUntil(now, configured) <= now + FreezeSeconds(configured) * 1000
  {
  }

  /** The end of a freeze. In a run from unfrozen accounts, if an account is frozen before the last step
      and not after it, that step is an Owner recovery of it, or a handled, signed request with the
      passkey named by the latest freeze or reset, later than that by the freeze time, less the part of a
      second cut from the stored end. */
  lemma FreezeEndsOnlyTwoWays(db: AccountTables, steps: seq<Step>, user: string) returns (i: nat)
    requires steps != [] && !Frozen(db, user)
    requires Frozen(After(db, steps[..|steps| - 1]), user) && !Frozen(After(db, steps), user)
    ensures i < |steps| - 1 && LatestFreeze(db, steps[..|steps| - 1], user, i)
    ensures
      var before := After(db, steps[..|steps| - 1]); var last := steps[|steps| - 1]; var start := steps[i];
      || RecoversUser(before, last, user)
      || (&& last.event.Called? && last.event.c.user == Some(user)
          && last.event.c.handled && last.event.c.signed
          && last.event.c.credential == Some(start.event.r.credential)
          && last.now > start.now + FreezeSeconds(start.event.r.freezeSeconds) * 1000 - 1000)
  {
    var front := steps[..|steps| - 1];
    i := FreezeComesFromItsLatestStart(db, front, user);
    StepAndFreeze(After(db, front), steps[|steps| - 1], user);
    WindowIsWholeSeconds(front[i].now, front[i].event.r.freezeSeconds);
  }

  /** A run with neither an Owner recovery nor an unfreezing request of a frozen account leaves it
      frozen, however late its steps come. */
  lemma {:induction false} TimeAloneNeverUnfreezes(db: AccountTables, steps: seq<Step>, user: string)
    requires Frozen(db, user)
    requires forall i :: 0 <= i < |steps| ==>
      !RecoversUser(After(db, steps[..i]), steps[i], user) && !Unfreezes(After(db, steps[..i]), steps[i], user)
    ensures Frozen(After(db, steps), user)
  {
    if steps != [] {
      var n := |steps| - 1;
      var front := steps[..n];
      forall i | 0 <= i < |front|
        ensures !RecoversUser(After(db, front[..i]), front[i], user) && !Unfreezes(After(db, front[..i]), front[i], user)
      {
        assert front[..i] == steps[..i];
      }
      TimeAloneNeverUnfreezes(db, front, user);
      StepAndFreeze(After(db, front), steps[n], user);
    }
  }
}
