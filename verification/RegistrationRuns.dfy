/** What a registration needs: challenges are spent once, and an account that has passkeys gains one only
    in the ways meant for it. */
module RegistrationRuns {
  import opened Tables
  import opened Accounts
  import opened AccountRuns
  import opened FreezeRuns

  predicate Binds(db: AccountTables, s: Step, challenge: string) {
    s.event.Registered? && s.event.r.challenge == challenge && Register(db, s.event.r, s.now).1 != Refused
  }

  /** A registration that goes through found its challenge live, of its user and its purpose, and spends it. */
  lemma BindingSpendsItsChallenge(db: AccountTables, r: Registration, now: int)
    requires Register(db, r, now).1 != Refused
    ensures FoundChallenge(db, r.challenge, r.user, ForRegister, now)
         || (r.existingSignature.Some? && FoundChallenge(db, r.challenge, r.user, ForRegisterPasskey, now))
    ensures r.challenge !in Register(db, r, now).0.challenges
  {
  }

  /** Nothing but minting it again brings a challenge back. */
  lemma {:induction false} SpentStaysSpent(db: AccountTables, steps: seq<Step>, challenge: string)
    requires challenge !in db.challenges
    requires forall i :: 0 <= i < |steps| ==> !(steps[i].event.Minted? && steps[i].event.challenge == challenge)
    ensures challenge !in After(db, steps).challenges
  {
    if steps != [] {
      var n := |steps| - 1;
      SpentStaysSpent(db, steps[..n], challenge);
      ChallengesOnlyGo(After(db, steps[..n]), steps[n], challenge);
    }
  }

  lemma ChallengesOnlyGo(db: AccountTables, s: Step, challenge: string)
    requires challenge !in db.challenges && !(s.event.Minted? && s.event.challenge == challenge)
    ensures challenge !in Next(db, s).challenges
  {
  }

  lemma {:induction false} AfterInParts(db: AccountTables, a: seq<Step>, b: seq<Step>)
    ensures After(db, a + b) == After(After(db, a), b)
  {
    hide Next;
    if b == [] {
      assert a + b == a;
    } else {
      var n := |b| - 1;
      AfterInParts(db, a, b[..n]);
      assert (a + b)[..|a + b| - 1] == a + b[..n];
    }
  }

  /** No challenge binds twice: between two registrations that go through with the same challenge it has
      been minted again. Challenges are random, so in practice never. */
  lemma NoChallengeBindsTwice(db: AccountTables, steps: seq<Step>, challenge: string, i: nat, j: nat)
    requires i < j < |steps|
    requires Binds(After(db, steps[..i]), steps[i], challenge)
    requires Binds(After(db, steps[..j]), steps[j], challenge)
    ensures exists d :: i < d < j && steps[d].event.Minted? && steps[d].event.challenge == challenge
  {
    hide Register, FoundChallenge;
    var spent := After(db, steps[..i + 1]);
    assert steps[..i + 1][..i] == steps[..i];
    assert spent == Next(After(db, steps[..i]), steps[i]);
    BindingSpendsItsChallenge(After(db, steps[..i]), steps[i].event.r, steps[i].now);
    var between := steps[i + 1..j];
    assert steps[..j] == steps[..i + 1] + between;
    AfterInParts(db, steps[..i + 1], between);
    LiveWhereItBinds(After(db, steps[..j]), steps[j], challenge);
    if forall k :: 0 <= k < |between| ==> !(between[k].event.Minted? && between[k].event.challenge == challenge) {
      SpentStaysSpent(spent, between, challenge);
    } else {
      var k :| 0 <= k < |between| && between[k].event.Minted? && between[k].event.challenge == challenge;
      assert steps[i + 1 + k] == between[k];
    }
  }

  lemma LiveWhereItBinds(db: AccountTables, s: Step, challenge: string)
    requires Binds(db, s, challenge)
    ensures challenge in db.challenges
  {
    BindingSpendsItsChallenge(db, s.event.r, s.now);
  }

  /** By what right an account that already has passkeys gets a new one. */
  predicate Entitled(db: AccountTables, r: Registration, user: string, now: int) {
    || (r.user == Some(user) && RecoveryGranted(db, r, now))
    || (r.user == Some(user) && SignedByBound(db, r, user) && !WithinFreeze(db, user, now))
    || (r.user == Some(user) && WithinFreeze(db, user, now) && FoundChallenge(db, r.challenge, r.user, ForRegister, now))
    || (r.user.None? && FoundChallenge(db, r.challenge, None, ForRegister, now) && db.challenges[r.challenge].user == user)
  }

  /** A passkey appears at an account that has some only by an attested registration that is entitled to
      it: an Owner recovery, one signed by a passkey already bound, a replacement during a freeze, or one
      whose challenge names the account. Without any of these its passkeys can only become fewer. */
  lemma OnlyEntitledKeysAreBound(db: AccountTables, s: Step, user: string, credential: string)
    requires PasskeysOf(db, user) != {}
    requires PasskeyId(user, credential) in Next(db, s).passkeys && PasskeyId(user, credential) !in db.passkeys
    ensures s.event.Registered? && s.event.r.verified && s.event.r.credential == credential
    ensures Entitled(db, s.event.r, user, s.now)
  {
    match s.event
    case Registered(r) =>
      if r.user.Some? {
        RecoveryNormalizesTheAccount(db, r, s.now);
      }
    case _ =>
  }
}
