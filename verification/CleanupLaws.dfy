/** What the timer tasks and an account's deletion take away, and what a sync stores, said of the tables and
    the chain's lists alone. */
module CleanupLaws {
  import opened Tables
  import opened Revocations
  import opened Signing

  // ---- what is taken away ----------------------------------------------------------------

  /** Exactly the records whose expiry has come go; no row is given back. */
  lemma ExpiredAreDropped(db: Db, now: int, k: Key)
    ensures var after := CleanExpired(db, now);
      && (k in after.revocations <==>
            k in db.revocations && match db.revocations[k].expiresAt case None => true case Some(t) => now < t)
      && (k in after.revocations ==> after.revocations[k] == db.revocations[k])
      && after == db.(revocations := after.revocations)
  {
  }

  ghost predicate Listed(records: seq<ChainRecord>, auth: string) {
    exists i :: 0 <= i < |records| && records[i].auth == auth
  }

  lemma ListedIsInIds(records: seq<ChainRecord>, auth: string)
    ensures auth in Ids(records) <==> Listed(records, auth)
  {
    if auth in Ids(records) {
      var r :| r in records && r.auth == auth;
      var i :| 0 <= i < |records| && records[i] == r;
    }
  }

  /** A reconciliation drops exactly the contract's records that are not expired and that its list, which
      could be read, does not name; their rows, if revoked, become active. */
  lemma ReconcileDropsTheMissing(db: Db, chain: Chain, now: int, k: Key)
    ensures var after := Reconcile(db, chain, now);
      var missing :=
        && k in db.revocations && db.revocations[k].source == Contract
        && (match db.revocations[k].expiresAt case None => true case Some(t) => now < t)
        && (match chain(k.user) case None => false case Some(records) => !Listed(records, k.auth));
      && Lookup(after.revocations, k) == (if missing then None else Lookup(db.revocations, k))
      && (k in after.states <==> k in db.states)
      && (k in db.states ==>
            after.states[k] == State(db.states[k].grantee,
                                     if missing && db.states[k].status == Revoked then Active else db.states[k].status,
                                     db.states[k].used))
      && after == db.(revocations := after.revocations, states := after.states)
  {
    if chain(k.user).Some? {
      ListedIsInIds(chain(k.user).value, k.auth);
    }
  }

  /** A row of this id is not active. */
  ghost predicate SomeInactive(db: Db, auth: string) {
    exists k :: k in db.states && k.auth == auth && db.states[k].status != Active
  }

  /** The clean-up takes the rows of exactly those ids under which some row is not active, with their token
      rows and guids; records and texts stay. */
  lemma CleaningTakesTheInactive(db: Db, k: Key, t: TokenKey, n: Nonce)
    ensures var after := CleanInvalidated(db);
      && Lookup(after.states, k) == (if SomeInactive(db, k.auth) then None else Lookup(db.states, k))
      && Lookup(after.tokens, t) == (if SomeInactive(db, t.auth) then None else Lookup(db.tokens, t))
      && (n in after.nonces <==> n in db.nonces && !SomeInactive(db, n.auth))
      && (after.accounts, after.records, after.revocations) == (db.accounts, db.records, db.revocations)
  {
    forall auth ensures auth in InvalidAuths(db) <==> SomeInactive(db, auth) {
    }
  }

  /** The user has a row under this id. */
  ghost predicate HasRow(db: Db, user: string, auth: string) {
    Key(user, auth) in db.states
  }

  /** Deleting an account takes its rows and records, and everything under the ids of its rows; the texts stay. */
  lemma CascadeTakesTheAccount(db: Db, user: string, k: Key, t: TokenKey, n: Nonce)
    ensures var after := Cascade(db, user);
      && after.accounts == db.accounts - {user}
      && Lookup(after.states, k) == (if k.user == user then None else Lookup(db.states, k))
      && Lookup(after.revocations, k) == (if k.user == user then None else Lookup(db.revocations, k))
      && Lookup(after.tokens, t) == (if HasRow(db, user, t.auth) then None else Lookup(db.tokens, t))
      && (n in after.nonces <==> n in db.nonces && !HasRow(db, user, n.auth))
      && after.records == db.records
  {
    var auths := set x | x in db.states && x.user == user :: x.auth;
    forall auth ensures auth in auths <==> HasRow(db, user, auth) {
      if HasRow(db, user, auth) {
        var x := Key(user, auth);
        assert x in db.states && x.user == user && x.auth == auth;
      }
    }
  }

  // ---- what a sync stores ----------------------------------------------------------------

  ghost predicate LastNamed(records: seq<ChainRecord>, auth: string, grantee: Option<string>) {
    if grantee == None then forall i :: 0 <= i < |records| && records[i].auth == auth ==> records[i].grantee == None
    else exists i ::
      && 0 <= i < |records| && records[i].auth == auth && records[i].grantee == grantee
      && forall j :: i < j < |records| && records[j].auth == auth ==> records[j].grantee == None
  }

  ghost predicate EarliestTime(records: seq<ChainRecord>, auth: string, at: int) {
    && (exists i :: 0 <= i < |records| && records[i].auth == auth && records[i].revokedAt == at)
    && (forall i :: 0 <= i < |records| && records[i].auth == auth ==> at <= records[i].revokedAt)
  }

  lemma {:induction false} LastGranteeIsLastNamed(auth: string, records: seq<ChainRecord>)
    ensures LastNamed(records, auth, LastGrantee(auth, records))
  {
    if records != [] {
      var front := records[..|records| - 1];
      LastGranteeIsLastNamed(auth, front);
      assert forall i :: 0 <= i < |front| ==> records[i] == front[i];
      var g := LastGrantee(auth, front);
      if g.Some? {
        var i :| && 0 <= i < |front| && front[i].auth == auth && front[i].grantee == g
                 && forall j :: i < j < |front| && front[j].auth == auth ==> front[j].grantee == None;
        assert records[i].auth == auth && records[i].grantee == g;
      }
    }
  }

  lemma {:induction false} EarliestIsEarliest(auth: string, records: seq<ChainRecord>)
    ensures if Earliest(auth, records).Some? then EarliestTime(records, auth, Earliest(auth, records).value)
            else !Listed(records, auth)
  {
    if records != [] {
      var front := records[..|records| - 1];
      EarliestIsEarliest(auth, front);
      assert forall i :: 0 <= i < |front| ==> records[i] == front[i];
    }
  }

  /** What stands of an authorization after the list that names it was mirrored: a platform's record with a
      missing hash filled in, otherwise a record of the contract with the earliest time, the last grantee named,
      the hash of the stored text and no expiry but one already known. */
  ghost predicate StoredFromChain(before: Option<Revocation>, after: Revocation, text: Option<AuthRecord>,
                                  records: seq<ChainRecord>, auth: string) {
    var hash := match text case None => None case Some(r) => Some(r.hash);
    match before
    case Some(e) =>
      if e.source == Platform then after == e.(hash := if e.hash == None then hash else e.hash)
      else
        && after.source == Contract && after.expiresAt == e.expiresAt
        && after.hash == (if hash == None then e.hash else hash)
        && (exists at :: EarliestTime(records, auth, at) && after.revokedAt == if e.revokedAt < at then e.revokedAt else at)
        && (exists g :: LastNamed(records, auth, g) && after.grantee == if g == None then e.grantee else g)
    case None =>
      && after.source == Contract && after.expiresAt == None && after.hash == hash
      && EarliestTime(records, auth, after.revokedAt) && LastNamed(records, auth, after.grantee)
  }

  /** A sync, for an authorization of a user whose list could be read. Named in it, its record is stored from
      it and its row, opened if need be, is revoked; not named, a record of the contract goes and a revoked row
      is active again; a platform's stays. */
  lemma SyncStoresTheChain(db: Db, users: seq<string>, chain: Chain, k: Key, records: seq<ChainRecord>)
    requires Distinct(users) && k.user in users && chain(k.user) == Some(records)
    ensures var after := Sync(db, users, chain);
      var before := Lookup(db.revocations, k);
      if Listed(records, k.auth) then
        && k in after.revocations && k in after.states
        && StoredFromChain(before, after.revocations[k], Lookup(db.records, k), records, k.auth)
        && after.states[k].status == Revoked
        && (if k in db.states then after.states[k] == db.states[k].(status := Revoked) else after.states[k].used == Usage(0, 0))
      else if before.Some? && before.value.source == Contract then
        && k !in after.revocations
        && (k in after.states <==> k in db.states)
        && (k in db.states ==>
              after.states[k] == db.states[k].(status := if db.states[k].status == Revoked then Active else db.states[k].status))
      else Lookup(after.revocations, k) == before && Lookup(after.states, k) == Lookup(db.states, k)
  {
    hide Sync, MirrorOne, MirrorState, LastGrantee, Earliest, LastNamed, EarliestTime;
    var after := Sync(db, users, chain);
    SyncAt(db, users, chain);
    assert Lookup(after.revocations, k)
        == SyncedRecord(Lookup(db.revocations, k), StoredHash(db, k), k.auth, records);
    assert Lookup(after.states, k) == SyncedState(Lookup(db.revocations, k), Lookup(db.states, k), k.auth, records);
    ListedIsInIds(records, k.auth);
    EarliestIsEarliest(k.auth, records);
    LastGranteeIsLastNamed(k.auth, records);
    MirrorOneClosed(Lookup(db.revocations, k), StoredHash(db, k), k.auth, records);
    MirrorStateRevokes(Lookup(db.states, k), k.auth, records);
  }
}
