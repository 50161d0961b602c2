/** The objects that own the ledger tables and change them in place. Every method is tied to the
    table functions of Revocations and Signing, so what LedgerRuns, LedgerInvariants, LedgerLimits
    and LedgerRaces prove about those functions holds of the methods. */
module StateManagement {
  import opened Tables
  import opened Revocations
  import opened Signing
  import opened LedgerInvariants
  import LedgerLaws

  /** Dropping in several goes is dropping all at once. */
  lemma DropUnion(db: Db, done: set<Key>, more: set<Key>, restore: bool)
    ensures Drop(Drop(db, done, restore), more, restore) == Drop(db, done + more, restore)
  {
    assert Drop(Drop(db, done, restore), more, restore).revocations == Drop(db, done + more, restore).revocations;
    assert Drop(Drop(db, done, restore), more, restore).states == Drop(db, done + more, restore).states;
  }

  lemma DropNothing(db: Db, restore: bool)
    ensures Drop(db, {}, restore) == db
  {
    assert Restore(db.states, {}) == db.states;
    assert db.revocations - {} == db.revocations;
  }

  lemma RecordingKeepsOffChain(db: Db, u: string, chainRecords: seq<ChainRecord>)
    ensures OffChainKeys(RecordChain(db, u, chainRecords), u, Ids(chainRecords)) == OffChainKeys(db, u, Ids(chainRecords))
  {
    RecordChainAt(db, u, chainRecords);
    var after := RecordChain(db, u, chainRecords);
    forall k: Key | k.user == u && k.auth !in Ids(chainRecords)
      ensures Lookup(after.revocations, k) == Lookup(db.revocations, k)
    {
      MirrorOneClosed(Lookup(db.revocations, k), StoredHash(db, k), k.auth, chainRecords);
    }
    forall k ensures k in OffChainKeys(after, u, Ids(chainRecords)) <==> k in OffChainKeys(db, u, Ids(chainRecords)) {
      if k.user == u && k.auth !in Ids(chainRecords) {
        assert Lookup(after.revocations, k) == Lookup(db.revocations, k);
      }
    }
  }

  /** The authorizations a chain list names that have no record yet. */
  ghost function NewIds(db: Db, u: string, chainRecords: seq<ChainRecord>): set<string> {
    set a | a in Ids(chainRecords) && Key(u, a) !in db.revocations
  }

  lemma NamedAreRecorded(db: Db, u: string, chainRecords: seq<ChainRecord>, a: string)
    ensures Key(u, a) in RecordChain(db, u, chainRecords).revocations
            <==> Key(u, a) in db.revocations || a in Ids(chainRecords)
  {
    var k := Key(u, a);
    RecordChainAt(db, u, chainRecords);
    MirrorOneClosed(Lookup(db.revocations, k), StoredHash(db, k), a, chainRecords);
    assert k in RecordChain(db, u, chainRecords).revocations
           <==> Lookup(RecordChain(db, u, chainRecords).revocations, k).Some?;
  }

  lemma NewIdsStep(db: Db, u: string, chainRecords: seq<ChainRecord>)
    requires chainRecords != []
    ensures var front, a := chainRecords[..|chainRecords| - 1], chainRecords[|chainRecords| - 1].auth;
            |NewIds(db, u, chainRecords)|
            == |NewIds(db, u, front)| + (if Key(u, a) in RecordChain(db, u, front).revocations then 0 else 1)
  {
    var front, a := chainRecords[..|chainRecords| - 1], chainRecords[|chainRecords| - 1].auth;
    IdsGrow(chainRecords);
    NamedAreRecorded(db, u, front, a);
    if Key(u, a) in db.revocations || a in Ids(front) {
      assert NewIds(db, u, chainRecords) == NewIds(db, u, front);
    } else {
      assert NewIds(db, u, chainRecords) == NewIds(db, u, front) + {a};
    }
  }

  /** The records a sync creates, the ones it drops, and the users it cannot ask about. */
  ghost function GainedKeys(db: Db, users: seq<string>, chain: Chain): set<Key> {
    set u, a | u in users && chain(u).Some? && a in NewIds(db, u, chain(u).value) :: Key(u, a)
  }

  ghost function LostKeys(db: Db, users: seq<string>, chain: Chain): set<Key> {
    set k | k in db.revocations && Reached(users, chain, k) && db.revocations[k].source.Contract?
            && k.auth !in Ids(chain(k.user).value)
  }

  ghost function SkippedUsers(users: seq<string>, chain: Chain): set<string> {
    set u | u in users && chain(u).None?
  }

  lemma {:induction false} KeysOfIds(u: string, ids: set<string>)
    ensures |set a | a in ids :: Key(u, a)| == |ids|
    decreases |ids|
  {
    var keys := set a | a in ids :: Key(u, a);
    if a :| a in ids {
      KeysOfIds(u, ids - {a});
      assert keys == (set b | b in ids - {a} :: Key(u, b)) + {Key(u, a)};
    }
  }

  /** What earlier users' lists do does not show in the rows of the next. */
  lemma SyncedBeforeIsUnchanged(start: Db, users: seq<string>, chain: Chain, i: nat)
    requires Distinct(users) && i < |users| && chain(users[i]).Some?
    ensures var before, u := Sync(start, users[..i], chain), users[i];
      && NewIds(before, u, chain(u).value) == NewIds(start, u, chain(u).value)
      && OffChainKeys(before, u, Ids(chain(u).value)) == OffChainKeys(start, u, Ids(chain(u).value))
  {
    var before, u := Sync(start, users[..i], chain), users[i];
    SyncAt(start, users[..i], chain);
    forall k: Key | k.user == u ensures Lookup(before.revocations, k) == Lookup(start.revocations, k) {
      assert u !in users[..i];
    }
    forall a ensures a in NewIds(before, u, chain(u).value) <==> a in NewIds(start, u, chain(u).value) {
      assert Lookup(before.revocations, Key(u, a)) == Lookup(start.revocations, Key(u, a));
    }
    forall k ensures k in OffChainKeys(before, u, Ids(chain(u).value)) <==> k in OffChainKeys(start, u, Ids(chain(u).value)) {
      if k.user == u {
        assert Lookup(before.revocations, k) == Lookup(start.revocations, k);
      }
    }
  }

  lemma SyncCountsStep(start: Db, users: seq<string>, chain: Chain, i: nat)
    requires Distinct(users) && i < |users|
    ensures var u, before := users[i], Sync(start, users[..i], chain);
      if chain(u).None? then
        && |GainedKeys(start, users[..i + 1], chain)| == |GainedKeys(start, users[..i], chain)|
        && |LostKeys(start, users[..i + 1], chain)| == |LostKeys(start, users[..i], chain)|
        && |SkippedUsers(users[..i + 1], chain)| == |SkippedUsers(users[..i], chain)| + 1
      else
        && |GainedKeys(start, users[..i + 1], chain)|
           == |GainedKeys(start, users[..i], chain)| + |NewIds(before, u, chain(u).value)|
        && |LostKeys(start, users[..i + 1], chain)|
           == |LostKeys(start, users[..i], chain)| + |OffChainKeys(before, u, Ids(chain(u).value))|
        && |SkippedUsers(users[..i + 1], chain)| == |SkippedUsers(users[..i], chain)|
  {
    hide NewIds, OffChainKeys, Sync, GainedKeys, LostKeys, SkippedUsers, Ids;
    SkippedStep(users, chain, i);
    GainedStep(start, users, chain, i);
    LostStep(start, users, chain, i);
    if chain(users[i]).Some? {
      SyncedBeforeIsUnchanged(start, users, chain, i);
    }
  }

  lemma NothingCounted(start: Db, chain: Chain)
    ensures GainedKeys(start, [], chain) == {} && LostKeys(start, [], chain) == {} && SkippedUsers([], chain) == {}
  {
  }

  lemma SkippedStep(users: seq<string>, chain: Chain, i: nat)
    requires Distinct(users) && i < |users|
    ensures |SkippedUsers(users[..i + 1], chain)| == |SkippedUsers(users[..i], chain)| + (if chain(users[i]).None? then 1 else 0)
  {
    var u, front, longer := users[i], users[..i], users[..i + 1];
    assert longer == front + [u] && u !in front;
    assert SkippedUsers(longer, chain) == SkippedUsers(front, chain) + if chain(u).None? then {u} else {};
  }

  lemma GainedStep(start: Db, users: seq<string>, chain: Chain, i: nat)
    requires Distinct(users) && i < |users|
    ensures |GainedKeys(start, users[..i + 1], chain)|
         == |GainedKeys(start, users[..i], chain)|
            + (if chain(users[i]).Some? then |NewIds(start, users[i], chain(users[i]).value)| else 0)
  {
    hide NewIds;
    var u, front, longer := users[i], users[..i], users[..i + 1];
    assert longer == front + [u] && u !in front;
    if chain(u).Some? {
      var ids := NewIds(start, u, chain(u).value);
      var keys := set a | a in ids :: Key(u, a);
      KeysOfIds(u, ids);
      assert GainedKeys(start, longer, chain) == GainedKeys(start, front, chain) + keys;
      assert GainedKeys(start, front, chain) !! keys;
    } else {
      assert GainedKeys(start, longer, chain) == GainedKeys(start, front, chain);
    }
  }

  lemma LostStep(start: Db, users: seq<string>, chain: Chain, i: nat)
    requires Distinct(users) && i < |users|
    ensures |LostKeys(start, users[..i + 1], chain)|
         == |LostKeys(start, users[..i], chain)|
            + (if chain(users[i]).Some? then |OffChainKeys(start, users[i], Ids(chain(users[i]).value))| else 0)
  {
    hide Ids;
    var u, front, longer := users[i], users[..i], users[..i + 1];
    assert longer == front + [u] && u !in front;
    if chain(u).Some? {
      var lost := OffChainKeys(start, u, Ids(chain(u).value));
      assert LostKeys(start, longer, chain) == LostKeys(start, front, chain) + lost;
      assert LostKeys(start, front, chain) !! lost;
    } else {
      assert LostKeys(start, longer, chain) == LostKeys(start, front, chain);
    }
  }

  /** The counters of a sync count what changed: the records that are there now and were not, and those that
      were there and are not; so do the counters of the two clean-ups. */
  lemma SyncCountsChanges(db: Db, users: seq<string>, chain: Chain)
    requires Distinct(users)
    ensures GainedKeys(db, users, chain) == Sync(db, users, chain).revocations.Keys - db.revocations.Keys
    ensures LostKeys(db, users, chain) == db.revocations.Keys - Sync(db, users, chain).revocations.Keys
  {
    var after := Sync(db, users, chain);
    SyncAt(db, users, chain);
    forall k ensures k in after.revocations <==>
      if Reached(users, chain, k)
      then k.auth in Ids(chain(k.user).value) || (k in db.revocations && db.revocations[k].source.Platform?)
      else k in db.revocations
    {
      assert k in after.revocations <==> Lookup(after.revocations, k).Some?;
      if Reached(users, chain, k) {
        MirrorOneClosed(Lookup(db.revocations, k), StoredHash(db, k), k.auth, chain(k.user).value);
      }
    }
    forall k ensures k in GainedKeys(db, users, chain) <==> k in after.revocations && k !in db.revocations {
      if k in after.revocations && k !in db.revocations {
        assert k.auth in NewIds(db, k.user, chain(k.user).value);
      }
    }
  }

  lemma CleanUpsCountChanges(db: Db, chain: Chain, now: int)
    ensures ExpiredKeys(db, now) == db.revocations.Keys - CleanExpired(db, now).revocations.Keys
    ensures StaleKeys(db, chain, now) == db.revocations.Keys - Reconcile(db, chain, now).revocations.Keys
  {
  }

  ghost function StaleOf(db: Db, chain: Chain, now: int, u: string): set<Key> {
    set k | k in StaleKeys(db, chain, now) && k.user == u
  }

  /** The stale records of everyone but `users`. */
  ghost function StaleOutside(db: Db, chain: Chain, now: int, users: set<string>): set<Key> {
    set k | k in StaleKeys(db, chain, now) && k.user !in users
  }

  lemma StaleStep(db: Db, chain: Chain, now: int, users: set<string>, u: string)
    requires u in users
    ensures StaleOutside(db, chain, now, users - {u})
            == StaleOutside(db, chain, now, users) + StaleOf(db, chain, now, u)
    ensures StaleOutside(db, chain, now, users) !! StaleOf(db, chain, now, u)
    ensures chain(u).None? ==> StaleOf(db, chain, now, u) == {}
    ensures |StaleOutside(db, chain, now, users - {u})|
            == |StaleOutside(db, chain, now, users)| + |StaleOf(db, chain, now, u)|
  {
  }

  /** At most one state row answers to an authorization id. */
  ghost predicate UniqueRow(states: map<Key, State>, auth: string) {
    forall k, l :: k in states && l in states && k.auth == auth && l.auth == auth ==> k == l
  }

  class StateManager {
    var accounts: set<string>
    var states: map<Key, State>
    var tokens: map<TokenKey, Usage>
    var nonces: set<Nonce>
    var records: map<Key, AuthRecord>
    var revocations: map<Key, Revocation>

    ghost function Tables(): Db
      reads this
    {
      Db(accounts, states, tokens, nonces, records, revocations)
    }

    constructor ()
      ensures Tables() == EMPTY_DB
    {
      accounts, states, tokens, nonces, records, revocations := {}, map[], map[], {}, map[], map[];
    }

    // ---- revocation records --------------------------------------------------------------

    /** Records or merges a revocation and revokes the state row, creating it when it is missing. */
    method RecordRevocation(k: Key, incoming: Revocation)
      modifies this`revocations, this`states
      ensures Tables() == Record(old(Tables()), k, incoming)
    {
      if k in revocations {
        var ex := revocations[k];
        if ex.source == Platform && incoming.source == Contract {
          revocations := revocations[k := ex.(expiresAt := Coalesce(ex.expiresAt, incoming.expiresAt),
                                              hash := Coalesce(ex.hash, incoming.hash))];
        } else {
          var earliest := if incoming.revokedAt < ex.revokedAt then incoming.revokedAt else ex.revokedAt;
          revocations := revocations[k := Revocation(Coalesce(incoming.grantee, ex.grantee),
                                                     incoming.source,
                                                     earliest,
                                                     Coalesce(incoming.expiresAt, ex.expiresAt),
                                                     Coalesce(incoming.hash, ex.hash))];
        }
      } else {
        revocations := revocations[k := incoming];
      }
      if k in states {
        if states[k].status != Revoked {
          states := states[k := states[k].(status := Revoked)];
        }
      } else {
        states := states[k := State(Star(incoming.grantee), Revoked, UNUSED)];
      }
      assert states == MarkRevoked(old(states), k, incoming.grantee);
    }

    /** Deletes a record if its source is the expected one; the source is read inside the transaction. */
    method DeleteRevocation(k: Key, expected: Option<Source>, restore: bool) returns (deleted: bool)
      modifies this`revocations, this`states
      ensures deleted == Deletes(old(Tables()), k, expected)
      ensures Tables() == Delete(old(Tables()), k, expected, restore)
    {
      if k !in revocations {
        return false;
      }
      if expected.Some? && revocations[k].source != expected.value {
        return false;
      }
      revocations := revocations - {k};
      if restore && k in states && states[k].status == Revoked {
        states := states[k := states[k].(status := Active)];
      }
      assert restore ==> states == Restore(old(states), {k});
      return true;
    }

    /** Deletes every record whose expiry has passed, and says how many. */
    method CleanExpiredRevocations(now: int) returns (cleaned: nat)
      modifies this`revocations, this`states
      ensures Tables() == CleanExpired(old(Tables()), now)
      ensures cleaned == |ExpiredKeys(old(Tables()), now)|
    {
      ghost var start := Tables();
      var rows := set k | k in revocations && ExpiredBy(revocations[k], now);
      var rest := rows;
      cleaned := 0;
      DropNothing(start, false);
      assert rows - rest == {};
      while rest != {}
        invariant rest <= rows
        invariant Tables() == Drop(start, rows - rest, false)
        invariant cleaned + |rest| == |rows|
      {
        var k :| k in rest;
        var deleted := DeleteRevocation(k, None, false);
        if deleted {
          cleaned := cleaned + 1;
        }
        DropUnion(start, rows - rest, {k}, false);
        assert rows - rest + {k} == rows - (rest - {k});
        rest := rest - {k};
      }
      assert rows - rest == rows;
    }

    /** Deletes those of some contract-sourced rows whose id the chain does not list. */
    method DeleteMissing(rows: set<Key>, chainIds: set<string>) returns (deleted: nat)
      requires forall k :: k in rows ==> k in revocations && revocations[k].source.Contract?
      modifies this`revocations, this`states
      ensures Tables() == Drop(old(Tables()), set k | k in rows && k.auth !in chainIds, true)
      ensures deleted == |set k | k in rows && k.auth !in chainIds|
    {
      ghost var start := Tables();
      ghost var done: set<Key> := {};
      var rest := rows;
      deleted := 0;
      DropNothing(start, true);
      while rest != {}
        invariant rest <= rows
        invariant done == set k | k in rows && k.auth !in chainIds && k !in rest
        invariant Tables() == Drop(start, done, true)
        invariant deleted == |done|
      {
        var k :| k in rest;
        if k.auth !in chainIds {
          var removed := DeleteRevocation(k, Some(Contract), true);
          DropUnion(start, done, {k}, true);
          if removed {
            deleted := deleted + 1;
          }
          done := done + {k};
        }
        rest := rest - {k};
      }
      assert done == set k | k in rows && k.auth !in chainIds;
    }

    /** One user's part of a reconciliation: `rows` are that user's rows of the first query. */
    method ReconcileUser(u: string, rows: set<Key>, chain: Chain, now: int, ghost start: Db, ghost users: set<string>)
      returns (deleted: nat)
      requires u in users && chain(u).Some?
      requires rows == set k | k in start.revocations && start.revocations[k].source.Contract?
                                && !ExpiredBy(start.revocations[k], now) && k.user == u
      requires Tables() == Drop(start, StaleOutside(start, chain, now, users), true)
      modifies this`revocations, this`states
      ensures Tables() == Drop(start, StaleOutside(start, chain, now, users - {u}), true)
      ensures deleted == |StaleOf(start, chain, now, u)|
    {
      var chainIds := Ids(chain(u).value);
      deleted := DeleteMissing(rows, chainIds);
      assert StaleOf(start, chain, now, u) == set k | k in rows && k.auth !in chainIds;
      DropUnion(start, StaleOutside(start, chain, now, users), StaleOf(start, chain, now, u), true);
      StaleStep(start, chain, now, users, u);
    }

    /** Drops cached contract records the chain no longer has, for the users it can be asked about,
        and gives their state rows back. */
    method ReconcileContractRevocations(chain: Chain, now: int) returns (deleted: nat)
      modifies this`revocations, this`states
      ensures Tables() == Reconcile(old(Tables()), chain, now)
      ensures deleted == |StaleKeys(old(Tables()), chain, now)|
    {
      hide Restore;
      hide StaleOf;
      ghost var start := Tables();
      var candidates := set k | k in revocations && revocations[k].source.Contract? && !ExpiredBy(revocations[k], now);
      var users := set k | k in candidates :: k.user;
      deleted := 0;
      DropNothing(start, true);
      assert StaleOutside(start, chain, now, users) == {};
      while users != {}
        invariant Tables() == Drop(start, StaleOutside(start, chain, now, users), true)
        invariant deleted == |StaleOutside(start, chain, now, users)|
      {
        var u :| u in users;
        StaleStep(start, chain, now, users, u);
        if chain(u).Some? {
          var rows := set k | k in candidates && k.user == u;
          var removed := ReconcileUser(u, rows, chain, now, start, users);
          deleted := deleted + removed;
        }
        users := users - {u};
      }
      assert StaleOutside(start, chain, now, {}) == StaleKeys(start, chain, now);
    }

    /** Mirrors the whole chain: `users` are the rows of the accounts table in the order read. The
        counters report exactly the records gained and lost, and the users whose call failed. */
    method SyncRevocationsFromContract(users: seq<string>, chain: Chain)
      returns (synced: nat, deleted: nat, skippedUsers: nat)
      requires Distinct(users)
      modifies this`revocations, this`states
      ensures Tables() == Sync(old(Tables()), users, chain)
      ensures synced == |GainedKeys(old(Tables()), users, chain)|
      ensures deleted == |LostKeys(old(Tables()), users, chain)|
      ensures skippedUsers == |SkippedUsers(users, chain)|
    {
      hide GainedKeys, LostKeys, SkippedUsers, NewIds, OffChainKeys, SyncUser, Ids;
      ghost var start := Tables();
      synced, deleted, skippedUsers := 0, 0, 0;
      NothingCounted(start, chain);
      for i := 0 to |users|
        invariant Tables() == Sync(start, users[..i], chain)
        invariant synced == |GainedKeys(start, users[..i], chain)|
        invariant deleted == |LostKeys(start, users[..i], chain)|
        invariant skippedUsers == |SkippedUsers(users[..i], chain)|
      {
        SyncCountsStep(start, users, chain, i);
        var u := users[i];
        assert users[..i + 1][..i] == users[..i];
        if chain(u).None? {
          skippedUsers := skippedUsers + 1;
        } else {
          var gained, lost := SyncOneUser(u, chain(u).value);
          synced, deleted := synced + gained, deleted + lost;
        }
      }
      assert users[..|users|] == users;
    }

    /** One user's part: record every chain entry, then drop the cached records it does not name. */
    method SyncOneUser(u: string, chainRecords: seq<ChainRecord>) returns (gained: nat, lost: nat)
      modifies this`revocations, this`states
      ensures Tables() == SyncUser(old(Tables()), u, chainRecords)
      ensures lost == |OffChainKeys(old(Tables()), u, Ids(chainRecords))|
      ensures gained == |NewIds(old(Tables()), u, chainRecords)|
    {
      ghost var start := Tables();
      gained := RecordChainEntries(u, chainRecords);
      ghost var recorded := Tables();
      var chainIds := Ids(chainRecords);
      var rows := set k | k in revocations && k.user == u && revocations[k].source.Contract?;
      RecordingKeepsOffChain(start, u, chainRecords);
      assert OffChainKeys(recorded, u, chainIds) == set k | k in rows && k.auth !in chainIds;
      lost := DeleteMissing(rows, chainIds);
    }

    method RecordChainEntries(u: string, chainRecords: seq<ChainRecord>) returns (gained: nat)
      modifies this`revocations, this`states
      ensures Tables() == RecordChain(old(Tables()), u, chainRecords)
      ensures gained == |NewIds(old(Tables()), u, chainRecords)|
    {
      ghost var start := Tables();
      gained := 0;
      for i := 0 to |chainRecords|
        invariant Tables() == RecordChain(start, u, chainRecords[..i])
        invariant gained == |NewIds(start, u, chainRecords[..i])|
      {
        var rec := chainRecords[i];
        NewIdsStep(start, u, chainRecords[..i + 1]);
        assert chainRecords[..i + 1][..i] == chainRecords[..i];
        var k := Key(u, rec.auth);
        if k !in revocations {
          gained := gained + 1;
        }
        var stored := if k in records then Some(records[k].hash) else None;
        RecordRevocation(k, Revocation(rec.grantee, Contract, rec.revokedAt, None, stored));
      }
      assert chainRecords[..|chainRecords|] == chainRecords;
    }

    // ---- state rows ----------------------------------------------------------------------

    method GetOrCreateState(k: Key, grantee: string)
      modifies this`states
      ensures states == EnsureState(old(states), k, grantee)
    {
      if k !in states {
        states := states[k := State(grantee, Active, UNUSED)];
      }
    }

    /** A row a query by authorization id returns: the one there is, or one of several. */
    method GetState(auth: string) returns (row: Option<State>)
      ensures RowAmong(states, auth, row)
      ensures UniqueRow(states, auth) ==> row == RowOf(states, auth)
    {
      var rows := set k | k in states && k.auth == auth;
      if rows == {} {
        forall k | k in states ensures k.auth != auth {
          assert k !in rows;
        }
        return None;
      }
      var k :| k in rows;
      return Some(states[k]);
    }

    /** Everything stored under some authorization ids, in one transaction. */
    method DeleteAuthorizations(ids: set<string>)
      modifies this`states, this`tokens, this`nonces
      ensures Tables() == DropAuths(old(Tables()), ids)
    {
      tokens := map t | t in tokens && t.auth !in ids :: tokens[t];
      nonces := set n | n in nonces && n.auth !in ids;
      states := map k | k in states && k.auth !in ids :: states[k];
    }

    /** Removes every row that is not active, with the token rows and guids of its authorization. */
    method CleanInvalidatedStates() returns (cleaned: nat)
      modifies this`states, this`tokens, this`nonces
      ensures Tables() == CleanInvalidated(old(Tables()))
      ensures cleaned == |set k | k in old(states) && old(states)[k].status != Active|
    {
      ghost var start := Tables();
      var rows := set k | k in states && states[k].status != Active;
      var users := set k | k in rows :: k.user;
      DropNoAuths(start);
      assert InvalidOutside(start, users) == {};
      while users != {}
        invariant Tables() == DropAuths(start, InvalidOutside(start, users))
      {
        var u :| u in users;
        var ids := set k | k in rows && k.user == u :: k.auth;
        DeleteAuthorizations(ids);
        DropAuthsInParts(start, InvalidOutside(start, users), ids);
        InvalidStep(start, users, u, ids);
        users := users - {u};
      }
      assert InvalidOutside(start, {}) == InvalidAuths(start);
      return |rows|;
    }

    // ---- the signing transaction ---------------------------------------------------------

    /** Step 13, and with `inTx` the test inside the transaction. */
    method CheckLimits(auth: string, l: Limits, c: Charge, inTx: bool) returns (allowed: bool)
      ensures exists row :: RowAmong(states, auth, row) && allowed == Passes(row, auth, l, c, inTx)
      ensures UniqueRow(states, auth) ==> allowed == Passes(RowOf(states, auth), auth, l, c, inTx)
    {
      var state := GetState(auth);
      allowed := TestRow(state, auth, l, c, inTx);
    }

    ghost predicate Passes(row: Option<State>, auth: string, l: Limits, c: Charge, inTx: bool)
      reads this
    {
      var used := TokenUsed(tokens, TokenKey(auth, c.chain, c.token));
      if inTx then WithinLimitsInTx(row, used, l, c) else WithinLimits(row, used, l, c)
    }

    method TestRow(state: Option<State>, auth: string, l: Limits, c: Charge, inTx: bool) returns (allowed: bool)
      ensures allowed == Passes(state, auth, l, c, inTx)
    {
      if state.Some? && state.value.status != Active {
        return false;
      }
      var used := if state.Some? then state.value.used else UNUSED;
      var newTotalAmount := used.amount + c.amount;
      if l.amount.Enforced() && newTotalAmount > l.amount.n {
        return false;
      }
      var newTotalCount := used.count + 1;
      if l.count.Enforced() && newTotalCount > l.count.n {
        return false;
      }
      var tokenKey := LimitKey(c.chain, c.token);
      if tokenKey in l.tokens {
        var limit := l.tokens[tokenKey];
        var t := TokenKey(auth, c.chain, c.token);
        var tokenUsed := if t in tokens then tokens[t] else UNUSED;
        if limit.amount.Enforced() && tokenUsed.amount + c.amount > limit.amount.n {
          return false;
        }
        var newTokenCount := tokenUsed.count + 1;
        if inTx {
          if limit.count.Enforced() && l.count.Below(newTokenCount) {
            return false;
          }
        } else if limit.count.Enforced() && newTokenCount > limit.count.n {
          return false;
        }
      }
      return true;
    }

    /** The amount read from the row found is written to every row of the id. */
    method IncrementUsage(auth: string, c: Charge)
      modifies this`states, this`tokens
      ensures exists row :: RowAmong(old(states), auth, row) && states == ChargeStatesFrom(old(states), auth, c.amount, row)
      ensures tokens == ChargeTokens(old(tokens), auth, c)
      ensures UniqueRow(old(states), auth) ==> Tables() == ChargeOne(old(Tables()), auth, c)
      ensures states.Keys == old(states).Keys
    {
      var row := GetState(auth);
      if row.Some? {
        var newTotal := row.value.used.amount + c.amount;
        states := map k | k in states ::
          if k.auth == auth then states[k].(used := Usage(newTotal, states[k].used.count + 1)) else states[k];
      }
      assert states == ChargeStatesFrom(old(states), auth, c.amount, row);
      var t := TokenKey(auth, c.chain, c.token);
      if t !in tokens {
        tokens := tokens[t := UNUSED];
      }
      tokens := tokens[t := Usage(tokens[t].amount + c.amount, tokens[t].count + 1)];
    }

    /** Charges the tokens one after the other. */
    method ChargeEach(auth: string, charges: seq<Charge>)
      modifies this`states, this`tokens
      ensures UniqueRow(old(states), auth) ==> Tables() == ChargeAll(old(Tables()), auth, charges)
      ensures states.Keys == old(states).Keys
    {
      hide RowOf, RowAmong, ChargeStates, ChargeStatesFrom, ChargeTokens;
      for i := 0 to |charges|
        invariant UniqueRow(old(states), auth) ==> Tables() == ChargeAll(old(Tables()), auth, charges[..i])
        invariant states.Keys == old(states).Keys
      {
        assert charges[..i + 1][..i] == charges[..i];
        IncrementUsage(auth, charges[i]);
      }
      assert charges[..|charges|] == charges;
    }

    /** One transaction: guid, state row, limits, authorization text, charges; all or nothing. */
    method CommitBundle(r: Request) returns (committed: bool)
      modifies this
      ensures UniqueRow(EnsureState(old(states), r.key, r.grantee), r.key.auth) ==>
        committed == Commit(old(Tables()), r).Some? && (committed ==> Tables() == Commit(old(Tables()), r).value)
      ensures !committed ==> Tables() == old(Tables())
      ensures committed ==>
        && Nonce(r.key.auth, r.guid) !in old(nonces) && nonces == old(nonces) + {Nonce(r.key.auth, r.guid)}
        && states.Keys == old(states).Keys + {r.key}
        && records == SaveRecord(old(records), r.key, AuthRecord(r.deadline, r.hash))
      ensures revocations == old(revocations) && accounts == old(accounts)
    {
      hide RowOf, RowAmong, ChargeStates, ChargeStatesFrom, ChargeTokens, WithinLimitsInTx, WithinLimits;
      var statesBefore, tokensBefore, noncesBefore, recordsBefore := states, tokens, nonces, records;
      committed := true;
      if Nonce(r.key.auth, r.guid) in nonces {
        committed := false;
      } else {
        nonces := nonces + {Nonce(r.key.auth, r.guid)};
        GetOrCreateState(r.key, r.grantee);
        if r.limits.Some? && |r.charges| > 0 {
          committed := CheckLimits(r.key.auth, r.limits.value, r.charges[0], true);
        }
        if committed {
          if r.key !in records {
            records := records[r.key := AuthRecord(r.deadline, r.hash)];
          }
          ChargeEach(r.key.auth, r.charges);
        }
      }
      if !committed {
        states, tokens, nonces, records := statesBefore, tokensBefore, noncesBefore, recordsBefore;
      }
    }

    /** The last passkey of a user is gone: the account and its authorization data follow. */
    method CascadeAccount(user: string)
      modifies this
      ensures Tables() == Cascade(old(Tables()), user)
    {
      var auths := set k | k in states && k.user == user :: k.auth;
      nonces := set n | n in nonces && n.auth !in auths;
      tokens := map t | t in tokens && t.auth !in auths :: tokens[t];
      revocations := map k | k in revocations && k.user != user :: revocations[k];
      states := map k | k in states && k.user != user :: states[k];
      accounts := accounts - {user};
    }
  }

  function InvalidRows(db: Db): set<Key> {
    set k | k in db.states && db.states[k].status != Active
  }

  ghost function InvalidOutside(db: Db, users: set<string>): set<string> {
    set k | k in InvalidRows(db) && k.user !in users :: k.auth
  }

  lemma InvalidStep(db: Db, users: set<string>, u: string, ids: set<string>)
    requires u in users && ids == set k | k in InvalidRows(db) && k.user == u :: k.auth
    ensures InvalidOutside(db, users - {u}) == InvalidOutside(db, users) + ids
  {
  }

  lemma DropNoAuths(db: Db)
    ensures DropAuths(db, {}) == db
  {
    assert DropAuths(db, {}).states == db.states;
    assert DropAuths(db, {}).tokens == db.tokens;
    assert DropAuths(db, {}).nonces == db.nonces;
  }

  lemma DropAuthsInParts(db: Db, done: set<string>, more: set<string>)
    ensures DropAuths(DropAuths(db, done), more) == DropAuths(db, done + more)
  {
    var twice, once := DropAuths(DropAuths(db, done), more), DropAuths(db, done + more);
    assert twice.states == once.states;
    assert twice.tokens == once.tokens;
    assert twice.nonces == once.nonces;
  }

  class AuthEngine {
    const state: StateManager

    constructor (state: StateManager)
      ensures this.state == state
    {
      this.state := state;
    }

    /** Step 6: the local record first, the contract only when there is none. `answer` is what the
        contract says if asked, `store` which of the writes whose failure is swallowed go through. */
    method CheckRevocation(r: Request, now: int, answer: ContractAnswer, store: Store) returns (verdict: Verdict)
      modifies state
      ensures (state.Tables(), verdict) == RevocationStep(old(state.Tables()), r, now, answer, store)
      ensures verdict == Approved <==>
        && !LedgerLaws.Stands(old(state.Tables()), r.key, now)
        && (answer == NotRevoked || (answer == Unavailable && r.allowUnavailable))
    {
      LedgerLaws.RevocationStepIff(state.Tables(), r, now, answer, store);
      var localRevocation := if r.key in state.revocations then Some(state.revocations[r.key]) else None;
      if localRevocation.Some? && ExpiredBy(localRevocation.value, now) {
        if store.drop {
          var _ := state.DeleteRevocation(r.key, None, false);
        }
        localRevocation := None;
      }
      if localRevocation.Some? {
        var e := localRevocation.value;
        if ((e.expiresAt.None? && r.deadline.Some?) || e.hash.None?) && store.record {
          state.RecordRevocation(r.key, e.(expiresAt := Coalesce(r.deadline, e.expiresAt), hash := Some(r.hash)));
        }
        return Rejected(6);
      }
      ghost var current := state.Tables();
      assert current == DropExpired(old(state.Tables()), r.key, now, store);
      match answer {
        case RevokedOnChain(grantee, at) =>
          if store.record {
            state.RecordRevocation(r.key, Revocation(grantee, Contract, at, r.deadline, Some(r.hash)));
          }
          return Rejected(6);
        case NotRevoked =>
          var concurrent := if r.key in state.revocations then Some(state.revocations[r.key]) else None;
          if concurrent.Some? && concurrent.value.source == Contract && store.clear {
            var _ := state.DeleteRevocation(r.key, Some(Contract), true);
          }
          if store.create {
            state.GetOrCreateState(r.key, r.grantee);
          }
          return Approved;
        case Unavailable =>
          return if r.allowUnavailable then Approved else Rejected(6);
      }
    }

    method CheckLaterSteps(r: Request, now: int) returns (verdict: Verdict)
      ensures UniqueRow(state.states, r.key.auth) ==> verdict == LaterSteps(state.Tables(), r, now)
    {
      if r.deadline.Some? && r.deadline.value < now {
        return Rejected(7);
      }
      if !r.laterChecks {
        return Rejected(8);
      }
      if r.limits.Some? && |r.charges| > 0 {
        var allowed := state.CheckLimits(r.key.auth, r.limits.value, r.charges[0], false);
        if !allowed {
          return Rejected(13);
        }
      }
      return Approved;
    }

    /** The checks in their order. */
    method CheckAll(r: Request, now: int, answer: ContractAnswer, store: Store) returns (verdict: Verdict)
      modifies state
      ensures state.Tables() == Verify(old(state.Tables()), r, now, answer, store).0
      ensures UniqueRow(EnsureState(old(state.states), r.key, r.grantee), r.key.auth) ==>
        verdict == Verify(old(state.Tables()), r, now, answer, store).1
      ensures state.states.Keys <= old(state.states).Keys + {r.key}
    {
      if !r.earlierChecks {
        return Rejected(1);
      }
      RevocationStepTouchesOneRow(state.Tables(), r, now, answer, store);
      verdict := CheckRevocation(r, now, answer, store);
      if verdict.Approved? {
        verdict := CheckLaterSteps(r, now);
      }
    }
  }

  lemma StillUnique(before: map<Key, State>, after: map<Key, State>, r: Request)
    requires after.Keys <= before.Keys + {r.key}
    ensures UniqueRow(EnsureState(before, r.key, r.grantee), r.key.auth) ==>
      UniqueRow(EnsureState(after, r.key, r.grantee), r.key.auth)
  {
    assert forall k :: k in EnsureState(after, r.key, r.grantee) ==> k in EnsureState(before, r.key, r.grantee);
  }

  lemma SigningDecided(db: Db, r: Request, now: int, answer: ContractAnswer, store: Store)
    ensures UniqueRow(EnsureState(db.states, r.key, r.grantee), r.key.auth) ==>
      (Sign(db, r, now, answer, store).1 <==> LedgerLaws.SigningAllowed(db, r, now, answer, store))
  {
    hide Sign, LedgerLaws.SigningAllowed;
    if UniqueRow(EnsureState(db.states, r.key, r.grantee), r.key.auth) {
      LedgerLaws.SignedIff(db, r, now, answer, store);
    }
  }

  class TxSigningHandler {
    const state: StateManager
    const authEngine: AuthEngine

    constructor (state: StateManager)
      ensures this.state == state && authEngine.state == state
    {
      this.state := state;
      authEngine := new AuthEngine(state);
    }

    /** Verify, sign in memory, then commit; the signature is handed out only after the commit. */
    method HandleSigningRequest(r: Request, now: int, answer: ContractAnswer, store: Store) returns (success: bool)
      requires authEngine.state == state
      modifies state
      ensures UniqueRow(EnsureState(old(state.states), r.key, r.grantee), r.key.auth) ==>
        && (state.Tables(), success) == Sign(old(state.Tables()), r, now, answer, store)
        && (success <==> LedgerLaws.SigningAllowed(old(state.Tables()), r, now, answer, store))
      ensures success ==> Nonce(r.key.auth, r.guid) !in old(state.nonces)
      ensures !success ==> state.Tables() == Verify(old(state.Tables()), r, now, answer, store).0
    {
      hide Verify, Commit, EnsureState, UniqueRow, LedgerLaws.SigningAllowed;
      VerifyTouchesOneRow(state.Tables(), r, now, answer, store);
      SigningDecided(state.Tables(), r, now, answer, store);
      var verdict := authEngine.CheckAll(r, now, answer, store);
      if verdict.Rejected? {
        return false;
      }
      StillUnique(old(state.states), state.states, r);
      success := state.CommitBundle(r);
    }
  }

  class AuthRevocationHandler {
    const state: StateManager

    constructor (state: StateManager)
      ensures this.state == state
    {
      this.state := state;
    }

    /** A verified revocation forwarded by a platform. The expiry and hash come from the stored
        authorization text, or from the supplied one, which is stored in the same transaction. */
    method HandleRevoke(k: Key, grantee: string, supplied: AuthRecord, now: int)
      modifies state
      ensures state.Tables() == Revoke(old(state.Tables()), k, grantee, supplied, now)
      ensures LedgerLaws.ForwardedStored(old(state.Tables()), state.Tables(), k, grantee, supplied, now)
    {
      LedgerLaws.ForwardedIsStored(state.Tables(), k, grantee, supplied, now);
      var text := supplied;
      if k in state.records {
        text := state.records[k];
      } else {
        state.records := state.records[k := supplied];
      }
      state.RecordRevocation(k, Revocation(Some(grantee), Platform, now, text.deadline, Some(text.hash)));
    }
  }
}
