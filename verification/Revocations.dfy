/** The revocation table: two ranked sources merged into one record per (user, authorization).
    Models sgx-enclave/src/modules/state-management/state-manager.js:667-950 as functions from
    table contents to table contents; StateManagement.dfy holds the methods that compute them. */
module Revocations {
  import opened Tables

  /** One entry of the list the contract returns for a user. */
  datatype ChainRecord = ChainRecord(auth: string, grantee: Option<string>, revokedAt: int)

  /** What the contract answers for each user; None when the call throws. */
  type Chain = string -> Option<seq<ChainRecord>>

  function Lookup<K, V>(m: map<K, V>, k: K): Option<V> {
    if k in m then Some(m[k]) else None
  }

  function Min(a: int, b: int): int {
    if a <= b then a else b
  }

  // ---- recording -------------------------------------------------------------------------

  /** A contract report never overrides a platform record: it only fills in missing metadata. */
  function Merge(existing: Revocation, incoming: Revocation): Revocation {
    if existing.source.Platform? && incoming.source.Contract? then
      existing.(expiresAt := Coalesce(existing.expiresAt, incoming.expiresAt),
                hash := Coalesce(existing.hash, incoming.hash))
    else
      Revocation(Coalesce(incoming.grantee, existing.grantee),
                 incoming.source,
                 Min(existing.revokedAt, incoming.revokedAt),
                 Coalesce(incoming.expiresAt, existing.expiresAt),
                 Coalesce(incoming.hash, existing.hash))
  }

  function Merged(existing: Option<Revocation>, incoming: Revocation): Revocation {
    match existing
    case Some(e) => Merge(e, incoming)
    case None => incoming
  }

  function Star(grantee: Option<string>): string {
    if grantee.Some? then grantee.value else "*"
  }

  function MarkRevoked(states: map<Key, State>, k: Key, grantee: Option<string>): map<Key, State> {
    states[k := if k in states then states[k].(status := Revoked)
                else State(Star(grantee), Revoked, UNUSED)]
  }

  function Record(db: Db, k: Key, incoming: Revocation): Db {
    db.(revocations := db.revocations[k := Merged(Lookup(db.revocations, k), incoming)],
        states := MarkRevoked(db.states, k, incoming.grantee))
  }

  // ---- deleting --------------------------------------------------------------------------

  predicate Deletes(db: Db, k: Key, expected: Option<Source>) {
    && k in db.revocations
    && (expected.Some? ==> db.revocations[k].source == expected.value)
  }

  /** Revoked rows among `ks` become active again; every other row stays as it is. */
  function Restore(states: map<Key, State>, ks: set<Key>): map<Key, State> {
    map k | k in states ::
      if k in ks && states[k].status == Revoked then states[k].(status := Active) else states[k]
  }

  function Drop(db: Db, ks: set<Key>, restore: bool): Db {
    db.(revocations := db.revocations - ks,
        states := if restore then Restore(db.states, ks) else db.states)
  }

  function Delete(db: Db, k: Key, expected: Option<Source>, restore: bool): Db {
    if Deletes(db, k, expected) then Drop(db, {k}, restore) else db
  }

  predicate ExpiredBy(r: Revocation, now: int) {
    r.expiresAt.Some? && r.expiresAt.value <= now
  }

  function ExpiredKeys(db: Db, now: int): set<Key> {
    set k | k in db.revocations && ExpiredBy(db.revocations[k], now)
  }

  function CleanExpired(db: Db, now: int): Db {
    Drop(db, ExpiredKeys(db, now), false)
  }

  // ---- mirroring the chain ---------------------------------------------------------------

  function Ids(records: seq<ChainRecord>): set<string> {
    set r | r in records :: r.auth
  }

  /** Unexpired contract-sourced records whose user could be queried and is missing them on chain. */
  function StaleKeys(db: Db, chain: Chain, now: int): set<Key> {
    set k | k in db.revocations && Stale(db.revocations[k], k, chain, now)
  }

  predicate Stale(r: Revocation, k: Key, chain: Chain, now: int) {
    && r.source.Contract?
    && !ExpiredBy(r, now)
    && chain(k.user).Some?
    && k.auth !in Ids(chain(k.user).value)
  }

  function Reconcile(db: Db, chain: Chain, now: int): Db {
    Drop(db, StaleKeys(db, chain, now), true)
  }

  function StoredHash(db: Db, k: Key): Option<string> {
    if k in db.records then Some(db.records[k].hash) else None
  }

  /** The record a chain entry is stored as. The expiry stays empty: the stored authorization text
      was already parsed when it is parsed again (state-manager.js:566-568, 911-914). */
  function Mirrored(db: Db, user: string, r: ChainRecord): Revocation {
    Revocation(r.grantee, Contract, r.revokedAt, None, StoredHash(db, Key(user, r.auth)))
  }

  function RecordChain(db: Db, user: string, records: seq<ChainRecord>): Db {
    if records == [] then db
    else
      var before := RecordChain(db, user, records[..|records| - 1]);
      var r := records[|records| - 1];
      Record(before, Key(user, r.auth), Mirrored(before, user, r))
  }

  function OffChainKeys(db: Db, user: string, ids: set<string>): set<Key> {
    set k | k in db.revocations && k.user == user && db.revocations[k].source.Contract? && k.auth !in ids
  }

  function SyncUser(db: Db, user: string, records: seq<ChainRecord>): Db {
    var recorded := RecordChain(db, user, records);
    Drop(recorded, OffChainKeys(recorded, user, Ids(records)), true)
  }

  function Sync(db: Db, users: seq<string>, chain: Chain): Db {
    if users == [] then db
    else
      var before := Sync(db, users[..|users| - 1], chain);
      var u := users[|users| - 1];
      if chain(u).Some? then SyncUser(before, u, chain(u).value) else before
  }

  // ---- one key at a time -----------------------------------------------------------------

  /** What recording a chain list does to the record of one authorization. */
  function MirrorOne(existing: Option<Revocation>, hash: Option<string>,
                     auth: string, records: seq<ChainRecord>): Option<Revocation> {
    if records == [] then existing
    else
      var before := MirrorOne(existing, hash, auth, records[..|records| - 1]);
      var r := records[|records| - 1];
      if r.auth == auth
      then Some(Merged(before, Revocation(r.grantee, Contract, r.revokedAt, None, hash)))
      else before
  }

  ghost predicate SameElsewhere(a: Db, b: Db, user: string) {
    && a.records == b.records && a.accounts == b.accounts
    && a.tokens == b.tokens && a.nonces == b.nonces
    && (forall k: Key :: k.user != user ==>
          Lookup(a.revocations, k) == Lookup(b.revocations, k) && Lookup(a.states, k) == Lookup(b.states, k))
  }

  lemma IdsGrow(records: seq<ChainRecord>)
    requires records != []
    ensures Ids(records) == Ids(records[..|records| - 1]) + {records[|records| - 1].auth}
  {
    var front, last := records[..|records| - 1], records[|records| - 1];
    assert records == front + [last];
    forall a ensures a in Ids(records) <==> a in Ids(front) + {last.auth} {
      if a in Ids(front) {
        var r :| r in front && r.auth == a;
        assert r in records;
      }
    }
  }

  /** What recording a chain list does to the state row of one authorization. */
  function MirrorState(existing: Option<State>, auth: string, records: seq<ChainRecord>): Option<State> {
    if records == [] then existing
    else
      var before := MirrorState(existing, auth, records[..|records| - 1]);
      var r := records[|records| - 1];
      if r.auth != auth then before
      else if before.Some? then Some(before.value.(status := Revoked))
      else Some(State(Star(r.grantee), Revoked, UNUSED))
  }

  lemma {:induction false} RecordChainAt(db: Db, user: string, records: seq<ChainRecord>)
    ensures SameElsewhere(db, RecordChain(db, user, records), user)
    ensures forall k: Key :: k.user == user ==>
              && Lookup(RecordChain(db, user, records).revocations, k)
                 == MirrorOne(Lookup(db.revocations, k), StoredHash(db, k), k.auth, records)
              && Lookup(RecordChain(db, user, records).states, k)
                 == MirrorState(Lookup(db.states, k), k.auth, records)
  {
    if records != [] {
      RecordChainAt(db, user, records[..|records| - 1]);
    }
  }

  /** A named authorization ends with a revoked row; nothing is charged to a row made here. */
  lemma {:induction false} MirrorStateRevokes(existing: Option<State>, auth: string, records: seq<ChainRecord>)
    ensures auth !in Ids(records) ==> MirrorState(existing, auth, records) == existing
    ensures auth in Ids(records) && existing.Some? ==>
              MirrorState(existing, auth, records) == Some(existing.value.(status := Revoked))
    ensures auth in Ids(records) && existing.None? ==>
              && MirrorState(existing, auth, records).Some?
              && MirrorState(existing, auth, records).value.status == Revoked
              && MirrorState(existing, auth, records).value.used == UNUSED
  {
    if records != [] {
      MirrorStateRevokes(existing, auth, records[..|records| - 1]);
      IdsGrow(records);
    }
  }

  /** The last grantee a list gives for an authorization, and the earliest time. */
  function LastGrantee(auth: string, records: seq<ChainRecord>): Option<string> {
    if records == [] then None
    else
      var r := records[|records| - 1];
      var before := LastGrantee(auth, records[..|records| - 1]);
      if r.auth == auth then Coalesce(r.grantee, before) else before
  }

  function Earliest(auth: string, records: seq<ChainRecord>): Option<int> {
    if records == [] then None
    else
      var r := records[|records| - 1];
      var before := Earliest(auth, records[..|records| - 1]);
      if r.auth != auth then before
      else if before.Some? then Some(Min(before.value, r.revokedAt)) else Some(r.revokedAt)
  }

  /** The closed form of MirrorOne: a platform record keeps everything but a missing hash; any other
      record becomes contract-sourced with the last grantee and the earliest time. */
  function MirrorClosed(existing: Option<Revocation>, hash: Option<string>,
                        auth: string, records: seq<ChainRecord>): Option<Revocation> {
    var at := Earliest(auth, records);
    var grantee := LastGrantee(auth, records);
    if at.None? then existing
    else match existing
      case None => Some(Revocation(grantee, Contract, at.value, None, hash))
      case Some(e) =>
        if e.source.Platform? then Some(e.(hash := Coalesce(e.hash, hash)))
        else Some(Revocation(Coalesce(grantee, e.grantee), Contract, Min(e.revokedAt, at.value), e.expiresAt,
                             Coalesce(hash, e.hash)))
  }

  lemma {:induction false} MirrorOneClosed(existing: Option<Revocation>, hash: Option<string>,
                                           auth: string, records: seq<ChainRecord>)
    ensures MirrorOne(existing, hash, auth, records) == MirrorClosed(existing, hash, auth, records)
    ensures Earliest(auth, records).Some? <==> auth in Ids(records)
    ensures LastGrantee(auth, records).Some? ==> Earliest(auth, records).Some?
  {
    if records != [] {
      MirrorOneClosed(existing, hash, auth, records[..|records| - 1]);
      IdsGrow(records);
    }
  }

  // ---- what a sync guarantees ------------------------------------------------------------

  /** One authorization of a user whose chain list was read: the stored record after the sync. */
  ghost predicate MirrorsChain(before: Option<Revocation>, after: Option<Revocation>, onChain: bool) {
    && (before.Some? && before.value.source.Platform? ==>
          && after.Some?
          && after.value.source.Platform?
          && after.value.revokedAt == before.value.revokedAt
          && after.value.expiresAt == before.value.expiresAt
          && after.value.grantee == before.value.grantee)
    && ((after.Some? && after.value.source.Contract?) <==>
        (onChain && !(before.Some? && before.value.source.Platform?)))
  }

  function SyncedRecord(existing: Option<Revocation>, hash: Option<string>,
                        auth: string, records: seq<ChainRecord>): Option<Revocation> {
    var r := MirrorClosed(existing, hash, auth, records);
    if r.Some? && r.value.source.Contract? && auth !in Ids(records) then None else r
  }

  function SyncedState(existing: Option<Revocation>, state: Option<State>,
                       auth: string, records: seq<ChainRecord>): Option<State> {
    var s := MirrorState(state, auth, records);
    if && auth !in Ids(records)
       && existing.Some? && existing.value.source.Contract?
       && s.Some? && s.value.status == Revoked
    then Some(s.value.(status := Active)) else s
  }

  lemma SyncUserAt(db: Db, user: string, records: seq<ChainRecord>)
    ensures SameElsewhere(db, SyncUser(db, user, records), user)
    ensures forall k: Key :: k.user == user ==>
              && Lookup(SyncUser(db, user, records).revocations, k)
                 == SyncedRecord(Lookup(db.revocations, k), StoredHash(db, k), k.auth, records)
              && Lookup(SyncUser(db, user, records).states, k)
                 == SyncedState(Lookup(db.revocations, k), Lookup(db.states, k), k.auth, records)
  {
    RecordChainAt(db, user, records);
    forall k: Key | k.user == user
      ensures Lookup(SyncUser(db, user, records).revocations, k)
              == SyncedRecord(Lookup(db.revocations, k), StoredHash(db, k), k.auth, records)
      ensures Lookup(SyncUser(db, user, records).states, k)
              == SyncedState(Lookup(db.revocations, k), Lookup(db.states, k), k.auth, records)
    {
      MirrorOneClosed(Lookup(db.revocations, k), StoredHash(db, k), k.auth, records);
    }
  }

  ghost predicate Distinct<T(!new)>(s: seq<T>) {
    forall i, j :: 0 <= i < j < |s| ==> s[i] != s[j]
  }

  ghost predicate Reached(users: seq<string>, chain: Chain, k: Key) {
    k.user in users && chain(k.user).Some?
  }

  /** Key by key, a full sync does what SyncedRecord and SyncedState say for the users whose list was
      read, and nothing for anyone else. */
  lemma {:induction false} SyncAt(db: Db, users: seq<string>, chain: Chain)
    requires Distinct(users)
    ensures var after := Sync(db, users, chain);
            && (after.records, after.accounts, after.tokens, after.nonces)
               == (db.records, db.accounts, db.tokens, db.nonces)
            && (forall k: Key :: Lookup(after.revocations, k)
                  == if Reached(users, chain, k)
                     then SyncedRecord(Lookup(db.revocations, k), StoredHash(db, k), k.auth, chain(k.user).value)
                     else Lookup(db.revocations, k))
            && (forall k: Key :: Lookup(after.states, k)
                  == if Reached(users, chain, k)
                     then SyncedState(Lookup(db.revocations, k), Lookup(db.states, k), k.auth, chain(k.user).value)
                     else Lookup(db.states, k))
  {
    if users != [] {
      var front, u := users[..|users| - 1], users[|users| - 1];
      assert users == front + [u];
      SyncAt(db, front, chain);
      var before := Sync(db, front, chain);
      if chain(u).Some? {
        SyncUserAt(before, u, chain(u).value);
      }
    }
  }

  /** After a sync, for every user whose list was read: contract-sourced ids are exactly the chain's
      ids without the platform-sourced ones, and platform records keep their source and time. For
      everybody else nothing changed. */
  lemma SyncMirrorsChain(db: Db, users: seq<string>, chain: Chain, k: Key)
    requires Distinct(users)
    ensures var before := Lookup(db.revocations, k);
            var after := Lookup(Sync(db, users, chain).revocations, k);
            if Reached(users, chain, k)
            then MirrorsChain(before, after, k.auth in Ids(chain(k.user).value))
            else after == before && Lookup(Sync(db, users, chain).states, k) == Lookup(db.states, k)
  {
    SyncAt(db, users, chain);
    if Reached(users, chain, k) {
      MirrorOneClosed(Lookup(db.revocations, k), StoredHash(db, k), k.auth, chain(k.user).value);
    }
  }

  lemma SyncedTwice(existing: Option<Revocation>, state: Option<State>, hash: Option<string>,
                    auth: string, records: seq<ChainRecord>)
    ensures var once := SyncedRecord(existing, hash, auth, records);
            && SyncedRecord(once, hash, auth, records) == once
            && SyncedState(once, SyncedState(existing, state, auth, records), auth, records)
               == SyncedState(existing, state, auth, records)
  {
    MirrorOneClosed(existing, hash, auth, records);
    MirrorStateRevokes(state, auth, records);
    MirrorStateRevokes(SyncedState(existing, state, auth, records), auth, records);
  }

  /** Syncing twice against the same chain is the same as syncing once. */
  lemma SyncIsIdempotent(db: Db, users: seq<string>, chain: Chain)
    requires Distinct(users)
    ensures Sync(Sync(db, users, chain), users, chain) == Sync(db, users, chain)
  {
    var once := Sync(db, users, chain);
    var twice := Sync(once, users, chain);
    SyncAt(db, users, chain);
    SyncAt(once, users, chain);
    forall k: Key
      ensures Lookup(twice.revocations, k) == Lookup(once.revocations, k)
      ensures Lookup(twice.states, k) == Lookup(once.states, k)
    {
      if Reached(users, chain, k) {
        SyncedTwice(Lookup(db.revocations, k), Lookup(db.states, k), StoredHash(db, k), k.auth, chain(k.user).value);
      }
    }
    LookupExtensional(twice.revocations, once.revocations);
    LookupExtensional(twice.states, once.states);
  }

  lemma LookupExtensional<K(!new), V>(m: map<K, V>, n: map<K, V>)
    requires forall k: K :: Lookup(m, k) == Lookup(n, k)
    ensures m == n
  {
    forall k: K ensures k in m <==> k in n
    {
      assert Lookup(m, k) == Lookup(n, k);
    }
    forall k: K | k in m ensures m[k] == n[k]
    {
      assert Lookup(m, k) == Lookup(n, k);
    }
  }
}
