/** What each event does to the pin and the client, field by field, and trust on first use over whole runs. */
module PinLaws {
  import opened Tables
  import opened ContractPin

  /** What a read of a contract is pinned as: the flag counts only with runtime params, and a contract without
      a certificate keeps the one the node has. */
  predicate PinnedAs(p: Pinned, identity: Identity, cert: string, data: Data) {
    && p.identity == identity && p.snapshot == data
    && (p.allowNonRaTls <==> data.hasParams && data.allowNonRaTls)
    && p.cert == if data.cert == "" then cert else data.cert
  }

  /** A record saved over a row leaves it everything but the snapshot. */
  predicate SavedAs(row: Option<Pinned>, next: Option<Pinned>, record: Pinned) {
    next.Some? && next.value == match row
      case None => record
      case Some(r) => Pinned(r.identity, r.allowNonRaTls, r.cert, record.snapshot)
  }

  /** A migration starts when the data names a target that is not where the node is. */
  function Declared(identity: Identity, data: Data): multiset<Migration> {
    match data.migration
    case None => multiset{}
    case Some(target) =>
      if target.identity == identity then multiset{} else multiset{Migration(target, data.origin)}
  }

  /** A boot goes by the row if there is one and by the environment only if not. A read that succeeds fills the
      cache and queues its record for the engine; otherwise the snapshot serves, or the environment when there
      is no identity at all. */
  lemma BootIs(w: World, env: Option<Identity>, envCert: string, read: Option<Data>)
    ensures var next := Step(w, Booted(env, envCert, read));
      var identity := match w.store.row case Some(r) => Some(r.identity) case None => env;
      var cert := match w.store.row case Some(r) => r.cert case None => envCert;
      && next.store.row == w.store.row && !next.store.engine && next.client.identity == identity
      && (if identity != None && read != None then
            && next.store.pending.Some? && next.store.pending.value.mode == SaveMode
            && PinnedAs(next.store.pending.value.record, identity.value, cert, read.value)
            && next.client.cert == next.store.pending.value.record.cert
            && next.client.pinned && next.client.cache == FromData(read.value)
            && next.client.inFlight == Declared(identity.value, read.value)
          else
            && next.store.pending == None && next.client.cert == cert && next.client.inFlight == multiset{}
            && (next.client.pinned <==> w.store.row != None)
            && next.client.cache == match w.store.row
                 case Some(r) => FromData(r.snapshot)
                 case None => if env == None then FromEnv else Defaults)
  {
  }

  /** When the engine comes, the write queued last is made: a save leaves an existing row its identity, a move
      replaces the row. */
  lemma EngineSetIs(w: World, ok: bool)
    ensures var next := Step(w, EngineSet(ok));
      && next.client == w.client && next.store.engine && next.store.pending == None
      && match w.store.pending
         case None => next.store.row == w.store.row
         case Some(q) =>
           if !ok then next.store.row == w.store.row
           else if q.mode == IdentityMode then next.store.row == Some(q.record)
           else SavedAs(w.store.row, next.store.row, q.record)
  {
  }

  predicate RefreshSaved(w: World, next: World, identity: Identity, data: Data, record: Pinned) {
    && PinnedAs(record, identity, w.client.cert, data) && next.client.cert == record.cert
    && (if w.store.engine then SavedAs(w.store.row, next.store.row, record) && next.store.pending == w.store.pending
        else next.store == w.store.(pending := Some(Queued(SaveMode, record))))
  }

  /** A refresh of a client with an identity fills the cache, starts a declared migration, and saves its record
      or, before the engine, queues it; a save that fails leaves row, flag and certificate. */
  lemma RefreshIs(w: World, data: Data, ok: bool)
    ensures var next := Step(w, Refreshed(data, ok));
      match w.client.identity
      case None => next == w
      case Some(identity) =>
        && next.store.engine == w.store.engine && next.client.identity == w.client.identity
        && next.client.cache == FromData(data)
        && next.client.inFlight == w.client.inFlight + Declared(identity, data)
        && (if w.store.engine && !ok then
              next.store == w.store && next.client.pinned == w.client.pinned && next.client.cert == w.client.cert
            else next.client.pinned && exists record :: RefreshSaved(w, next, identity, data, record))
  {
    if w.client.identity.Some? && !(w.store.engine && !ok) {
      var identity := w.client.identity.value;
      assert RefreshSaved(w, Step(w, Refreshed(data, ok)), identity, data, RecordOf(identity, w.client.cert, data));
    }
  }

  predicate MoveWritten(w: World, next: World, target: Target, data: Data, record: Pinned) {
    && PinnedAs(record, target.identity, target.cert, data) && next.client.cert == record.cert
    && (if w.store.engine then next.store == w.store.(row := Some(record))
        else next.store == w.store.(pending := Some(Queued(IdentityMode, record))))
  }

  /** A migration under way ends. If its target was read and has runtime params, and the engine took the write
      or is not there yet, the node moves: row, or queue, and client are the target's. Otherwise nothing moves. */
  lemma MigrationIs(w: World, m: Migration, read: Option<Data>, ok: bool)
    requires m in w.client.inFlight
    ensures var next := Step(w, Migrated(m, read, ok));
      && next.client.inFlight == w.client.inFlight - multiset{m}
      && (if read == None || !read.value.hasParams || (w.store.engine && !ok) then
            next.store == w.store && next.client == w.client.(inFlight := w.client.inFlight - multiset{m})
          else
            && next.client.identity == Some(m.target.identity)
            && next.client.pinned && next.client.cache == FromData(read.value)
            && exists record :: MoveWritten(w, next, m.target, read.value, record))
  {
    if read.Some? && read.value.hasParams && !(w.store.engine && !ok) {
      var record := RecordOf(m.target.identity, m.target.cert, read.value);
      assert MoveWritten(w, Step(w, Migrated(m, read, ok)), m.target, read.value, record);
    }
  }

  lemma UnknownMigrationIsIgnored(w: World, m: Migration, read: Option<Data>, ok: bool)
    requires m !in w.client.inFlight
    ensures Step(w, Migrated(m, read, ok)) == w
  {
  }

  lemma {:induction false} AfterInParts(w: World, a: seq<Event>, b: seq<Event>)
    ensures After(w, a + b) == After(After(w, a), b)
  {
    hide Step;
    if b == [] {
      assert a + b == a;
    } else {
      var n := |b| - 1;
      AfterInParts(w, a, b[..n]);
      assert (a + b)[..|a + b| - 1] == a + b[..n];
    }
  }

  /** Trust on first use. A node that has no pin boots, reads the contract its environment names and gets its
      engine; from then on, whatever later boots with whatever environment, refreshes and failing writes come,
      what is pinned is that contract with the flag and certificate of that first read, until a migration. */
  lemma TrustOnFirstUse(w: World, identity: Identity, cert: string, data: Data, later: seq<Event>)
    requires w.store.row == None
    requires forall i :: 0 <= i < |later| ==> !later[i].Migrated?
    ensures var row := After(w, [Booted(Some(identity), cert, Some(data)), EngineSet(true)] + later).store.row;
      row.Some? && PinnedAs(row.value.(snapshot := data), identity, cert, data)
  {
    hide Step;
    var first := [Booted(Some(identity), cert, Some(data)), EngineSet(true)];
    OneMoreStep(w, first, 0);
    OneMoreStep(w, first, 1);
    assert first[..0] == [] && first[..2] == first;
    BootIs(w, Some(identity), cert, Some(data));
    EngineSetIs(After(w, first[..1]), true);
    AfterInParts(w, first, later);
    OnlyMigrationsMoveThePin(After(w, first), later);
  }
}
