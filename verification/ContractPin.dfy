/** The pinned contract identity over boots, refreshes and migrations: contract-client/index.js and
    contract-pin-store.js. A read is given with the identity of the contract it came from. */
module ContractPin {
  import opened Tables

  datatype Identity = Identity(rpcUrl: string, chainId: int, contractAddress: string)

  datatype Target = Target(identity: Identity, cert: string)

  /** What a contract returns: whether it has runtime params, its flag and certificate, and where it wants
      its nodes to move. `origin` is the contract that was read. */
  datatype Data = Data(
    origin: Identity,
    hasParams: bool,
    allowNonRaTls: bool,
    cert: string,
    migration: Option<Target>)

  /** The single row of the pinned_contract table. */
  datatype Pinned = Pinned(identity: Identity, allowNonRaTls: bool, cert: string, snapshot: Data)

  datatype Mode = SaveMode | IdentityMode

  datatype Queued = Queued(mode: Mode, record: Pinned)

  /** The store: its row, whether the engine has been injected, and the one write queued until then. */
  datatype Store = Store(row: Option<Pinned>, engine: bool, pending: Option<Queued>)

  datatype Cache = Defaults | FromEnv | FromData(data: Data)

  /** A migration under way: where to, and which contract's data asked for it. */
  datatype Migration = Migration(target: Target, declaredBy: Identity)

  /** The client of one process; without a complete identity it reads nothing. */
  datatype Client = Client(
    identity: Option<Identity>,
    cert: string,
    pinned: bool,
    cache: Cache,
    inFlight: multiset<Migration>)

  datatype World = World(store: Store, client: Client)

  /** `ok` says whether the engine's write goes through. */
  datatype Event =
    | Booted(env: Option<Identity>, envCert: string, read: Option<Data>)
    | EngineSet(ok: bool)
    | Refreshed(data: Data, ok: bool)
    | Migrated(m: Migration, read: Option<Data>, ok: bool)

  // ---- the store -------------------------------------------------------------------------

  /** A row that exists keeps its identity; only the snapshot is replaced. */
  function WriteSave(row: Option<Pinned>, record: Pinned): Pinned {
    if row.None? then record else row.value.(snapshot := record.snapshot)
  }

  function Write(row: Option<Pinned>, q: Queued): Pinned {
    if q.mode.SaveMode? then WriteSave(row, q.record) else q.record
  }

  /** Before the engine is there the write is queued, over any write queued before. */
  function Put(s: Store, q: Queued, ok: bool): Store {
    if !s.engine then s.(pending := Some(q))
    else if ok then s.(row := Some(Write(s.row, q)))
    else s
  }

  function SetEngine(s: Store, ok: bool): Store {
    if s.pending.Some? && ok then Store(Some(Write(s.row, s.pending.value)), true, None)
    else Store(s.row, true, None)
  }

  // ---- the client ------------------------------------------------------------------------

  function Either(a: string, b: string): string {
    if a != "" then a else b
  }

  /** The row, if there is one, replaces what the environment says. */
  function LoadPin(row: Option<Pinned>, env: Option<Identity>, envCert: string): Client {
    if row.Some? then Client(Some(row.value.identity), row.value.cert, true, FromData(row.value.snapshot), multiset{})
    else Client(env, envCert, false, Defaults, multiset{})
  }

  function RecordOf(identity: Identity, cert: string, data: Data): Pinned {
    Pinned(identity, data.hasParams && data.allowNonRaTls, Either(data.cert, cert), data)
  }

  /** A read that succeeded: the cache is replaced, the pin saved, and a declared migration started. */
  function Apply(w: World, data: Data, ok: bool): World {
    if w.client.identity.None? then w
    else
      var c := w.client;
      var record := RecordOf(c.identity.value, c.cert, data);
      var saved := !w.store.engine || ok;
      World(Put(w.store, Queued(SaveMode, record), ok),
            c.(cache := FromData(data),
               cert := if saved then record.cert else c.cert,
               pinned := c.pinned || saved,
               inFlight := c.inFlight + Started(c.identity.value, data)))
  }

  function Started(identity: Identity, data: Data): multiset<Migration> {
    if data.migration.Some? && data.migration.value.identity != identity
    then multiset{Migration(data.migration.value, data.origin)} else multiset{}
  }

  function Boot(s: Store, env: Option<Identity>, envCert: string, read: Option<Data>): World {
    var stored := Store(s.row, false, None);
    var c := LoadPin(s.row, env, envCert);
    if read.Some? && c.identity.Some? then Apply(World(stored, c), read.value, true)
    else if !c.pinned && c.identity.None? then World(stored, c.(cache := FromEnv))
    else World(stored, c)
  }

  /** The target is switched to once its own contract has been read and has runtime params. */
  function Migrate(w: World, m: Migration, data: Option<Data>, ok: bool): World {
    if m !in w.client.inFlight then w
    else
      var c := w.client.(inFlight := w.client.inFlight - multiset{m});
      if data.None? || !data.value.hasParams || (w.store.engine && !ok) then World(w.store, c)
      else
        var record := RecordOf(m.target.identity, m.target.cert, data.value);
        World(Put(w.store, Queued(IdentityMode, record), ok),
              c.(identity := Some(m.target.identity),
                 cert := record.cert,
                 pinned := true,
                 cache := FromData(data.value)))
  }

  function Step(w: World, e: Event): World {
    match e
    case Booted(env, envCert, read) => Boot(w.store, env, envCert, read)
    case EngineSet(ok) => w.(store := SetEngine(w.store, ok))
    case Refreshed(data, ok) => Apply(w, data, ok)
    case Migrated(m, data, ok) => Migrate(w, m, data, ok)
  }

  function After(w: World, events: seq<Event>): World {
    if events == [] then w else Step(After(w, events[..|events| - 1]), events[|events| - 1])
  }

  // ---- what every run keeps --------------------------------------------------------------

  /** A read comes from the contract it was asked of; a migration reads its target. */
  predicate Genuine(w: World, e: Event) {
    match e
    case Booted(env, envCert, read) => read.Some? ==> Some(read.value.origin) == LoadPin(w.store.row, env, envCert).identity
    case Migrated(m, data, _) => data.Some? ==> data.value.origin == m.target.identity
    case _ => true
  }

  /** No refresh comes back after its contract was left, and no migration finishes while writes are still
      queued. */
  predicate Timely(w: World, e: Event) {
    match e
    case Refreshed(data, _) => Some(data.origin) == w.client.identity
    case Migrated(_, _, _) => w.store.engine
    case _ => true
  }

  /** The stored snapshot came from the stored identity, and the client works with that identity. */
  predicate PinHolds(w: World) {
    && (w.store.row.Some? ==>
          && w.store.row.value.snapshot.origin == w.store.row.value.identity
          && w.client.identity == Some(w.store.row.value.identity))
    && (w.store.pending.Some? ==>
          var q := w.store.pending.value;
          && q.mode.SaveMode? && !w.store.engine
          && q.record.snapshot.origin == q.record.identity
          && w.client.identity == Some(q.record.identity))
  }

  lemma StepKeepsPin(w: World, e: Event)
    requires PinHolds(w) && Genuine(w, e) && Timely(w, e)
    ensures PinHolds(Step(w, e))
  {
  }

  ghost predicate RegularRun(w: World, events: seq<Event>) {
    forall i :: 0 <= i < |events| ==>
      Genuine(After(w, events[..i]), events[i]) && Timely(After(w, events[..i]), events[i])
  }

  lemma PrefixIsRegular(w: World, events: seq<Event>, n: nat)
    requires RegularRun(w, events) && n <= |events|
    ensures RegularRun(w, events[..n])
  {
    forall i | 0 <= i < n
      ensures Genuine(After(w, events[..n][..i]), events[..n][i]) && Timely(After(w, events[..n][..i]), events[..n][i])
    {
      assert events[..n][..i] == events[..i];
    }
  }

  lemma OneMoreStep(w: World, events: seq<Event>, i: nat)
    requires i < |events|
    ensures After(w, events[..i + 1]) == Step(After(w, events[..i]), events[i])
  {
    assert events[..i + 1][..i] == events[..i];
  }

  /** In every reachable state the stored snapshot came from the stored identity. */
  lemma {:induction false} ReachablePinHolds(w: World, events: seq<Event>)
    requires PinHolds(w) && RegularRun(w, events)
    ensures PinHolds(After(w, events))
  {
    hide Step, PinHolds, Genuine, Timely;
    if events != [] {
      var n := |events| - 1;
      PrefixIsRegular(w, events, n);
      ReachablePinHolds(w, events[..n]);
      StepKeepsPin(After(w, events[..n]), events[n]);
    }
  }

  // ---- where migrations come from --------------------------------------------------------

  /** What a step read from a contract and applied, if it did. */
  function AppliedRead(w: World, e: Event): Option<Data> {
    match e
    case Booted(env, envCert, read) => if LoadPin(w.store.row, env, envCert).identity.Some? then read else None
    case Refreshed(data, _) => if w.client.identity.Some? then Some(data) else None
    case _ => None
  }

  /** What a step read declares this migration. */
  predicate Declares(w: World, e: Event, m: Migration) {
    && AppliedRead(w, e).Some?
    && AppliedRead(w, e).value.origin == m.declaredBy
    && AppliedRead(w, e).value.migration == Some(m.target)
  }

  /** Step s declares m, and no step from there up to i does so again. */
  ghost predicate LastDeclared(w: World, events: seq<Event>, m: Migration, s: nat, i: nat) {
    && s < i <= |events| && Declares(After(w, events[..s]), events[s], m)
    && forall k :: s < k < i ==> !Declares(After(w, events[..k]), events[k], m)
  }

  lemma NewInFlightIsDeclared(w: World, e: Event, m: Migration)
    requires m in Step(w, e).client.inFlight && m !in w.client.inFlight
    ensures Declares(w, e, m)
  {
  }

  /** Every migration under way was declared in a read of the run: the contract named as its declarer
      returned its target. */
  lemma {:induction false} InFlightWasDeclared(w: World, events: seq<Event>, m: Migration, i: nat) returns (s: nat)
    requires w.client.inFlight == multiset{} && i <= |events|
    requires m in After(w, events[..i]).client.inFlight
    ensures LastDeclared(w, events, m, s, i)
  {
    hide Step, Declares;
    assert i > 0;
    OneMoreStep(w, events, i - 1);
    var before := After(w, events[..i - 1]);
    if Declares(before, events[i - 1], m) {
      s := i - 1;
    } else {
      if m !in before.client.inFlight {
        NewInFlightIsDeclared(before, events[i - 1], m);
      }
      s := InFlightWasDeclared(w, events, m, i - 1);
    }
  }

  /** A regular step declares migrations only of the contract that is current after it. */
  lemma DeclarerIsCurrent(w: World, e: Event, m: Migration)
    requires Genuine(w, e) && Timely(w, e) && Declares(w, e, m)
    ensures Step(w, e).client.identity == Some(m.declaredBy)
  {
  }

  /** At any moment of a regular run, a migration under way was declared by the contract that is current if
      and only if the node is where it was when the migration was last started. */
  lemma DeclaredByTheCurrentIff(w: World, events: seq<Event>, m: Migration, s: nat, i: nat)
    requires RegularRun(w, events) && LastDeclared(w, events, m, s, i)
    ensures After(w, events[..i]).client.identity == Some(m.declaredBy) <==>
      After(w, events[..i]).client.identity == After(w, events[..s + 1]).client.identity
  {
    hide Step, Declares, Genuine, Timely;
    OneMoreStep(w, events, s);
    DeclarerIsCurrent(After(w, events[..s]), events[s], m);
  }

  predicate AllDeclaredByTheCurrent(w: World) {
    forall m :: m in w.client.inFlight ==> w.client.identity == Some(m.declaredBy)
  }

  /** A regular step that does not move the node keeps every migration under way declared by the contract
      that is current. */
  lemma UnmovedNodeKeepsItsDeclarer(w: World, e: Event)
    requires AllDeclaredByTheCurrent(w) && Genuine(w, e) && Timely(w, e)
    requires Step(w, e).client.identity == w.client.identity
    ensures AllDeclaredByTheCurrent(Step(w, e))
  {
    forall m | m in Step(w, e).client.inFlight ensures Step(w, e).client.identity == Some(m.declaredBy) {
      if m !in w.client.inFlight {
        NewInFlightIsDeclared(w, e, m);
        DeclarerIsCurrent(w, e, m);
      }
    }
  }

  /** No step moves the node between the last declaration of a migration and its end. */
  ghost predicate NotOvertaken(w: World, events: seq<Event>) {
    forall i, s, k :: 0 <= s < k < i < |events| && events[i].Migrated? && LastDeclared(w, events, events[i].m, s, i) ==>
      After(w, events[..k + 1]).client.identity == After(w, events[..k]).client.identity
  }

  lemma {:induction false} UnmovedStaysPut(w: World, events: seq<Event>, s: nat, i: nat)
    requires s < i <= |events|
    requires forall k :: s < k < i ==> After(w, events[..k + 1]).client.identity == After(w, events[..k]).client.identity
    ensures After(w, events[..i]).client.identity == After(w, events[..s + 1]).client.identity
  {
    hide After;
    if s + 1 < i {
      UnmovedStaysPut(w, events, s, i - 1);
      assert i == (i - 1) + 1;
    }
  }

  // ---- how the stored identity changes ---------------------------------------------------

  /** The node moves, and its row with it, by a finished migration whose target's own read returned
      runtime params. */
  predicate MovesTo(w: World, e: Event, identity: Identity) {
    && e.Migrated? && e.m in w.client.inFlight && e.m.target.identity == identity
    && e.read.Some? && e.read.value.hasParams && e.read.value.origin == identity
  }

  /** The stored identity appears with the identity of a contract that has been read, and afterwards changes,
      and the flag and the certificate pinned with it, only by a finished migration. */
  lemma IdentityChangesOnlyByMigration(w: World, e: Event)
    requires PinHolds(w) && Genuine(w, e) && Timely(w, e)
    ensures var before, after := w.store.row, Step(w, e).store.row;
      && (before.Some? ==> after.Some?)
      && (before.None? && after.Some? ==>
            && after.value.snapshot.origin == after.value.identity
            && (w.client.identity == Some(after.value.identity) || MovesTo(w, e, after.value.identity)))
      && (before.Some? && after.Some? && after.value.(snapshot := before.value.snapshot) != before.value ==>
            MovesTo(w, e, after.value.identity))
  {
  }

  /** Over every regular run in which no migration is overtaken: when a step changes what is pinned, the
      contract pinned until then declared the new identity as its migration target, in a read made earlier in
      the run, and the new contract's own read returned runtime params. */
  lemma IdentityFollowsDeclarations(w: World, events: seq<Event>, i: nat) returns (s: nat)
    requires PinHolds(w) && w.client.inFlight == multiset{} && RegularRun(w, events) && NotOvertaken(w, events)
    requires i < |events| && After(w, events[..i]).store.row.Some?
    requires var before, after := After(w, events[..i]).store.row, After(w, events[..i + 1]).store.row;
      after.Some? && after.value.(snapshot := before.value.snapshot) != before.value
    ensures s < i && AppliedRead(After(w, events[..s]), events[s]).Some?
    ensures var declared := AppliedRead(After(w, events[..s]), events[s]).value;
      && declared.origin == After(w, events[..i]).store.row.value.identity
      && declared.migration.Some?
      && MovesTo(After(w, events[..i]), events[i], declared.migration.value.identity)
      && After(w, events[..i + 1]).store.row.value.identity == declared.migration.value.identity
  {
    hide Step, Genuine, Timely;
    var now := After(w, events[..i]);
    OneMoreStep(w, events, i);
    PrefixIsRegular(w, events, i);
    ReachablePinHolds(w, events[..i]);
    IdentityChangesOnlyByMigration(now, events[i]);
    var m := events[i].m;
    s := InFlightWasDeclared(w, events, m, i);
    UnmovedStaysPut(w, events, s, i);
    DeclaredByTheCurrentIff(w, events, m, s, i);
  }

  /** Once a contract is pinned, a boot does not depend on the environment at all. */
  lemma EnvironmentNeverReplacesThePin(s: Store, env: Option<Identity>, cert: string,
                                       env': Option<Identity>, cert': string, read: Option<Data>)
    requires s.row.Some?
    ensures Boot(s, env, cert, read) == Boot(s, env', cert', read)
    ensures Boot(s, env, cert, read).client.identity == Some(s.row.value.identity)
    ensures Boot(s, env, cert, read).client.cache != FromEnv
    ensures Boot(s, env, cert, read).store.row == s.row
  {
  }

  lemma StepKeepsARow(w: World, e: Event)
    requires w.store.row.Some?
    ensures Step(w, e).store.row.Some?
  {
  }

  lemma {:induction false} PinnedForever(w: World, events: seq<Event>)
    requires w.store.row.Some?
    ensures After(w, events).store.row.Some?
  {
    hide Step;
    if events != [] {
      PinnedForever(w, events[..|events| - 1]);
      StepKeepsARow(After(w, events[..|events| - 1]), events[|events| - 1]);
    }
  }

  /** The pinned identity, flag and certificate of two states are the same. */
  predicate SamePin(a: Store, b: Store) {
    a.row.Some? && b.row.Some? && a.row.value.(snapshot := b.row.value.snapshot) == b.row.value
  }

  predicate OnlySavesQueued(s: Store) {
    s.pending.Some? ==> s.pending.value.mode.SaveMode?
  }

  lemma OtherStepsKeepThePin(w: World, e: Event)
    requires w.store.row.Some? && OnlySavesQueued(w.store) && !e.Migrated?
    ensures SamePin(w.store, Step(w, e).store) && OnlySavesQueued(Step(w, e).store)
  {
  }

  /** Without a finished migration the pinned identity, flag and certificate stay as they are for ever,
      whatever boots, refreshes, late reads and failing writes there are. */
  lemma {:induction false} OnlyMigrationsMoveThePin(w: World, events: seq<Event>)
    requires w.store.row.Some? && OnlySavesQueued(w.store)
    requires forall i :: 0 <= i < |events| ==> !events[i].Migrated?
    ensures SamePin(w.store, After(w, events).store) && OnlySavesQueued(After(w, events).store)
  {
    hide Step;
    if events != [] {
      OnlyMigrationsMoveThePin(w, events[..|events| - 1]);
      OtherStepsKeepThePin(After(w, events[..|events| - 1]), events[|events| - 1]);
    }
  }

  // ---- what the conditions shut out ------------------------------------------------------

  /** A refresh keeps the snapshot with its identity if and only if it did not come back late. */
  lemma RefreshKeepsPinIff(w: World, data: Data)
    requires PinHolds(w) && w.client.identity.Some?
    ensures PinHolds(Step(w, Refreshed(data, true))) <==> Some(data.origin) == w.client.identity
  {
  }

  /** A migration that finishes before the engine is there, followed by a refresh of the new contract, is
      lost at the flush: the row keeps the old identity and gets the new contract's snapshot. */
  lemma QueuedMigrationIsLost(w: World, m: Migration, data: Data, fresh': Data)
    requires PinHolds(w) && w.store.row.Some? && !w.store.engine
    requires m in w.client.inFlight && m.target.identity != w.store.row.value.identity
    requires data.hasParams && data.origin == m.target.identity == fresh'.origin
    ensures var after := After(w, [Migrated(m, Some(data), true), Refreshed(fresh', true), EngineSet(true)]);
      && after.store.row.Some? && after.store.row.value.identity == w.store.row.value.identity
      && after.client.identity == Some(m.target.identity)
      && !PinHolds(after)
  {
    var events := [Migrated(m, Some(data), true), Refreshed(fresh', true), EngineSet(true)];
    assert events[..2][..1] == events[..1] && events[..1][..0] == [];
    assert After(w, events[..1]) == Step(w, events[0]);
    assert After(w, events[..2]) == Step(After(w, events[..1]), events[1]);
    assert After(w, events) == Step(After(w, events[..2]), events[2]);
  }

  /** A regular refresh that declares another contract puts a migration in flight, and moves nothing. */
  lemma RefreshStartsMigration(w: World, data: Data)
    requires w.store.engine && w.store.row.Some? && w.client.identity == Some(data.origin)
    requires data.migration.Some? && data.migration.value.identity != data.origin
    ensures var next := Step(w, Refreshed(data, true));
      && next.store.engine && next.client.identity == w.client.identity
      && next.store.row == Some(w.store.row.value.(snapshot := data))
      && next.client.inFlight == w.client.inFlight + multiset{Migration(data.migration.value, data.origin)}
  {
  }

  lemma MigrationMoves(w: World, m: Migration, data: Data)
    requires w.store.engine && m in w.client.inFlight && data.hasParams
    ensures var next := Step(w, Migrated(m, Some(data), true));
      && next.store == w.store.(row := Some(RecordOf(m.target.identity, m.target.cert, data)))
      && next.client.identity == Some(m.target.identity)
      && next.client.inFlight == w.client.inFlight - multiset{m}
  {
  }

  /** The run meant for it: from any pinned state the current contract declares a target, which answers with
      runtime params; nothing is overtaken, and the pin follows. */
  lemma DeclaredMigrationMoves(w: World, declaring: Data, target: Data) returns (events: seq<Event>)
    requires PinHolds(w) && w.store.engine && w.store.row.Some? && w.client.inFlight == multiset{}
    requires w.client.identity == Some(declaring.origin)
    requires declaring.migration.Some? && declaring.migration.value.identity == target.origin != declaring.origin
    requires target.hasParams
    ensures |events| == 2 && RegularRun(w, events) && NotOvertaken(w, events)
    ensures After(w, events).store.row.Some? && After(w, events).store.row.value.identity == target.origin
    ensures PinHolds(After(w, events)) && After(w, events).client.inFlight == multiset{}
  {
    hide Step, LastDeclared;
    var m := Migration(declaring.migration.value, declaring.origin);
    events := [Refreshed(declaring, true), Migrated(m, Some(target), true)];
    OneMoreStep(w, events, 0);
    OneMoreStep(w, events, 1);
    assert events[..0] == [] && events[..2] == events;
    RefreshStartsMigration(w, declaring);
    MigrationMoves(After(w, events[..1]), m, target);
    ReachablePinHolds(w, events);
  }

  lemma FirstSteps(w: World, events: seq<Event>)
    requires |events| == 4
    ensures After(w, events[..0]) == w
    ensures After(w, events[..1]) == Step(w, events[0])
    ensures After(w, events[..2]) == Step(After(w, events[..1]), events[1])
    ensures After(w, events[..3]) == Step(After(w, events[..2]), events[2])
    ensures After(w, events[..4]) == Step(After(w, events[..3]), events[3])
    ensures events[..4] == events
  {
    hide Step;
    OneMoreStep(w, events, 0);
    OneMoreStep(w, events, 1);
    OneMoreStep(w, events, 2);
    OneMoreStep(w, events, 3);
  }

  /** An overtaken migration still moves the node: from any pinned state a contract declares b, then c; the
      node moves to b, and from there to c, although b declared nothing. The run is regular. */
  lemma OvertakenMigrationStillMoves(w: World, toB: Data, toC: Data, b: Data, c: Data) returns (events: seq<Event>)
    requires w.store.engine && w.store.row.Some?
    requires w.client.identity == Some(toB.origin) && w.client.identity == Some(toC.origin)
    requires toB.migration.Some? && toB.migration.value.identity == b.origin != toB.origin && b.hasParams
    requires toC.migration.Some? && toC.migration.value.identity == c.origin != toC.origin && c.hasParams
    ensures |events| == 4 && RegularRun(w, events)
    ensures After(w, events[..3]).store.row.Some? && After(w, events[..3]).store.row.value.identity == b.origin
    ensures After(w, events).store.row.Some? && After(w, events).store.row.value.identity == c.origin
    ensures forall i :: 0 <= i < 4 ==>
      var read := AppliedRead(After(w, events[..i]), events[i]);
      read.Some? ==> read.value.origin == toB.origin
  {
    hide Step;
    var m, n := Migration(toB.migration.value, toB.origin), Migration(toC.migration.value, toC.origin);
    events := [Refreshed(toB, true), Refreshed(toC, true), Migrated(m, Some(b), true), Migrated(n, Some(c), true)];
    FirstSteps(w, events);
    RefreshStartsMigration(w, toB);
    RefreshStartsMigration(After(w, events[..1]), toC);
    MigrationMoves(After(w, events[..2]), m, b);
    MigrationMoves(After(w, events[..3]), n, c);
  }
}
