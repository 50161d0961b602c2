/** The pin store and the contract client as objects, tied to ContractPin.dfy. Reading a contract over the
    network is a parameter: None when it failed. */
module ContractClient {
  import opened Tables
  import opened ContractPin

  class ContractPinStore {
    var row: Option<Pinned>
    var engine: bool
    var pending: Option<Queued>

    /** A process starts with the row it finds on disk and with nothing queued. */
    constructor (row: Option<Pinned>)
      ensures Contents() == Store(row, false, None)
    {
      this.row := row;
      engine := false;
      pending := None;
    }

    ghost function Contents(): Store
      reads this
    {
      Store(row, engine, pending)
    }

    method SetEngine(ok: bool) returns (thrown: bool)
      modifies this
      ensures Contents() == ContractPin.SetEngine(old(Contents()), ok)
      ensures thrown <==> old(pending).Some? && !ok
    {
      engine := true;
      thrown := false;
      if pending.Some? {
        var q := pending.value;
        pending := None;
        if q.mode.IdentityMode? {
          thrown := WriteIdentity(q.record, ok);
        } else {
          thrown := WriteSave(q.record, ok);
        }
      }
    }

    method Save(record: Pinned, ok: bool) returns (thrown: bool)
      modifies this
      ensures Contents() == Put(old(Contents()), Queued(SaveMode, record), ok)
      ensures old(row).Some? ==> SamePin(old(Contents()), Contents())
      ensures thrown <==> engine && !ok
    {
      if !engine {
        pending := Some(Queued(SaveMode, record));
        return false;
      }
      thrown := WriteSave(record, ok);
    }

    method UpdateIdentity(record: Pinned, ok: bool) returns (thrown: bool)
      modifies this
      ensures Contents() == Put(old(Contents()), Queued(IdentityMode, record), ok)
      ensures thrown <==> engine && !ok
    {
      if !engine {
        pending := Some(Queued(IdentityMode, record));
        return false;
      }
      thrown := WriteIdentity(record, ok);
    }

    method WriteSave(record: Pinned, ok: bool) returns (thrown: bool)
      modifies this`row
      ensures row == if ok then Some(ContractPin.WriteSave(old(row), record)) else old(row)
      ensures ok ==> row.Some? && row.value.snapshot == record.snapshot
      ensures old(row).Some? ==> row.Some? && row.value.identity == old(row).value.identity
      ensures thrown <==> !ok
    {
      if !ok {
        return true;
      }
      if row.None? {
        row := Some(record);
      } else {
        row := Some(row.value.(snapshot := record.snapshot));
      }
      return false;
    }

    method WriteIdentity(record: Pinned, ok: bool) returns (thrown: bool)
      modifies this`row
      ensures row == if ok then Some(record) else old(row)
      ensures thrown <==> !ok
    {
      if !ok {
        return true;
      }
      row := Some(record);
      return false;
    }
  }

  class ContractClient {
    const pinStore: ContractPinStore
    var identity: Option<Identity>
    var rpcTlsCaCert: string
    var pinned: bool
    var cache: Cache
    var inFlight: multiset<Migration>

    constructor (pinStore: ContractPinStore, env: Option<Identity>, envCert: string)
      ensures this.pinStore == pinStore
      ensures identity == env && rpcTlsCaCert == envCert && !pinned && cache == Defaults && inFlight == multiset{}
    {
      this.pinStore := pinStore;
      identity, rpcTlsCaCert := env, envCert;
      pinned, cache, inFlight := false, Defaults, multiset{};
    }

    ghost function View(): World
      reads this, pinStore
    {
      World(pinStore.Contents(), Client(identity, rpcTlsCaCert, pinned, cache, inFlight))
    }

    method LoadPinAndOverrideIdentity()
      requires !pinned && cache == Defaults && inFlight == multiset{}
      modifies this
      ensures View() == World(old(pinStore.Contents()), LoadPin(pinStore.row, old(identity), old(rpcTlsCaCert)))
    {
      var record := pinStore.row;
      if record.None? {
        return;
      }
      pinned := true;
      identity := Some(record.value.identity);
      rpcTlsCaCert := record.value.cert;
      cache := FromData(record.value.snapshot);
    }

    /** The first thing a process does, with a store freshly opened on the row from disk. */
    method Initialize(read: Option<Data>)
      requires pinStore.Contents() == Store(pinStore.row, false, None)
      requires !pinned && cache == Defaults && inFlight == multiset{}
      modifies this, pinStore
      ensures View() == Boot(old(pinStore.Contents()), old(identity), old(rpcTlsCaCert), read)
      ensures old(pinStore.row).Some? ==> identity == Some(old(pinStore.row).value.identity) && pinned && cache != FromEnv
    {
      LoadPinAndOverrideIdentity();
      var contractData := None;
      if identity.Some? {
        contractData := read;
      }
      if contractData.Some? {
        ApplyContractData(contractData.value, true);
      } else if !pinned && identity.None? {
        cache := FromEnv;
      }
    }

    method ApplyContractData(data: Data, ok: bool)
      requires identity.Some?
      modifies this, pinStore
      ensures View() == Apply(old(View()), data, ok)
    {
      cache := FromData(data);
      SavePin(data, ok);
      if data.migration.Some? && data.migration.value.identity != identity.value {
        inFlight := inFlight + multiset{Migration(data.migration.value, data.origin)};
      }
    }

    /** A failing save is logged; the client keeps its certificate and its pinned flag. */
    method SavePin(data: Data, ok: bool)
      requires identity.Some?
      modifies this`pinned, this`rpcTlsCaCert, pinStore
      ensures var record := RecordOf(identity.value, old(rpcTlsCaCert), data);
        && pinStore.Contents() == Put(old(pinStore.Contents()), Queued(SaveMode, record), ok)
        && (if old(pinStore.engine) && !ok then pinned == old(pinned) && rpcTlsCaCert == old(rpcTlsCaCert)
            else pinned && rpcTlsCaCert == record.cert)
    {
      var allowNonRaTls := data.hasParams && data.allowNonRaTls;
      var cert := if data.cert != "" then data.cert else rpcTlsCaCert;
      var thrown := pinStore.Save(Pinned(identity.value, allowNonRaTls, cert, data), ok);
      if !thrown {
        pinned := true;
        rpcTlsCaCert := cert;
      }
    }

    method RefreshCache(read: Option<Data>, ok: bool)
      modifies this, pinStore
      ensures View() == if read.Some? then Step(old(View()), Refreshed(read.value, ok)) else old(View())
    {
      if identity.None? || read.None? {
        return;
      }
      ApplyContractData(read.value, ok);
    }

    /** The end of a migration that was started: the target has answered, or its read failed. */
    method FinishMigration(m: Migration, read: Option<Data>, ok: bool)
      modifies this, pinStore
      ensures View() == Migrate(old(View()), m, read, ok)
    {
      if m !in inFlight {
        return;
      }
      inFlight := inFlight - multiset{m};
      if read.None? || !read.value.hasParams {
        return;
      }
      SwitchTo(m.target, read.value, ok);
    }

    /** The pin is updated first; only then does the client switch. */
    method SwitchTo(target: Target, newData: Data, ok: bool)
      requires newData.hasParams
      modifies this, pinStore
      ensures var record := RecordOf(target.identity, target.cert, newData);
        if old(pinStore.engine) && !ok then View() == old(View())
        else View() == World(Put(old(pinStore.Contents()), Queued(IdentityMode, record), ok),
                             Client(Some(target.identity), record.cert, true,
                                    FromData(newData), old(inFlight)))
    {
      var cert := if newData.cert != "" then newData.cert else target.cert;
      var thrown := pinStore.UpdateIdentity(Pinned(target.identity, newData.allowNonRaTls, cert, newData), ok);
      if thrown {
        return;
      }
      identity := Some(target.identity);
      rpcTlsCaCert := cert;
      cache := FromData(newData);
      pinned := true;
    }
  }
}
