/** The manual transaction of connection-manager.js and the coordinator of server.js as they run, one
    request from begin to end; both are tied to the state machine of WritePath.dfy. */
module WriteManagement {
  import opened Tables
  import opened WritePath

  datatype LogRow = LogRow(id: nat, entry: string)

  datatype ManualTxn = ManualTxn(writeId: string, prevMaxSeq: nat)

  /** Ids grow along the log. */
  predicate Ascending(log: seq<LogRow>) {
    && (forall i :: 0 <= i < |log| ==> log[i].id > 0)
    && forall i, j :: 0 <= i < j < |log| ==> log[i].id < log[j].id
  }

  function MaxId(log: seq<LogRow>): nat {
    if log == [] then 0 else log[|log| - 1].id
  }

  function Texts(log: seq<LogRow>): seq<string> {
    seq(|log|, i requires 0 <= i < |log| => log[i].entry)
  }

  lemma OneMoreRow(log: seq<LogRow>, entry: string)
    requires Ascending(log)
    ensures var longer := log + [LogRow(MaxId(log) + 1, entry)];
      Ascending(longer) && Texts(longer) == Texts(log) + [entry]
  {
    var longer := log + [LogRow(MaxId(log) + 1, entry)];
    assert forall i :: 0 <= i < |log| ==> longer[i] == log[i] && log[i].id <= MaxId(log);
  }

  /** One connection: the committed tables and log, and the view inside the open transaction. */
  class ConnectionManager {
    var data: Data
    var log: seq<LogRow>
    var openData: Data
    var openLog: seq<LogRow>
    var activeManualTxn: Option<ManualTxn>

    ghost predicate Valid()
      reads this
    {
      && Ascending(log)
      && (activeManualTxn.Some? ==> Ascending(openLog) && log <= openLog && activeManualTxn.value.prevMaxSeq == MaxId(log))
    }

    constructor ()
      ensures Valid() && data == map[] && log == [] && activeManualTxn == None
    {
      data, openData := map[], map[];
      log, openLog := [], [];
      activeManualTxn := None;
    }

    /** A second begin is refused, and the transaction that is open stays as it is. */
    method BeginManualTransaction(writeId: string) returns (ok: bool)
      requires Valid()
      modifies this`activeManualTxn, this`openData, this`openLog
      ensures Valid()
      ensures ok <==> old(activeManualTxn).None?
      ensures ok ==> activeManualTxn == Some(ManualTxn(writeId, MaxId(log))) && openData == data && openLog == log
      ensures !ok ==> activeManualTxn == old(activeManualTxn) && openData == old(openData) && openLog == old(openLog)
    {
      if activeManualTxn.Some? {
        return false;
      }
      var prevMaxSeq := MaxId(log);
      openData, openLog := data, log;
      activeManualTxn := Some(ManualTxn(writeId, prevMaxSeq));
      return true;
    }

    /** A write of the handler inside the transaction; the triggers log it. */
    method WriteInside(next: Data, entries: seq<string>)
      requires Valid() && activeManualTxn.Some?
      modifies this`openData, this`openLog
      ensures Valid()
      ensures openData == next && Texts(openLog) == old(Texts(openLog)) + entries && |openLog| == |old(openLog)| + |entries|
      ensures old(openLog) <= openLog
    {
      ghost var before := openLog;
      openData := next;
      hide Texts, MaxId;
      for i := 0 to |entries|
        invariant Valid() && activeManualTxn == old(activeManualTxn) && openData == next
        invariant before <= openLog && |openLog| == |before| + i
        invariant Texts(openLog) == Texts(before) + entries[..i]
      {
        OneMoreRow(openLog, entries[i]);
        assert entries[..i + 1] == entries[..i] + [entries[i]];
        openLog := openLog + [LogRow(MaxId(openLog) + 1, entries[i])];
      }
      assert entries[..|entries|] == entries;
    }

    /** The rows past the sequence number noted at begin are the ones this transaction logged. */
    method GetManualTransactionEntries(writeId: string) returns (entries: seq<LogRow>)
      requires Valid() && activeManualTxn.Some? && activeManualTxn.value.writeId == writeId
      ensures entries == openLog[|log|..]
    {
      var prevMaxSeq := activeManualTxn.value.prevMaxSeq;
      entries := [];
      for i := 0 to |openLog|
        invariant entries == if i <= |log| then [] else openLog[|log|..i]
      {
        assert openLog[i].id > prevMaxSeq <==> i >= |log| by {
          assert log == openLog[..|log|];
        }
        if openLog[i].id > prevMaxSeq {
          entries := entries + [openLog[i]];
        }
      }
    }

    method CommitManualTransaction(writeId: string)
      requires Valid() && activeManualTxn.Some? && activeManualTxn.value.writeId == writeId
      modifies this
      ensures Valid() && activeManualTxn == None
      ensures data == old(openData) && log == old(openLog)
    {
      data, log := openData, openLog;
      activeManualTxn := None;
    }

    /** Without an open transaction this does nothing; without a write id it rolls back whichever is open;
        with the id of another it throws and rolls back nothing. */
    method RollbackManualTransaction(writeId: Option<string>) returns (thrown: bool)
      requires Valid()
      modifies this`activeManualTxn
      ensures Valid()
      ensures thrown <==>
        old(activeManualTxn).Some? && writeId.Some? && old(activeManualTxn).value.writeId != writeId.value
      ensures activeManualTxn == if thrown then old(activeManualTxn) else None
    {
      if activeManualTxn.None? {
        return false;
      }
      if writeId.Some? && activeManualTxn.value.writeId != writeId.value {
        return true;
      }
      activeManualTxn := None;
      return false;
    }
  }

  /** What a request meets: its handler throws, or leaves tables and log entries; the quorum acks or not;
      the term before the prepare and after it; COMMIT works; the commit broadcast works. */
  datatype Fate = Fate(
    writes: Option<(Data, seq<string>)>,
    acked: bool,
    term: nat,
    termAfter: nat,
    commitOk: bool,
    broadcastOk: bool)

  /** The events of one request, run without another in between. */
  function EventsOf(w: string, f: Fate): seq<Event> {
    if f.writes.None? then [Begins(w), Throws(w)]
    else [Begins(w), Handles(w, f.writes.value.0, f.writes.value.1, f.term, f.commitOk)]
         + if f.writes.value.1 == [] then []
           else [if f.acked then Acks(w, f.termAfter, f.commitOk) else Refuses(w)]
  }

  predicate Succeeds(f: Fate) {
    && f.writes.Some? && f.commitOk
    && (f.writes.value.1 == [] || (f.acked && f.termAfter == f.term))
  }

  predicate PrepareSent(f: Fate) {
    f.writes.Some? && f.writes.value.1 != []
  }

  class WriteCoordinator {
    const connection: ConnectionManager
    var sent: seq<Message>

    constructor (connection: ConnectionManager)
      ensures this.connection == connection && sent == []
    {
      this.connection := connection;
      sent := [];
    }

    /** What the state machine sees of the connection between two requests. */
    ghost function View(): Node
      reads this, connection
    {
      Node(connection.data, Texts(connection.log), None, sent)
    }

    /** A request. Its begin is outside the guarded block: while another write is open it is refused, and
        nothing at all changes. */
    method HandleRequest(writeId: string, f: Fate) returns (success: bool)
      requires connection.Valid()
      modifies this`sent, connection
      ensures connection.Valid()
      ensures old(connection.activeManualTxn).Some? ==>
        !success && sent == old(sent) && connection.activeManualTxn == old(connection.activeManualTxn)
        && connection.data == old(connection.data) && connection.log == old(connection.log)
        && connection.openData == old(connection.openData) && connection.openLog == old(connection.openLog)
      ensures old(connection.activeManualTxn).None? ==>
        (success <==> Succeeds(f)) && connection.activeManualTxn.None?
        && View() == After(old(View()), EventsOf(writeId, f))
    {
      var begun := connection.BeginManualTransaction(writeId);
      if !begun {
        return false;
      }
      success := ExecuteWrite(writeId, f);
    }

    /** The block after begin. It succeeds exactly when the handler returns, COMMIT works, and it logged
        nothing or was acked in a term that is still current; otherwise the database is as before begin.
        Either way no transaction stays open, and abort goes out exactly when prepare did and commit was
        not reached. */
    method ExecuteWrite(writeId: string, f: Fate) returns (success: bool)
      requires connection.Valid() && connection.activeManualTxn == Some(ManualTxn(writeId, MaxId(connection.log)))
      requires connection.openData == connection.data && connection.openLog == connection.log
      modifies this`sent, connection
      ensures connection.Valid() && connection.activeManualTxn.None?
      ensures success <==> Succeeds(f)
      ensures View() == After(old(View()), EventsOf(writeId, f))
      ensures !success ==> connection.data == old(connection.data) && connection.log == old(connection.log)
      ensures success ==> connection.data == f.writes.value.0
      ensures success ==> Texts(connection.log) == old(Texts(connection.log)) + f.writes.value.1
      ensures sent == old(sent)
        + (if PrepareSent(f) then [Prepare(writeId, f.writes.value.1, f.term)] else [])
        + (if PrepareSent(f) && success then [Commit(writeId)] else [])
        + (if PrepareSent(f) && !success then [Abort(writeId)] else [])
    {
      ghost var before := View();
      Unfold(before, writeId, f);
      var prepareSent := false;
      var committed := false;
      var failed := false;
      var entries: seq<string> := [];
      if f.writes.None? {
        failed := true;
      } else {
        connection.WriteInside(f.writes.value.0, f.writes.value.1);
        var rows := connection.GetManualTransactionEntries(writeId);
        entries := Texts(rows);
        TextsOfSuffix(connection.log, connection.openLog, f.writes.value.1);
        if |rows| > 0 {
          prepareSent := true;
          sent := sent + [Prepare(writeId, entries, f.term)];
          failed := !f.acked || f.termAfter != f.term;
        }
        if !failed {
          if f.commitOk {
            connection.CommitManualTransaction(writeId);
            committed := true;
          } else {
            failed := true;
          }
        }
      }
      if committed && |entries| > 0 {
        sent := sent + [Commit(writeId)];
      }
      if failed {
        if !committed {
          var _ := connection.RollbackManualTransaction(Some(writeId));
        }
        if prepareSent && !committed {
          sent := sent + [Abort(writeId)];
        }
      }
      success := !failed;
    }
  }

  lemma TextsOfSuffix(log: seq<LogRow>, longer: seq<LogRow>, entries: seq<string>)
    requires log <= longer && Texts(longer) == Texts(log) + entries
    ensures Texts(longer[|log|..]) == entries
  {
    var rest := longer[|log|..];
    assert |rest| == |entries| by {
      assert |Texts(longer)| == |Texts(log)| + |entries|;
    }
    forall i | 0 <= i < |rest| ensures rest[i].entry == entries[i] {
      assert Texts(longer)[|log| + i] == entries[i];
    }
  }

  lemma Unfold(n: Node, w: string, f: Fate)
    requires n.txn.None?
    ensures After(n, EventsOf(w, f)) ==
      if !PrepareSent(f) then (if Succeeds(f) then n.(data := f.writes.value.0) else n)
      else
        var prepared := n.sent + [Prepare(w, f.writes.value.1, f.term)];
        if Succeeds(f) then Node(f.writes.value.0, n.log + f.writes.value.1, None, prepared + [Commit(w)])
        else n.(sent := prepared + [Abort(w)])
  {
    var events := EventsOf(w, f);
    assert events[..1] == [Begins(w)] && events[..1][..0] == [];
    assert events[..2][..1] == events[..1];
    assert After(n, events[..1]) == Step(n, events[0]);
    assert After(n, events[..2]) == Step(After(n, events[..1]), events[1]);
    assert n.log + [] == n.log && n.sent + [] == n.sent;
    if |events| == 3 {
      assert After(n, events) == Step(After(n, events[..2]), events[2]);
    } else {
      assert events[..2] == events;
    }
  }
}
