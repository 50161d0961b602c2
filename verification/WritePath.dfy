/** The leader's write path as a state machine: a write begins a manual transaction, its handler runs in
    it, its log entries are prepared at the followers, and it commits or is rolled back. Requests
    interleave; acks, timeouts, term changes and failing commits are events. Models server.js and
    connection-manager.js; WriteManagement.dfy has the methods. */
module WritePath {
  import opened Tables

  type Data = map<string, string>

  datatype Message =
    | Prepare(writeId: string, entries: seq<string>, term: nat)
    | Commit(writeId: string)
    | Abort(writeId: string)

  /** The open transaction: what it would leave, what it logged, and the term it was prepared in. */
  datatype Txn = Txn(writeId: string, data: Data, entries: seq<string>, prepared: Option<nat>)

  /** A leader: its committed tables and log, its open transaction, the messages it has broadcast. */
  datatype Node = Node(data: Data, log: seq<string>, txn: Option<Txn>, sent: seq<Message>)

  datatype Event =
    | Begins(w: string)
    | Throws(w: string)
    | Handles(w: string, data: Data, entries: seq<string>, term: nat, commitOk: bool)
    | Acks(w: string, term: nat, commitOk: bool)
    | Refuses(w: string)

  predicate Working(n: Node, w: string) {
    n.txn.Some? && n.txn.value.writeId == w && n.txn.value.prepared.None?
  }

  predicate Waiting(n: Node, w: string) {
    n.txn.Some? && n.txn.value.writeId == w && n.txn.value.prepared.Some?
  }

  function RollBack(n: Node): Node {
    n.(txn := None)
  }

  function AbortOpen(n: Node, w: string): Node {
    n.(txn := None, sent := n.sent + [Abort(w)])
  }

  function CommitOpen(n: Node): Node
    requires n.txn.Some?
  {
    var t := n.txn.value;
    Node(t.data, n.log + t.entries, None, n.sent + (if t.entries != [] then [Commit(t.writeId)] else []))
  }

  function Step(n: Node, e: Event): Node {
    match e
    case Begins(w) =>
      if n.txn.Some? then n else n.(txn := Some(Txn(w, n.data, [], None)))
    case Throws(w) =>
      if Working(n, w) then RollBack(n) else n
    case Handles(w, data, entries, term, commitOk) =>
      if !Working(n, w) then n
      else if entries != [] then
        n.(txn := Some(Txn(w, data, entries, Some(term))), sent := n.sent + [Prepare(w, entries, term)])
      else if commitOk then CommitOpen(n.(txn := Some(Txn(w, data, [], None))))
      else RollBack(n)
    case Acks(w, term, commitOk) =>
      if !Waiting(n, w) then n
      else if n.txn.value.prepared == Some(term) && commitOk then CommitOpen(n)
      else AbortOpen(n, w)
    case Refuses(w) =>
      if Waiting(n, w) then AbortOpen(n, w) else n
  }

  function After(n: Node, events: seq<Event>): Node {
    if events == [] then n else Step(After(n, events[..|events| - 1]), events[|events| - 1])
  }

  // ---- what commits ----------------------------------------------------------------------

  /** A step commits the open write: it logged nothing, or its quorum acked in the term of its prepare. */
  predicate Commits(n: Node, e: Event) {
    || (e.Handles? && Working(n, e.w) && e.entries == [] && e.commitOk)
    || (e.Acks? && Waiting(n, e.w) && n.txn.value.prepared == Some(e.term) && e.commitOk)
  }

  datatype Write = Write(writeId: string, data: Data, entries: seq<string>)

  function CommittedBy(n: Node, e: Event): Write
    requires Commits(n, e)
  {
    if e.Handles? then Write(e.w, e.data, []) else Write(e.w, n.txn.value.data, n.txn.value.entries)
  }

  function Committed(n: Node, events: seq<Event>): seq<Write> {
    if events == [] then []
    else
      var front, e := events[..|events| - 1], events[|events| - 1];
      Committed(n, front) + (if Commits(After(n, front), e) then [CommittedBy(After(n, front), e)] else [])
  }

  function Entries(writes: seq<Write>): seq<string> {
    if writes == [] then [] else Entries(writes[..|writes| - 1]) + writes[|writes| - 1].entries
  }

  /** The committed tables and log change at a commit and at no other step, whatever fails; and then they
      become what the write left. */
  lemma OnlyCommitsChangeTheDatabase(n: Node, e: Event)
    ensures var next := Step(n, e);
      if Commits(n, e) then
        && next.data == CommittedBy(n, e).data && next.log == n.log + CommittedBy(n, e).entries
        && next.txn.None?
      else next.data == n.data && next.log == n.log
  {
  }

  lemma EntriesAppend(writes: seq<Write>, last: Write)
    ensures Entries(writes + [last]) == Entries(writes) + last.entries
  {
    assert (writes + [last])[..|writes|] == writes;
  }

  /** Over any interleaving the log is the entries of the committed writes, each once and whole, in commit
      order, and the tables are those the last of them left. */
  lemma {:induction false} LogIsTheCommittedWrites(n: Node, events: seq<Event>)
    ensures After(n, events).log == n.log + Entries(Committed(n, events))
    ensures After(n, events).data
         == (var writes := Committed(n, events); if writes == [] then n.data else writes[|writes| - 1].data)
  {
    if events != [] {
      var front, e := events[..|events| - 1], events[|events| - 1];
      LogIsTheCommittedWrites(n, front);
      OnlyCommitsChangeTheDatabase(After(n, front), e);
      if Commits(After(n, front), e) {
        EntriesAppend(Committed(n, front), CommittedBy(After(n, front), e));
      } else {
        assert Committed(n, events) == Committed(n, front);
      }
    }
  }

  // ---- other writes ----------------------------------------------------------------------

  /** While one write is open, no event of another does anything: its begin is refused, and nothing of
      the open transaction is lost. */
  lemma {:induction false} OpenWriteIsAlone(n: Node, events: seq<Event>)
    requires n.txn.Some?
    requires forall i :: 0 <= i < |events| ==> events[i].w != n.txn.value.writeId
    ensures After(n, events) == n
  {
    if events != [] {
      var front, e := events[..|events| - 1], events[|events| - 1];
      OpenWriteIsAlone(n, front);
      assert After(n, events) == Step(n, e);
    }
  }

  // ---- what becomes of a prepared write --------------------------------------------------

  datatype Kind = OfPrepare | OfCommit | OfAbort

  function KindOf(m: Message): Kind {
    if m.Prepare? then OfPrepare else if m.Commit? then OfCommit else OfAbort
  }

  function Adds(m: Message, kind: Kind, w: string): nat {
    if KindOf(m) == kind && m.writeId == w then 1 else 0
  }

  /** How many messages of one kind were sent for a write. */
  function Count(sent: seq<Message>, kind: Kind, w: string): nat {
    if sent == [] then 0
    else Count(sent[..|sent| - 1], kind, w) + Adds(sent[|sent| - 1], kind, w)
  }

  lemma OneMoreMessage(sent: seq<Message>, m: Message, w: string)
    ensures forall kind :: Count(sent + [m], kind, w) == Count(sent, kind, w) + Adds(m, kind, w)
  {
    assert (sent + [m])[..|sent|] == sent;
  }

  /** Every prepare is answered by one commit or one abort, or its write still waits. */
  predicate Settled(n: Node, w: string) {
    && Count(n.sent, OfPrepare, w)
       == Count(n.sent, OfCommit, w) + Count(n.sent, OfAbort, w) + (if Waiting(n, w) then 1 else 0)
    && (n.txn.Some? ==> (n.txn.value.prepared.Some? <==> n.txn.value.entries != []))
  }

  lemma StepSettles(n: Node, e: Event, w: string)
    requires Settled(n, w)
    ensures Settled(Step(n, e), w)
  {
    hide Count;
    SentByStep(n, e, w);
    assert n.sent + [] == n.sent;
  }

  /** What one step adds to the messages counted for a write. */
  lemma SentByStep(n: Node, e: Event, w: string)
    ensures var next := Step(n, e).sent;
      forall kind :: Count(next, kind, w)
                  == Count(n.sent, kind, w) + (if next == n.sent then 0 else Adds(next[|next| - 1], kind, w))
  {
    hide Count, Adds;
    var next := Step(n, e);
    if next.sent != n.sent {
      var m := next.sent[|next.sent| - 1];
      assert next.sent == n.sent + [m];
      OneMoreMessage(n.sent, m, w);
    }
  }

  /** Abort is broadcast exactly for the writes that were prepared and not committed: over any run the
      prepares of a write are its commits, its aborts and at most the one still waiting. */
  lemma {:induction false} EveryPrepareIsSettledOnce(n: Node, events: seq<Event>, w: string)
    requires Settled(n, w)
    ensures Settled(After(n, events), w)
  {
    if events != [] {
      EveryPrepareIsSettledOnce(n, events[..|events| - 1], w);
      StepSettles(After(n, events[..|events| - 1]), events[|events| - 1], w);
    }
  }

  function Begun(events: seq<Event>, w: string): nat {
    if events == [] then 0
    else Begun(events[..|events| - 1], w) + (if events[|events| - 1] == Begins(w) then 1 else 0)
  }

  /** A write that begins once is prepared at most once. */
  lemma {:induction false} PreparedAtMostOnce(n: Node, events: seq<Event>, w: string)
    requires n.txn.None? || n.txn.value.writeId != w
    ensures Count(After(n, events).sent, OfPrepare, w) + (if Working(After(n, events), w) then 1 else 0)
         <= Count(n.sent, OfPrepare, w) + Begun(events, w)
  {
    hide Count;
    if events != [] {
      var front, e := events[..|events| - 1], events[|events| - 1];
      PreparedAtMostOnce(n, front, w);
      SentByStep(After(n, front), e, w);
    }
  }

  // ---- one write from begin to end -------------------------------------------------------

  lemma {:induction false} AfterInParts(n: Node, a: seq<Event>, b: seq<Event>)
    ensures After(n, a + b) == After(After(n, a), b)
  {
    hide Step;
    if b == [] {
      assert a + b == a;
    } else {
      var m := |b| - 1;
      AfterInParts(n, a, b[..m]);
      assert (a + b)[..|a + b| - 1] == a + b[..m];
    }
  }

  lemma AfterOne(n: Node, e: Event)
    ensures After(n, [e]) == Step(n, e)
  {
    assert [e][..0] == [];
  }

  ghost predicate OfOthers(events: seq<Event>, w: string) {
    forall i :: 0 <= i < |events| ==> events[i].w != w
  }

  /** An event, and then whatever other writes try while one is open. */
  lemma OneEventAmongOthers(n: Node, e: Event, others: seq<Event>, w: string)
    requires Step(n, e).txn.Some? && Step(n, e).txn.value.writeId == w && OfOthers(others, w)
    ensures After(n, [e] + others) == Step(n, e)
  {
    AfterInParts(n, [e], others);
    AfterOne(n, e);
    OpenWriteIsAlone(Step(n, e), others);
  }

  /** A write that logs something, begun on an idle leader, whatever other writes try meanwhile. Acked by a
      quorum in the term it was prepared in, and committed, it leaves its tables, appends its entries and sends
      a prepare and a commit. In every other case, refused, acked in a later term or failing to commit, tables
      and log are as before and its prepare is followed by an abort. */
  lemma PreparedWriteEnds(n: Node, w: string, data: Data, entries: seq<string>, term: nat,
                          a: seq<Event>, b: seq<Event>, acked: bool, ackTerm: nat, handleOk: bool, commitOk: bool)
    requires n.txn.None? && entries != [] && OfOthers(a, w) && OfOthers(b, w)
    ensures var end := if acked then Acks(w, ackTerm, commitOk) else Refuses(w);
      var final := After(n, ([Begins(w)] + a) + ([Handles(w, data, entries, term, handleOk)] + b) + [end]);
      var prepared := n.sent + [Prepare(w, entries, term)];
      if acked && ackTerm == term && commitOk then final == Node(data, n.log + entries, None, prepared + [Commit(w)])
      else final == Node(n.data, n.log, None, prepared + [Abort(w)])
  {
    hide After, OfOthers;
    var end := if acked then Acks(w, ackTerm, commitOk) else Refuses(w);
    var handles := Handles(w, data, entries, term, handleOk);
    OneEventAmongOthers(n, Begins(w), a, w);
    OneEventAmongOthers(Step(n, Begins(w)), handles, b, w);
    AfterInParts(n, [Begins(w)] + a, [handles] + b);
    AfterInParts(n, ([Begins(w)] + a) + ([handles] + b), [end]);
    AfterOne(Step(Step(n, Begins(w)), handles), end);
  }

  /** A write that logs nothing commits at once and sends nothing; one whose handler throws, or whose commit
      fails, leaves all as it was. */
  lemma UnloggedWriteEnds(n: Node, w: string, data: Data, term: nat, a: seq<Event>, commitOk: bool)
    requires n.txn.None? && OfOthers(a, w)
    ensures After(n, ([Begins(w)] + a) + [Handles(w, data, [], term, commitOk)]) == if commitOk then n.(data := data) else n
    ensures After(n, ([Begins(w)] + a) + [Throws(w)]) == n
  {
    hide After, OfOthers;
    OneEventAmongOthers(n, Begins(w), a, w);
    AfterInParts(n, [Begins(w)] + a, [Handles(w, data, [], term, commitOk)]);
    AfterInParts(n, [Begins(w)] + a, [Throws(w)]);
    AfterOne(Step(n, Begins(w)), Handles(w, data, [], term, commitOk));
    AfterOne(Step(n, Begins(w)), Throws(w));
    assert n.log + [] == n.log && n.sent + [] == n.sent;
  }
}
