/** Peer discovery: what one node does with handshakes, advertised addresses and peer lists, and what a
    network of such nodes comes to know. Node ids and addresses are text, as in sync-manager.js. */
module Gossip {

  datatype Peer = Peer(nodeId: string, url: string)

  predicate Connectable(url: string) {
    "ws://" <= url || "wss://" <= url
  }

  predicate Inbound(url: string) {
    "inbound://" <= url
  }

  lemma ConnectableIsNotInbound(url: string)
    requires Connectable(url)
    ensures !Inbound(url)
  {
    assert url[0] == 'w' != "inbound://"[0];
  }

  // ---- one node --------------------------------------------------------------------------

  /** A handshake: recorded when the node is unknown, or known only by an inbound address. */
  function Handshake(known: map<string, string>, self: string, peerId: string, nodeId: string): map<string, string> {
    if nodeId == "" || nodeId == self then known
    else if nodeId !in known || (Inbound(known[nodeId]) && !Inbound(peerId)) then known[nodeId := peerId]
    else known
  }

  /** An address advertised in an accepted pin check overrides what was there. */
  function Advertise(known: map<string, string>, self: string, nodeId: string, url: string): map<string, string> {
    if nodeId == "" || nodeId == self || !Connectable(url) then known else known[nodeId := url]
  }

  /** One entry of a peer list: taken when connectable, not oneself and not known. */
  function LearnOne(known: map<string, string>, self: string, peer: Peer): map<string, string> {
    if !Connectable(peer.url) || peer.nodeId == self || peer.nodeId in known then known else known[peer.nodeId := peer.url]
  }

  function Learn(known: map<string, string>, self: string, peers: seq<Peer>): map<string, string> {
    if peers == [] then known else LearnOne(Learn(known, self, peers[..|peers| - 1]), self, peers[|peers| - 1])
  }

  /** The list a node sends: its known peers, in some order, without itself and inbound addresses. */
  ghost predicate IsPeersList(peers: seq<Peer>, known: map<string, string>, self: string) {
    forall n, u :: Peer(n, u) in peers <==> n in known && known[n] == u && n != "" && n != self && !Inbound(u)
  }

  ghost predicate Lists(peers: seq<Peer>, nodeId: string) {
    exists i :: 0 <= i < |peers| && peers[i].nodeId == nodeId && Connectable(peers[i].url)
  }

  /** After a list: what was known stays as it was, and exactly the listed connectable others are new. */
  lemma {:induction false} LearnAt(known: map<string, string>, self: string, peers: seq<Peer>, nodeId: string)
    ensures var next := Learn(known, self, peers);
      && (nodeId in next <==> nodeId in known || (nodeId != self && Lists(peers, nodeId)))
      && (nodeId in known ==> next[nodeId] == known[nodeId])
      && (nodeId in next && nodeId !in known ==> Connectable(next[nodeId]) && Peer(nodeId, next[nodeId]) in peers)
  {
    if peers != [] {
      var front, last := peers[..|peers| - 1], peers[|peers| - 1];
      LearnAt(known, self, front, nodeId);
      assert Lists(peers, nodeId) <==> Lists(front, nodeId) || (last.nodeId == nodeId && Connectable(last.url)) by {
        if i :| 0 <= i < |front| && front[i].nodeId == nodeId && Connectable(front[i].url) {
          assert peers[i] == front[i];
        }
        if i :| 0 <= i < |peers| && peers[i].nodeId == nodeId && Connectable(peers[i].url) {
          assert i < |front| ==> front[i] == peers[i];
        }
      }
      assert forall p :: p in front ==> p in peers;
      assert last in peers;
    }
  }

  /** A handshake makes its node known by the address it came over, and changes the address only of a node
      known by an inbound one, to one that is not. */
  lemma HandshakeTells(known: map<string, string>, self: string, peerId: string, nodeId: string, n: string)
    ensures var next := Handshake(known, self, peerId, nodeId);
      var told := n == nodeId && n != "" && n != self;
      && (n in next <==> n in known || told)
      && (told && (n in known ==> "inbound://" <= known[n] && !("inbound://" <= peerId)) ==> next[n] == peerId)
      && (!told && n in known ==> next[n] == known[n])
      && (n in known && !("inbound://" <= known[n] && !("inbound://" <= peerId)) ==> next[n] == known[n])
  {
  }

  /** An address that can be connected to replaces what was there; any other is ignored. */
  lemma AdvertiseTells(known: map<string, string>, self: string, nodeId: string, url: string)
    ensures Advertise(known, self, nodeId, url)
         == if nodeId != "" && nodeId != self && ("ws://" <= url || "wss://" <= url) then known[nodeId := url] else known
  {
  }

  lemma ListedIsKnown(peers: seq<Peer>, known: map<string, string>, self: string, nodeId: string)
    requires IsPeersList(peers, known, self)
    ensures Lists(peers, nodeId) <==> nodeId in known && nodeId != "" && nodeId != self && Connectable(known[nodeId])
  {
    if i :| 0 <= i < |peers| && peers[i].nodeId == nodeId && Connectable(peers[i].url) {
      assert Peer(nodeId, peers[i].url) in peers;
    }
    if nodeId in known && nodeId != "" && nodeId != self && Connectable(known[nodeId]) {
      ConnectableIsNotInbound(known[nodeId]);
      assert Peer(nodeId, known[nodeId]) in peers;
    }
  }

  // ---- a network -------------------------------------------------------------------------

  type Net = map<string, map<string, string>>

  /** What can happen: a peer list sent at an earlier moment arrives over a checked link, a handshake is
      seen, or an address is advertised in an accepted pin check. */
  datatype Event =
    | Delivered(sender: string, receiver: string, sentAt: nat, peers: seq<Peer>)
    | Shaken(at: string, peerId: string, nodeId: string)
    | Advertised(at: string, nodeId: string, url: string)

  ghost predicate StepOf(nodes: set<string>, trace: seq<Net>, e: Event, t: nat)
    requires t + 1 < |trace|
    requires forall i :: 0 <= i < |trace| ==> trace[i].Keys == nodes
  {
    match e
    case Delivered(sender, receiver, sentAt, peers) =>
      && sender in nodes && receiver in nodes && sentAt <= t
      && IsPeersList(peers, trace[sentAt][sender], sender)
      && trace[t + 1] == trace[t][receiver := Learn(trace[t][receiver], receiver, peers)]
    case Shaken(at, peerId, nodeId) =>
      at in nodes && nodeId in nodes && trace[t + 1] == trace[t][at := Handshake(trace[t][at], at, peerId, nodeId)]
    case Advertised(at, nodeId, url) =>
      at in nodes && nodeId in nodes && trace[t + 1] == trace[t][at := Advertise(trace[t][at], at, nodeId, url)]
  }

  ghost predicate Run(nodes: set<string>, trace: seq<Net>, events: seq<Event>) {
    && |trace| == |events| + 1
    && (forall i :: 0 <= i < |trace| ==> trace[i].Keys == nodes)
    && forall t :: 0 <= t < |events| ==> StepOf(nodes, trace, events[t], t)
  }

  /** Nobody lists itself, and nobody knows a node that is not there. */
  ghost predicate Honest(nodes: set<string>, net: Net) {
    forall p :: p in net ==> HonestList(nodes, net[p], p)
  }

  ghost predicate HonestList(nodes: set<string>, known: map<string, string>, self: string) {
    self !in known && known.Keys <= nodes
  }

  lemma StepKeepsWhatIsKnown(nodes: set<string>, trace: seq<Net>, events: seq<Event>, t: nat, p: string, n: string)
    requires Run(nodes, trace, events) && t < |events| && p in nodes && n in trace[t][p]
    ensures n in trace[t + 1][p]
  {
    assert StepOf(nodes, trace, events[t], t);
    match events[t]
    case Delivered(sender, receiver, _, peers) => LearnAt(trace[t][receiver], receiver, peers, n);
    case _ =>
  }

  /** What a node knows it keeps knowing. */
  lemma {:induction false} KnownPeersNeverShrink(nodes: set<string>, trace: seq<Net>, events: seq<Event>,
                                                 p: string, s: nat, t: nat)
    requires Run(nodes, trace, events) && p in nodes && s <= t < |trace|
    ensures trace[s][p].Keys <= trace[t][p].Keys
    decreases t - s
  {
    if s < t {
      KnownPeersNeverShrink(nodes, trace, events, p, s, t - 1);
      forall n | n in trace[s][p] ensures n in trace[t][p] {
        StepKeepsWhatIsKnown(nodes, trace, events, t - 1, p, n);
      }
    }
  }

  lemma LearningIsHonest(nodes: set<string>, known: map<string, string>, self: string,
                         peers: seq<Peer>, theirs: map<string, string>, sender: string)
    requires HonestList(nodes, known, self) && HonestList(nodes, theirs, sender) && IsPeersList(peers, theirs, sender)
    ensures HonestList(nodes, Learn(known, self, peers), self)
  {
    hide Learn, IsPeersList;
    forall n | n in Learn(known, self, peers) ensures n != self && n in nodes {
      LearnAt(known, self, peers, n);
      ListedIsKnown(peers, theirs, sender, n);
    }
  }

  lemma StepIsHonest(nodes: set<string>, trace: seq<Net>, events: seq<Event>, t: nat)
    requires Run(nodes, trace, events) && t < |events|
    requires forall s :: 0 <= s <= t ==> Honest(nodes, trace[s])
    ensures Honest(nodes, trace[t + 1])
  {
    hide Learn, IsPeersList;
    assert StepOf(nodes, trace, events[t], t) && Honest(nodes, trace[t]);
    match events[t]
    case Delivered(sender, receiver, sentAt, peers) =>
      assert Honest(nodes, trace[sentAt]);
      LearningIsHonest(nodes, trace[t][receiver], receiver, peers, trace[sentAt][sender], sender);
    case _ =>
  }

  /** Along any run no node ever lists itself, and no node is invented. */
  lemma {:induction false} NobodyListsItself(nodes: set<string>, trace: seq<Net>, events: seq<Event>, t: nat)
    requires |trace| == |events| + 1 && Run(nodes, trace, events) && t < |trace|
    requires Honest(nodes, trace[0])
    ensures forall s :: 0 <= s <= t ==> Honest(nodes, trace[s])
    decreases t
  {
    hide Run, Honest;
    if t > 0 {
      NobodyListsItself(nodes, trace, events, t - 1);
      StepIsHonest(nodes, trace, events, t - 1);
    }
  }

  // ---- completeness ----------------------------------------------------------------------

  /** At most d links from p to q. */
  predicate Within(links: set<(string, string)>, p: string, q: string, d: nat)
    decreases d
  {
    p == q || (d > 0 && exists l :: l in links && l.0 == p && Within(links, l.1, q, d - 1))
  }

  /** Every link has finished its pin check in both directions, with addresses advertised. */
  ghost predicate Linked(nodes: set<string>, links: set<(string, string)>, net: Net) {
    && (forall l :: l in links ==> l.0 in nodes && l.1 in nodes && l.0 != l.1 && (l.1, l.0) in links)
    && (forall l :: l in links ==> l.0 in net && l.1 in net[l.0])
  }

  /** In each round every link delivers a list sent in that round, at a moment when the addresses of the
      nodes its sender knew at the start of the round can be connected to. */
  ghost predicate Rounds(links: set<(string, string)>, trace: seq<Net>, events: seq<Event>, bounds: seq<nat>)
    requires |trace| == |events| + 1
  {
    && (forall i :: 0 <= i < |bounds| ==> bounds[i] <= |events|)
    && (forall i, j :: 0 <= i < j < |bounds| ==> bounds[i] <= bounds[j])
    && (forall i, l :: 0 <= i < |bounds| - 1 && l in links ==> DeliversIn(trace, events, l, bounds[i], bounds[i + 1]))
  }

  ghost predicate DeliversIn(trace: seq<Net>, events: seq<Event>, l: (string, string), from: nat, to: nat)
    requires |trace| == |events| + 1
  {
    exists t :: from <= t < to && t < |events| && DeliversAt(trace, events, l, from, t)
  }

  ghost predicate DeliversAt(trace: seq<Net>, events: seq<Event>, l: (string, string), from: nat, t: nat)
    requires |trace| == |events| + 1 && from <= t < |events|
  {
    && events[t].Delivered? && events[t].sender == l.0 && events[t].receiver == l.1
    && from <= events[t].sentAt <= t
    && l.0 in trace[from] && l.0 in trace[events[t].sentAt]
    && StillConnectable(trace[from][l.0], trace[events[t].sentAt][l.0])
  }

  ghost predicate StillConnectable(before: map<string, string>, known: map<string, string>) {
    forall n :: n in before && n in known ==> Connectable(known[n])
  }

  /** A list that arrives makes exactly those nodes known that its sender knew, when it was sent, by an
      address that can be connected to; whatever became of them since. */
  lemma DeliveryCarriesIff(nodes: set<string>, trace: seq<Net>, events: seq<Event>, t: nat, q: string)
    requires Run(nodes, trace, events) && t < |events| && events[t].Delivered? && "" !in nodes && q in nodes
    requires events[t].sentAt <= t && events[t].sender in nodes && events[t].receiver in nodes
    ensures var e := events[t]; var theirs := trace[e.sentAt][e.sender];
      q in trace[t + 1][e.receiver] <==>
        || q in trace[t][e.receiver]
        || (q in theirs && q != e.sender && q != e.receiver && Connectable(theirs[q]))
  {
    hide Learn;
    var e := events[t];
    assert StepOf(nodes, trace, e, t);
    ListedIsKnown(e.peers, trace[e.sentAt][e.sender], e.sender, q);
    LearnAt(trace[t][e.receiver], e.receiver, e.peers, q);
  }

  lemma TablesOfARun(nodes: set<string>, trace: seq<Net>, events: seq<Event>)
    requires Run(nodes, trace, events)
    ensures |trace| == |events| + 1 && forall i :: 0 <= i < |trace| ==> trace[i].Keys == nodes
  {
  }

  /** One round carries what a neighbour knew at its start over the link. */
  lemma RoundCarries(nodes: set<string>, trace: seq<Net>, events: seq<Event>, from: nat, to: nat,
                     p: string, m: string, q: string)
    requires |trace| == |events| + 1 && Run(nodes, trace, events) && "" !in nodes && p in nodes && m in nodes
    requires from <= to <= |events| && DeliversIn(trace, events, (m, p), from, to)
    requires q in nodes && q != p && q != m && q in trace[from][m]
    ensures q in trace[to][p]
  {
    hide Run, StepOf;
    TablesOfARun(nodes, trace, events);
    var t :| from <= t < to && t < |events| && DeliversAt(trace, events, (m, p), from, t);
    KnownPeersNeverShrink(nodes, trace, events, m, from, events[t].sentAt);
    DeliveryCarriesIff(nodes, trace, events, t, q);
    KnownPeersNeverShrink(nodes, trace, events, p, t + 1, to);
  }

  lemma LinkEnds(nodes: set<string>, links: set<(string, string)>, net: Net, p: string, m: string)
    requires Linked(nodes, links, net) && (p, m) in links
    ensures p in nodes && m in nodes && p != m && (m, p) in links && p in net && m in net[p]
  {
  }

  lemma BoundsAreOrdered(links: set<(string, string)>, trace: seq<Net>, events: seq<Event>, bounds: seq<nat>, k: nat)
    requires |trace| == |events| + 1 && Rounds(links, trace, events, bounds) && k < |bounds|
    ensures bounds[0] <= bounds[k] <= |events|
  {
    assert k == 0 || bounds[0] <= bounds[k];
  }

  lemma RoundDelivers(links: set<(string, string)>, trace: seq<Net>, events: seq<Event>, bounds: seq<nat>,
                      i: nat, p: string, m: string)
    requires |trace| == |events| + 1 && Rounds(links, trace, events, bounds) && i + 1 < |bounds| && (m, p) in links
    ensures bounds[i] <= bounds[i + 1] <= |events|
    ensures DeliversIn(trace, events, (m, p), bounds[i], bounds[i + 1])
  {
  }

  /** Completeness: once all links are checked, after k rounds every node knows every other node within
      distance k + 1, whatever else happens in between, unknown nodes dialling in included. */
  lemma {:induction false} GossipReachesDistance(nodes: set<string>, links: set<(string, string)>,
                                                 trace: seq<Net>, events: seq<Event>, bounds: seq<nat>,
                                                 k: nat, p: string, q: string)
    requires |trace| == |events| + 1 && Run(nodes, trace, events) && "" !in nodes
    requires k < |bounds| && bounds[0] <= |events| && Rounds(links, trace, events, bounds)
    requires Linked(nodes, links, trace[bounds[0]])
    requires p in nodes && q in nodes && p != q && Within(links, p, q, k + 1)
    ensures q in trace[bounds[k]][p]
    decreases k
  {
    hide Run, Rounds, Linked, DeliversIn;
    var start := bounds[0];
    var l :| l in links && l.0 == p && Within(links, l.1, q, k);
    var m := l.1;
    assert l == (p, m);
    LinkEnds(nodes, links, trace[start], p, m);
    BoundsAreOrdered(links, trace, events, bounds, k);
    if m == q {
      KnownPeersNeverShrink(nodes, trace, events, p, start, bounds[k]);
    } else {
      assert k > 0;
      GossipReachesDistance(nodes, links, trace, events, bounds, k - 1, m, q);
      RoundDelivers(links, trace, events, bounds, k - 1, p, m);
      RoundCarries(nodes, trace, events, bounds[k - 1], bounds[k], p, m, q);
    }
  }

  /** A handshake with the other end, or an address of it in an accepted pin check. */
  predicate Introduces(e: Event, l: (string, string)) {
    match e
    case Shaken(at, _, nodeId) => at == l.0 && nodeId == l.1
    case Advertised(at, nodeId, url) => at == l.0 && nodeId == l.1 && ("ws://" <= url || "wss://" <= url)
    case _ => false
  }

  ghost predicate Introduced(events: seq<Event>, l: (string, string), before: nat) {
    exists t :: 0 <= t < |events| && t < before && Introduces(events[t], l)
  }

  /** Every link, in both directions, has seen a handshake or an advertised address. */
  ghost predicate AllIntroduced(nodes: set<string>, links: set<(string, string)>, events: seq<Event>, before: nat) {
    && (forall l :: l in links ==> l.0 in nodes && l.1 in nodes && l.0 != l.1 && (l.1, l.0) in links)
    && (forall l :: l in links ==> Introduced(events, l, before))
  }

  lemma IntroducedIsKnown(nodes: set<string>, trace: seq<Net>, events: seq<Event>, l: (string, string), start: nat)
    requires |trace| == |events| + 1 && Run(nodes, trace, events) && start < |trace| && "" !in nodes
    requires l.0 in nodes && l.1 in nodes && l.0 != l.1 && Introduced(events, l, start)
    ensures l.0 in trace[start] && l.1 in trace[start][l.0]
  {
    TablesOfARun(nodes, trace, events);
    var t :| 0 <= t < |events| && t < start && Introduces(events[t], l);
    assert StepOf(nodes, trace, events[t], t);
    hide Run;
    if events[t].Shaken? {
      HandshakeTells(trace[t][l.0], l.0, events[t].peerId, l.1, l.1);
    } else {
      AdvertiseTells(trace[t][l.0], l.0, l.1, events[t].url);
    }
    assert l.1 in trace[t + 1][l.0];
    KnownPeersNeverShrink(nodes, trace, events, l.0, t + 1, start);
  }

  /** So from any start: once every link has been introduced at both ends, k rounds make every node known to
      every other within distance k + 1. */
  lemma GossipAfterIntroductions(nodes: set<string>, links: set<(string, string)>, trace: seq<Net>, events: seq<Event>,
                                 bounds: seq<nat>, k: nat, p: string, q: string)
    requires |trace| == |events| + 1 && Run(nodes, trace, events) && "" !in nodes
    requires k < |bounds| && bounds[0] <= |events| && Rounds(links, trace, events, bounds)
    requires AllIntroduced(nodes, links, events, bounds[0])
    requires p in nodes && q in nodes && p != q && Within(links, p, q, k + 1)
    ensures q in trace[bounds[k]][p]
  {
    hide Run, Rounds, Introduced, Within;
    forall l | l in links ensures l.0 in trace[bounds[0]] && l.1 in trace[bounds[0]][l.0] {
      IntroducedIsKnown(nodes, trace, events, l, bounds[0]);
    }
    GossipReachesDistance(nodes, links, trace, events, bounds, k, p, q);
  }

  // ---- a network without strangers -------------------------------------------------------

  /** Every address in a node's list can be connected to. */
  ghost predicate AllConnectable(net: Net) {
    forall p :: p in net ==> ConnectableList(net[p])
  }

  ghost predicate ConnectableList(known: map<string, string>) {
    forall n :: n in known ==> Connectable(known[n])
  }

  /** From a point on, handshakes over incoming connections come only from nodes already known. */
  ghost predicate NoStrangers(trace: seq<Net>, events: seq<Event>, start: nat)
    requires |trace| == |events| + 1
  {
    forall t: nat :: start <= t < |events| && events[t].Shaken? ==>
      Connectable(events[t].peerId) || (events[t].at in trace[t] && events[t].nodeId in trace[t][events[t].at])
  }

  lemma LearningKeepsConnectable(known: map<string, string>, self: string, peers: seq<Peer>)
    requires ConnectableList(known)
    ensures ConnectableList(Learn(known, self, peers))
  {
    forall n | n in Learn(known, self, peers) ensures Connectable(Learn(known, self, peers)[n]) {
      LearnAt(known, self, peers, n);
    }
  }

  lemma HandshakeKeepsConnectable(known: map<string, string>, self: string, peerId: string, nodeId: string)
    requires ConnectableList(known) && (Connectable(peerId) || nodeId in known)
    ensures ConnectableList(Handshake(known, self, peerId, nodeId))
  {
    if nodeId in known {
      ConnectableIsNotInbound(known[nodeId]);
    }
  }

  lemma StepKeepsConnectable(nodes: set<string>, trace: seq<Net>, events: seq<Event>, start: nat, t: nat)
    requires Run(nodes, trace, events) && start <= t < |events|
    requires NoStrangers(trace, events, start) && AllConnectable(trace[t])
    ensures AllConnectable(trace[t + 1])
  {
    hide Learn, Handshake;
    assert StepOf(nodes, trace, events[t], t);
    match events[t]
    case Delivered(_, receiver, _, peers) => LearningKeepsConnectable(trace[t][receiver], receiver, peers);
    case Shaken(at, peerId, nodeId) => HandshakeKeepsConnectable(trace[t][at], at, peerId, nodeId);
    case Advertised(_, _, _) =>
  }

  /** In such a network the addresses stay connectable, so every list a link delivers counts for its round. */
  lemma {:induction false} StaysConnectable(nodes: set<string>, trace: seq<Net>, events: seq<Event>, start: nat, t: nat)
    requires |trace| == |events| + 1 && Run(nodes, trace, events) && start <= t < |trace|
    requires NoStrangers(trace, events, start) && AllConnectable(trace[start])
    ensures AllConnectable(trace[t])
    decreases t - start
  {
    hide Run, NoStrangers, AllConnectable;
    if start < t {
      StaysConnectable(nodes, trace, events, start, t - 1);
      StepKeepsConnectable(nodes, trace, events, start, t - 1);
    }
  }

  /** In each round every link delivers a list sent in that round. */
  ghost predicate PlainRounds(links: set<(string, string)>, events: seq<Event>, bounds: seq<nat>) {
    && (forall i :: 0 <= i < |bounds| ==> bounds[i] <= |events|)
    && (forall i, j :: 0 <= i < j < |bounds| ==> bounds[i] <= bounds[j])
    && (forall i, l :: 0 <= i < |bounds| - 1 && l in links ==> PlainDelivery(events, l, bounds[i], bounds[i + 1]))
  }

  ghost predicate PlainDelivery(events: seq<Event>, l: (string, string), from: nat, to: nat) {
    exists t :: from <= t < to && t < |events| && events[t].Delivered?
             && events[t].sender == l.0 && events[t].receiver == l.1 && from <= events[t].sentAt
  }

  lemma DeliveryIsEarlier(nodes: set<string>, trace: seq<Net>, events: seq<Event>, t: nat)
    requires Run(nodes, trace, events) && t < |events| && events[t].Delivered?
    ensures events[t].sentAt <= t && events[t].sender in nodes
  {
    hide IsPeersList;
    assert StepOf(nodes, trace, events[t], t);
  }

  lemma PlainDeliveryCounts(nodes: set<string>, trace: seq<Net>, events: seq<Event>, start: nat,
                            l: (string, string), from: nat, to: nat)
    requires |trace| == |events| + 1 && Run(nodes, trace, events) && start <= from <= to <= |events|
    requires NoStrangers(trace, events, start) && AllConnectable(trace[start])
    requires PlainDelivery(events, l, from, to)
    ensures DeliversIn(trace, events, l, from, to)
  {
    hide Run, NoStrangers;
    TablesOfARun(nodes, trace, events);
    var t :| from <= t < to && t < |events| && events[t].Delivered?
          && events[t].sender == l.0 && events[t].receiver == l.1 && from <= events[t].sentAt;
    DeliveryIsEarlier(nodes, trace, events, t);
    StaysConnectable(nodes, trace, events, start, events[t].sentAt);
    assert DeliversAt(trace, events, l, from, t);
  }

  /** So there completeness needs no more than that every link delivers once a round. */
  lemma GossipWithoutStrangers(nodes: set<string>, links: set<(string, string)>, trace: seq<Net>, events: seq<Event>,
                               bounds: seq<nat>, k: nat, p: string, q: string)
    requires |trace| == |events| + 1 && Run(nodes, trace, events) && "" !in nodes
    requires k < |bounds| && bounds[0] <= |events| && PlainRounds(links, events, bounds)
    requires Linked(nodes, links, trace[bounds[0]]) && AllConnectable(trace[bounds[0]])
    requires NoStrangers(trace, events, bounds[0])
    requires p in nodes && q in nodes && p != q && Within(links, p, q, k + 1)
    ensures q in trace[bounds[k]][p]
  {
    hide Run, NoStrangers, AllConnectable, Linked, Within, DeliversIn, PlainDelivery;
    forall i, l | 0 <= i < |bounds| - 1 && l in links ensures DeliversIn(trace, events, l, bounds[i], bounds[i + 1]) {
      assert i == 0 || bounds[0] <= bounds[i];
      PlainDeliveryCounts(nodes, trace, events, bounds[0], l, bounds[i], bounds[i + 1]);
    }
    GossipReachesDistance(nodes, links, trace, events, bounds, k, p, q);
  }

  // ---- why the addresses must be connectable ---------------------------------------------

  /** A node known only by an inbound address stays so through any peer list, and is never passed on. */
  lemma InboundEntryIsStuck(known: map<string, string>, self: string, peers: seq<Peer>, nodeId: string, sent: seq<Peer>)
    requires nodeId in known && Inbound(known[nodeId])
    requires IsPeersList(sent, Learn(known, self, peers), self)
    ensures nodeId in Learn(known, self, peers) && Learn(known, self, peers)[nodeId] == known[nodeId]
    ensures !Lists(sent, nodeId)
  {
    LearnAt(known, self, peers, nodeId);
    ListedIsKnown(sent, Learn(known, self, peers), self, nodeId);
  }
}
