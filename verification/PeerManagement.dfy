/** The peer tables of sync-manager.js and the messages that change them: handshakes, pin checks,
    advertised addresses and peer lists. Sockets, timers and the contract refresh are parameters. */
module PeerManagement {
  import opened Tables
  import opened Gossip

  /** A pinned contract identity. */
  datatype Pin = Pin(rpcTlsCaCert: Option<string>, contractAddress: string, chainId: int, allowNonRaTls: bool)

  /** A pin-check message; a node without a pinned identity sends none. */
  datatype PinCheck = PinCheck(pin: Option<Pin>, nodeId: string, listenUrl: Option<string>)

  function Certificate(pin: Pin): string {
    if pin.rpcTlsCaCert.Some? then pin.rpcTlsCaCert.value else ""
  }

  predicate PinIdentityMatches(local: Option<Pin>, peer: Pin) {
    && local.Some?
    && Certificate(local.value) == Certificate(peer)
    && local.value.contractAddress == peer.contractAddress
    && local.value.chainId == peer.chainId
    && local.value.allowNonRaTls == peer.allowNonRaTls
  }

  /** What the node reads of its own pin during one check: at once, after the refresh it makes when it has
      none, and after the refresh it makes on a mismatch. */
  datatype LocalPins = LocalPins(first: Option<Pin>, refreshed: Option<Pin>, again: Option<Pin>)

  predicate AcceptsPin(local: LocalPins, peer: Option<Pin>) {
    var pin := if local.first.Some? then local.first else local.refreshed;
    if peer.None? then pin.None? else PinIdentityMatches(pin, peer.value) || PinIdentityMatches(local.again, peer.value)
  }

  function Steady(pin: Option<Pin>): LocalPins {
    LocalPins(pin, pin, pin)
  }

  /** Between two nodes whose pins hold still, either both accept the link or both refuse it: they accept
      when neither is pinned, or both are to the same contract, chain, certificate and mode. */
  lemma PinChecksAgree(a: Option<Pin>, b: Option<Pin>)
    ensures AcceptsPin(Steady(a), b) <==> AcceptsPin(Steady(b), a)
    ensures AcceptsPin(Steady(a), b) <==>
      (a.None? && b.None?)
      || (a.Some? && b.Some? && Certificate(a.value) == Certificate(b.value)
          && a.value.(rpcTlsCaCert := None) == b.value.(rpcTlsCaCert := None))
  {
  }

  /** Pinned to the same contract: address, chain, mode and certificate agree, no certificate being the same
      as an empty one. */
  predicate SameContract(a: Pin, b: Pin) {
    && a.contractAddress == b.contractAddress && a.chainId == b.chainId && a.allowNonRaTls == b.allowNonRaTls
    && (a.rpcTlsCaCert == b.rpcTlsCaCert
        || (a.rpcTlsCaCert in {None, Some("")} && b.rpcTlsCaCert in {None, Some("")}))
  }

  /** An unpinned peer is accepted exactly by a node that has no pin, not even after a refresh; a pinned one
      exactly by a node pinned to the same contract, now or after the refresh a mismatch makes it do. */
  lemma AcceptsPinIff(local: LocalPins, peer: Option<Pin>)
    ensures AcceptsPin(local, peer) <==>
      match peer
      case None => local.first == None && local.refreshed == None
      case Some(p) =>
        || (local.first != None && SameContract(local.first.value, p))
        || (local.first == None && local.refreshed != None && SameContract(local.refreshed.value, p))
        || (local.again != None && SameContract(local.again.value, p))
  {
  }

  class SyncManager {
    const nodeId: string
    var knownPeers: map<string, string>
    var peerIdToNodeId: map<string, string>
    var pinCheckedPeers: set<string>
    var openPeers: set<string>

    constructor (nodeId: string)
      ensures this.nodeId == nodeId && knownPeers == map[] && peerIdToNodeId == map[]
      ensures pinCheckedPeers == {} && openPeers == {}
    {
      this.nodeId := nodeId;
      knownPeers, peerIdToNodeId := map[], map[];
      pinCheckedPeers, openPeers := {}, {};
    }

    method ExtractNodeIdFromHandshake(peerId: string, peer: string)
      modifies this`knownPeers, this`peerIdToNodeId
      ensures knownPeers == Handshake(old(knownPeers), nodeId, peerId, peer)
      ensures peerIdToNodeId ==
        if peer == "" || peer == nodeId then old(peerIdToNodeId) else old(peerIdToNodeId)[peerId := peer]
    {
      if peer == "" || peer == nodeId {
        return;
      }
      peerIdToNodeId := peerIdToNodeId[peerId := peer];
      var isConnectable := !Inbound(peerId);
      if peer !in knownPeers || (Inbound(knownPeers[peer]) && isConnectable) {
        knownPeers := knownPeers[peer := peerId];
      }
    }

    method RecordPeerAdvertisedUrl(peerId: string, m: PinCheck)
      modifies this`knownPeers, this`peerIdToNodeId
      ensures knownPeers ==
        if m.listenUrl.Some? then Advertise(old(knownPeers), nodeId, m.nodeId, m.listenUrl.value) else old(knownPeers)
      ensures peerIdToNodeId ==
        if m.nodeId == "" || m.nodeId == nodeId then old(peerIdToNodeId) else old(peerIdToNodeId)[peerId := m.nodeId]
    {
      if m.nodeId == "" || m.nodeId == nodeId {
        return;
      }
      peerIdToNodeId := peerIdToNodeId[peerId := m.nodeId];
      if m.listenUrl.None? || !Connectable(m.listenUrl.value) {
        return;
      }
      if m.nodeId !in knownPeers || knownPeers[m.nodeId] != m.listenUrl.value {
        knownPeers := knownPeers[m.nodeId := m.listenUrl.value];
      }
    }

    /** An unchecked peer changes the tables only when its pin is accepted; a checked one only its address. */
    method HandlePinCheck(peerId: string, m: PinCheck, local: LocalPins) returns (accepted: bool)
      modifies this`knownPeers, this`peerIdToNodeId, this`pinCheckedPeers
      ensures accepted <==> peerId in old(pinCheckedPeers) || AcceptsPin(local, m.pin)
      ensures pinCheckedPeers == if accepted then old(pinCheckedPeers) + {peerId} else old(pinCheckedPeers)
      ensures knownPeers ==
        if accepted && m.listenUrl.Some? then Advertise(old(knownPeers), nodeId, m.nodeId, m.listenUrl.value)
        else old(knownPeers)
      ensures peerIdToNodeId ==
        if accepted && m.nodeId != "" && m.nodeId != nodeId then old(peerIdToNodeId)[peerId := m.nodeId]
        else old(peerIdToNodeId)
    {
      accepted := peerId in pinCheckedPeers;
      if !accepted {
        accepted := VerifyPeerPin(m, local);
      }
      if accepted {
        pinCheckedPeers := pinCheckedPeers + {peerId};
        RecordPeerAdvertisedUrl(peerId, m);
      }
    }

    method VerifyPeerPin(m: PinCheck, local: LocalPins) returns (accepted: bool)
      ensures accepted == AcceptsPin(local, m.pin)
    {
      var localPin := local.first;
      if localPin.None? {
        localPin := local.refreshed;
      }
      if m.pin.None? {
        return localPin.None?;
      }
      if PinIdentityMatches(localPin, m.pin.value) {
        return true;
      }
      return PinIdentityMatches(local.again, m.pin.value);
    }

    method HandlePinCheckAck(peerId: string, ok: bool)
      modifies this`pinCheckedPeers
      ensures pinCheckedPeers == if ok then old(pinCheckedPeers) + {peerId} else old(pinCheckedPeers)
    {
      if ok {
        pinCheckedPeers := pinCheckedPeers + {peerId};
      }
    }

    /** The list goes to the open peers that are pin-checked, when there is anything known. */
    method BroadcastPeers() returns (trustedPeers: set<string>, peersList: seq<Peer>)
      ensures trustedPeers == if knownPeers == map[] then {} else pinCheckedPeers * openPeers
      ensures trustedPeers != {} ==> IsPeersList(peersList, knownPeers, nodeId)
      ensures forall i, j :: 0 <= i < j < |peersList| ==> peersList[i].nodeId != peersList[j].nodeId
    {
      trustedPeers, peersList := pinCheckedPeers * openPeers, [];
      if trustedPeers == {} || |knownPeers| == 0 {
        trustedPeers := {};
        return;
      }
      var rest := knownPeers.Keys;
      while rest != {}
        invariant rest <= knownPeers.Keys
        invariant forall n, u :: Peer(n, u) in peersList <==>
          n in knownPeers.Keys - rest && knownPeers[n] == u && n != "" && n != nodeId && !Inbound(u)
        invariant forall i, j :: 0 <= i < j < |peersList| ==> peersList[i].nodeId != peersList[j].nodeId
        decreases |rest|
      {
        var n :| n in rest;
        rest := rest - {n};
        var url := knownPeers[n];
        if n != "" && n != nodeId && !Inbound(url) {
          forall i | 0 <= i < |peersList| ensures peersList[i].nodeId != n {
            assert Peer(peersList[i].nodeId, peersList[i].url) in peersList;
          }
          peersList := peersList + [Peer(n, url)];
        }
      }
    }

    /** A list is taken only from a pin-checked peer; the count is of the nodes newly known. */
    method HandlePeersList(peerId: string, peers: seq<Peer>) returns (newPeersCount: nat)
      modifies this`knownPeers
      ensures knownPeers == if peerId in pinCheckedPeers then Learn(old(knownPeers), nodeId, peers) else old(knownPeers)
      ensures newPeersCount == |knownPeers.Keys| - |old(knownPeers).Keys|
    {
      newPeersCount := 0;
      if peerId !in pinCheckedPeers {
        return;
      }
      ghost var before := knownPeers;
      for i := 0 to |peers|
        invariant knownPeers == Learn(before, nodeId, peers[..i])
        invariant newPeersCount == |knownPeers.Keys| - |before.Keys|
      {
        assert peers[..i + 1][..i] == peers[..i];
        var peer := peers[i];
        if Connectable(peer.url) && peer.nodeId != nodeId && peer.nodeId !in knownPeers {
          assert knownPeers[peer.nodeId := peer.url].Keys == knownPeers.Keys + {peer.nodeId};
          knownPeers := knownPeers[peer.nodeId := peer.url];
          newPeersCount := newPeersCount + 1;
        }
      }
      assert peers[..|peers|] == peers;
    }
  }
}
