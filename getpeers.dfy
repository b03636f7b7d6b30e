/** One get_peers lookup: the state `get_peers_bs` keeps across rounds, and one round of it.
    The socket is replaced by two inputs per round: whether each send succeeded, and what each
    receive slot produced (a parsed datagram, or nothing on a timeout or receive error). */
module GetPeers {
  import opened Octets
  import opened Results
  import opened Bencode
  import opened Compact
  import opened Krpc
  import opened Selection

  /** The local node id sent in every query: twenty bytes of 7. */
  const MY_NODE_ID: NodeId := seq(20, _ => 7)

  /** How a round ends: peers found, nothing left to ask, another round to run, or a failed send. */
  datatype Outcome = Found(peers: seq<SocketAddr>) | Exhausted | Continue | IoError

  /** The nodes one receive slot contributes: those of a well-formed nodes response. */
  function NodesIn(datagram: Option<Decoded>): (n: seq<CompactNode>)
    ensures datagram.None? ==> n == []
    ensures n != [] ==> GetPeersResponseDecode(datagram.value) == Ok(Nodes(n))
    ensures datagram.Some? && GetPeersResponseDecode(datagram.value).Ok? && GetPeersResponseDecode(datagram.value).value.Nodes? ==>
      n == GetPeersResponseDecode(datagram.value).value.nodes
  {
    match datagram
    case Some(d) => (match GetPeersResponseDecode(d) case Ok(Nodes(n)) => n case _ => [])
    case None => []
  }

  /** The peers one receive slot contributes: those of a well-formed peers response. */
  function PeersIn(datagram: Option<Decoded>): (p: seq<SocketAddr>)
    ensures datagram.None? ==> p == []
    ensures p != [] ==> GetPeersResponseDecode(datagram.value) == Ok(Peers(p))
    ensures datagram.Some? && GetPeersResponseDecode(datagram.value).Ok? && GetPeersResponseDecode(datagram.value).value.Peers? ==>
      p == GetPeersResponseDecode(datagram.value).value.peers
  {
    match datagram
    case Some(d) => (match GetPeersResponseDecode(d) case Ok(Peers(p)) => p case _ => [])
    case None => []
  }

  /** All nodes a round heard of, in arrival order. */
  function CollectedNodes(datagrams: seq<Option<Decoded>>): (ns: seq<CompactNode>)
    ensures forall n :: n in ns ==> exists i :: 0 <= i < |datagrams| && n in NodesIn(datagrams[i])
  {
    if datagrams == [] then []
    else CollectedNodes(datagrams[..|datagrams| - 1]) + NodesIn(datagrams[|datagrams| - 1])
  }

  /** All peers a round heard of, in arrival order, repeats included. */
  function CollectedPeers(datagrams: seq<Option<Decoded>>): (ps: seq<SocketAddr>)
    ensures forall p :: p in ps ==> exists i :: 0 <= i < |datagrams| && p in PeersIn(datagrams[i])
  {
    if datagrams == [] then []
    else CollectedPeers(datagrams[..|datagrams| - 1]) + PeersIn(datagrams[|datagrams| - 1])
  }

  /** Replies that fail to parse or to classify, and empty slots, contribute nothing. */
  lemma {:induction false} FailuresContributeNothing(datagrams: seq<Option<Decoded>>)
    requires forall i :: 0 <= i < |datagrams| ==> datagrams[i].None? || GetPeersResponseDecode(datagrams[i].value).Err?
    ensures CollectedNodes(datagrams) == [] && CollectedPeers(datagrams) == []
  {
    if datagrams != [] {
      FailuresContributeNothing(datagrams[..|datagrams| - 1]);
    }
  }

  /** Nodes are collected reply by reply, in arrival order. */
  lemma {:induction false} CollectedNodesAppend(a: seq<Option<Decoded>>, b: seq<Option<Decoded>>)
    ensures CollectedNodes(a + b) == CollectedNodes(a) + CollectedNodes(b)
    decreases |b|
  {
    if b == [] {
      assert a + b == a;
    } else {
      var init, last := b[..|b| - 1], b[|b| - 1];
      assert a + b == (a + init) + [last] && b == init + [last];
      CollectedNodesSnoc(a + init, last);
      CollectedNodesSnoc(init, last);
      CollectedNodesAppend(a, init);
    }
  }

  lemma CollectedNodesSnoc(ds: seq<Option<Decoded>>, d: Option<Decoded>)
    ensures CollectedNodes(ds + [d]) == CollectedNodes(ds) + NodesIn(d)
  {
    assert (ds + [d])[..|ds|] == ds;
  }

  /** Peers are collected reply by reply, in arrival order. */
  lemma {:induction false} CollectedPeersAppend(a: seq<Option<Decoded>>, b: seq<Option<Decoded>>)
    ensures CollectedPeers(a + b) == CollectedPeers(a) + CollectedPeers(b)
    decreases |b|
  {
    if b == [] {
      assert a + b == a;
    } else {
      var init, last := b[..|b| - 1], b[|b| - 1];
      assert a + b == (a + init) + [last] && b == init + [last];
      CollectedPeersSnoc(a + init, last);
      CollectedPeersSnoc(init, last);
      CollectedPeersAppend(a, init);
    }
  }

  lemma CollectedPeersSnoc(ds: seq<Option<Decoded>>, d: Option<Decoded>)
    ensures CollectedPeers(ds + [d]) == CollectedPeers(ds) + PeersIn(d)
  {
    assert (ds + [d])[..|ds|] == ds;
  }

  /** A single receive slot contributes exactly its own nodes and peers. */
  lemma OneReply(reply: Option<Decoded>)
    ensures CollectedNodes([reply]) == NodesIn(reply) && CollectedPeers([reply]) == PeersIn(reply)
  {
    assert [] + [reply] == [reply];
    CollectedNodesSnoc([], reply);
    CollectedPeersSnoc([], reply);
  }

  /** Peers are kept exactly as they arrive: a peers reply received twice gives its peers twice. */
  lemma PeersNotDeduplicated(reply: Option<Decoded>, ps: seq<SocketAddr>)
    requires reply.Some? && GetPeersResponseDecode(reply.value) == Ok(Peers(ps))
    ensures CollectedPeers([reply, reply]) == ps + ps
  {
    OneReply(reply);
    CollectedPeersAppend([reply], [reply]);
    assert [reply] + [reply] == [reply, reply];
  }

  /** The receive half of a round: one slot per datagram sent, each well-formed reply adding its
      nodes or its peers, everything else skipped. */
  method Receive(datagrams: seq<Option<Decoded>>) returns (iterNodes: seq<CompactNode>, found: seq<SocketAddr>)
    ensures iterNodes == CollectedNodes(datagrams)
    ensures found == CollectedPeers(datagrams)
  {
    iterNodes, found := [], [];
    for i := 0 to |datagrams|
      invariant iterNodes == CollectedNodes(datagrams[..i])
      invariant found == CollectedPeers(datagrams[..i])
    {
      assert datagrams[..i + 1][..i] == datagrams[..i];
      match datagrams[i] {
        case Some(d) =>
          match GetPeersResponseDecode(d) {
            case Ok(Nodes(n)) => iterNodes := iterNodes + n;
            case Ok(Peers(p)) => found := found + p;
            case Err(_) =>
          }
        case None =>
      }
    }
    assert datagrams[..|datagrams|] == datagrams;
  }

  /** Every address of every frontier. */
  ghost function Selected(frontiers: seq<seq<SocketAddr>>): set<SocketAddr>
  {
    if frontiers == [] then {}
    else
      var last := frontiers[|frontiers| - 1];
      Selected(frontiers[..|frontiers| - 1]) + (set a | a in last)
  }

  class Lookup {
    /** The torrent's info-hash, the target of every distance. */
    const infoHash: NodeId
    /** The one query sent to every node in every round. */
    const query: BencodeElem
    /** Addresses already selected for a round; bootstrap addresses are never added. */
    var visited: set<SocketAddr>
    /** The nodes the next round sends to. */
    var nodes: seq<SocketAddr>
    /** The peers collected so far. */
    var peers: seq<SocketAddr>
    /** The frontiers selected so far, one per completed round. */
    ghost var frontiers: seq<seq<SocketAddr>>

    /** Visited holds exactly the addresses of the frontiers selected so far, so never a
        bootstrap address that no reply named; the current nodes are the last frontier. */
    ghost predicate Valid()
      reads this
    {
      && visited == Selected(frontiers)
      && (|frontiers| > 0 ==> nodes == frontiers[|frontiers| - 1] && |nodes| <= SELECTED)
    }

    /** The start of `get_peers_bs`: nothing visited, the bootstrap nodes to ask first. */
    constructor (infoHash: NodeId, bootstrap: seq<SocketAddr>)
      ensures Valid()
      ensures this.infoHash == infoHash && query == GetPeersMsg(MY_NODE_ID, infoHash)
      ensures visited == {} && nodes == bootstrap && peers == [] && frontiers == []
    {
      this.infoHash := infoHash;
      query := GetPeersMsg(MY_NODE_ID, infoHash);
      visited := {};
      nodes := bootstrap;
      peers := [];
      frontiers := [];
    }

    /** One pass of the lookup loop: send the query to every node, take one receive per send,
        then stop with the peers, stop with nothing, or select the next frontier. */
    method Round(sendOk: seq<bool>, datagrams: seq<Option<Decoded>>) returns (outcome: Outcome)
      requires Valid() && peers == []
      requires |sendOk| == |nodes| && |datagrams| == |nodes|
      modifies this
      ensures Valid()
      ensures old(visited) <= visited
      ensures outcome == IoError <==> exists i :: 0 <= i < |sendOk| && !sendOk[i]
      ensures outcome == IoError ==>
        visited == old(visited) && nodes == old(nodes) && peers == old(peers) && frontiers == old(frontiers)
      ensures outcome != IoError ==> peers == CollectedPeers(datagrams)
      ensures outcome != IoError && !outcome.Found? ==> peers == []
      ensures outcome != IoError && peers != [] ==>
        outcome == Found(peers) && visited == old(visited) && nodes == old(nodes) && frontiers == old(frontiers)
      ensures outcome != IoError && peers == [] && old(nodes) == [] ==>
        outcome == Exhausted && visited == old(visited) && nodes == old(nodes) && frontiers == old(frontiers)
      ensures outcome != IoError && peers == [] && old(nodes) != [] ==>
        && outcome == Continue
        && nodes == Addrs(NextFrontier(infoHash, old(visited), CollectedNodes(datagrams)))
        && visited == old(visited) + (set a | a in nodes)
        && frontiers == old(frontiers) + [nodes]
      ensures outcome == Continue ==> |nodes| <= SELECTED && forall a :: a in nodes ==> a !in old(visited)
    {
      // Dispatch: the first failed send ends the lookup.
      for i := 0 to |nodes|
        invariant forall j :: 0 <= j < i ==> sendOk[j]
      {
        if !sendOk[i] {
          return IoError;
        }
      }

      outcome := Settle(datagrams);
    }

    /** The rest of a round once every send succeeded: one receive per send, then stop with the
        peers, stop with nothing when nothing was sent, or select the next frontier. */
    method Settle(datagrams: seq<Option<Decoded>>) returns (outcome: Outcome)
      requires Valid() && peers == []
      requires |datagrams| == |nodes|
      modifies this
      ensures Valid()
      ensures old(visited) <= visited
      ensures outcome != IoError
      ensures peers == CollectedPeers(datagrams)
      ensures !outcome.Found? ==> peers == []
      ensures peers != [] ==>
        outcome == Found(peers) && visited == old(visited) && nodes == old(nodes) && frontiers == old(frontiers)
      ensures peers == [] && old(nodes) == [] ==>
        outcome == Exhausted && visited == old(visited) && nodes == old(nodes) && frontiers == old(frontiers)
      ensures peers == [] && old(nodes) != [] ==>
        && outcome == Continue
        && nodes == Addrs(NextFrontier(infoHash, old(visited), CollectedNodes(datagrams)))
        && visited == old(visited) + (set a | a in nodes)
        && frontiers == old(frontiers) + [nodes]
      ensures outcome == Continue ==> |nodes| <= SELECTED && forall a :: a in nodes ==> a !in old(visited)
    {
      var iterNodes, found := Receive(datagrams);
      peers := found;

      if peers != [] {
        return Found(peers);
      }
      if nodes == [] {
        return Exhausted;
      }

      Advance(iterNodes);
      return Continue;
    }

    /** The selection step of a round that heard no peers: rank the nodes heard of, forward to the
        closest five unvisited ones and mark their addresses visited. */
    method Advance(collected: seq<CompactNode>)
      requires Valid()
      modifies this
      ensures Valid()
      ensures nodes == Addrs(NextFrontier(infoHash, old(visited), collected))
      ensures visited == old(visited) + (set a | a in nodes)
      ensures frontiers == old(frontiers) + [nodes] && peers == old(peers)
      ensures |nodes| <= SELECTED && forall a :: a in nodes ==> a !in old(visited)
    {
      var iterNodes := Unvisited(collected, visited);
      iterNodes := DedupByAddr(iterNodes);
      iterNodes := SortByDistance(infoHash, iterNodes);
      iterNodes := Truncate(iterNodes, SELECTED);
      assert iterNodes == NextFrontier(infoHash, visited, collected);
      FrontierAddrsFresh(infoHash, visited, collected);

      MarkVisited(iterNodes);
      assert iterNodes[..|iterNodes|] == iterNodes;
      nodes := Addrs(iterNodes);
      frontiers := frontiers + [nodes];
      assert frontiers[..|frontiers| - 1] == old(frontiers);
      assert Selected(frontiers) == old(visited) + (set a | a in nodes);
    }

    /** Marks the addresses of the selected nodes visited, one insertion at a time. */
    method MarkVisited(selected: seq<CompactNode>)
      modifies this`visited
      ensures visited == old(visited) + (set a | a in Addrs(selected))
    {
      for i := 0 to |selected|
        invariant visited == old(visited) + (set a | a in Addrs(selected[..i]))
      {
        assert Addrs(selected[..i + 1]) == Addrs(selected[..i]) + [selected[i].addr];
        visited := visited + {selected[i].addr};
      }
      assert selected[..|selected|] == selected;
    }
  }
}
