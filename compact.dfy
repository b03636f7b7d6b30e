/** Socket addresses and the fixed-width "compact" encodings of the DHT: a peer is 6 bytes
    (IPv4 octets, big-endian port), a node is 26 bytes (20-byte id, then a peer record). */
module Compact {
  import opened Octets
  import opened Results
  import opened Bencode

  type u16 = x: int | 0 <= x < 0x1_0000

  /** A 160-bit DHT identifier: a node id or a torrent's info-hash. */
  type NodeId = s: seq<byte> | |s| == 20
    witness [0, 0, 0, 0, 0, 0, 0, 0, 0, 0, 0, 0, 0, 0, 0, 0, 0, 0, 0, 0]

  datatype Ipv4Addr = Ipv4Addr(a: byte, b: byte, c: byte, d: byte)

  /** Rust's `SocketAddr`. Only the V4 form is ever decoded from a compact record; a V6 address
      can only enter the lookup as a bootstrap endpoint. */
  datatype SocketAddr =
    | V4(ip: Ipv4Addr, port: u16)
    | V6(segments: seq<byte>, port: u16)

  datatype CompactNode = CompactNode(id: NodeId, addr: SocketAddr)

  /** What a response carries: peer addresses, or nodes closer to the target. */
  datatype PeersNodes = Peers(peers: seq<SocketAddr>) | Nodes(nodes: seq<CompactNode>)

  const PEER_LEN: nat := 6
  const NODE_LEN: nat := 26

  // ---------------------------------------------------------------------------------------------
  // Peer records (6 bytes)

  /** `bytes_to_sock`: the first four bytes are the IPv4 octets in order, the last two the port. */
  function BytesToSock(b: seq<byte>): (addr: SocketAddr)
    requires |b| == PEER_LEN
    ensures addr.V4? && addr.ip == Ipv4Addr(b[0], b[1], b[2], b[3])
    ensures addr.port == b[4] as int * 256 + b[5]
  {
    BeValuePair(b[4], b[5]);
    assert b[4..6] == [b[4], b[5]];
    V4(Ipv4Addr(b[0], b[1], b[2], b[3]), BeValue(b[4..6]))
  }

  /** The compact peer record of an IPv4 address: the inverse of `BytesToSock`. */
  function SockToBytes(addr: SocketAddr): (b: seq<byte>)
    requires addr.V4?
    ensures |b| == PEER_LEN
  {
    [addr.ip.a, addr.ip.b, addr.ip.c, addr.ip.d, addr.port / 256, addr.port % 256]
  }

  lemma SockRoundTrip(addr: SocketAddr)
    requires addr.V4?
    ensures BytesToSock(SockToBytes(addr)) == addr
  {
  }

  lemma SockBytesRoundTrip(b: seq<byte>)
    requires |b| == PEER_LEN
    ensures SockToBytes(BytesToSock(b)) == b
  {
    DivModPair(b[4], b[5]);
  }

  /** The decoding of the record [192, 168, 1, 1, 0x1A, 0xE1]. */
  lemma PeerRecordExample()
    ensures BytesToSock([192, 168, 1, 1, 0x1A, 0xE1]) == V4(Ipv4Addr(192, 168, 1, 1), 6881)
  {
  }

  // ---------------------------------------------------------------------------------------------
  // Node records (26 bytes)

  /** `CompactNode::from_bytes`: the first 20 bytes are the id, the rest a peer record. */
  function NodeFromBytes(b: seq<byte>): (n: CompactNode)
    requires |b| == NODE_LEN
    ensures n.id == b[..20] && n.addr == BytesToSock(b[20..])
  {
    CompactNode(b[..20], BytesToSock(b[20..]))
  }

  /** The compact record of a node with an IPv4 address: the inverse of `NodeFromBytes`. */
  function NodeToBytes(n: CompactNode): (b: seq<byte>)
    requires n.addr.V4?
    ensures |b| == NODE_LEN
  {
    n.id + SockToBytes(n.addr)
  }

  lemma NodeRoundTrip(n: CompactNode)
    requires n.addr.V4?
    ensures NodeFromBytes(NodeToBytes(n)) == n
  {
    var b := NodeToBytes(n);
    assert b[..20] == n.id;
    assert b[20..] == SockToBytes(n.addr);
    SockRoundTrip(n.addr);
  }

  lemma NodeBytesRoundTrip(b: seq<byte>)
    requires |b| == NODE_LEN
    ensures NodeToBytes(NodeFromBytes(b)) == b
  {
    SockBytesRoundTrip(b[20..]);
    assert b[..20] + b[20..] == b;
  }

  /** The chunks of a blob whose length is a multiple of 26, decoded in order. */
  function DecodeChunks(b: seq<byte>): (ns: seq<CompactNode>)
    requires |b| % NODE_LEN == 0
    decreases |b|
    ensures |ns| == |b| / NODE_LEN
    ensures forall i :: 0 <= i < |ns| ==> ns[i] == NodeFromBytes(b[NODE_LEN * i .. NODE_LEN * i + NODE_LEN])
  {
    if b == [] then []
    else
      var rest := DecodeChunks(b[NODE_LEN..]);
      assert forall i :: 1 <= i < |rest| + 1 ==>
        b[NODE_LEN..][NODE_LEN * (i - 1) .. NODE_LEN * (i - 1) + NODE_LEN] == b[NODE_LEN * i .. NODE_LEN * i + NODE_LEN];
      [NodeFromBytes(b[..NODE_LEN])] + rest
  }

  /** `PeersNodes::nodes_from_bytes`: all or nothing; a blob with a partial trailing record is
      rejected as a whole. */
  function NodesFromBytes(b: seq<byte>): (r: Result<PeersNodes, ()>)
    ensures r.Err? <==> |b| % NODE_LEN != 0
    ensures r.Ok? ==> r.value.Nodes? && |r.value.nodes| == |b| / NODE_LEN
    ensures r.Ok? ==> forall i :: 0 <= i < |r.value.nodes| ==>
      r.value.nodes[i] == NodeFromBytes(b[NODE_LEN * i .. NODE_LEN * i + NODE_LEN])
  {
    if |b| % NODE_LEN != 0 then Err(()) else Ok(Nodes(DecodeChunks(b)))
  }

  /** The blob a responder sends for a list of IPv4 nodes. */
  function EncodeNodes(ns: seq<CompactNode>): (b: seq<byte>)
    requires forall n :: n in ns ==> n.addr.V4?
    ensures |b| == NODE_LEN * |ns|
  {
    if ns == [] then [] else NodeToBytes(ns[0]) + EncodeNodes(ns[1..])
  }

  lemma {:induction false} NodesRoundTrip(ns: seq<CompactNode>)
    requires forall n :: n in ns ==> n.addr.V4?
    ensures NodesFromBytes(EncodeNodes(ns)) == Ok(Nodes(ns))
  {
    var b := EncodeNodes(ns);
    assert |b| % NODE_LEN == 0;
    var r := DecodeChunks(b);
    assert |r| == |ns|;
    forall i | 0 <= i < |ns|
      ensures r[i] == ns[i]
    {
      EncodeNodesAt(ns, i);
      NodeRoundTrip(ns[i]);
    }
    assert r == ns;
  }

  lemma {:induction false} EncodeNodesAt(ns: seq<CompactNode>, i: nat)
    requires forall n :: n in ns ==> n.addr.V4?
    requires i < |ns|
    ensures EncodeNodes(ns)[NODE_LEN * i .. NODE_LEN * i + NODE_LEN] == NodeToBytes(ns[i])
  {
    var b := EncodeNodes(ns);
    if i == 0 {
      assert b[..NODE_LEN] == NodeToBytes(ns[0]);
    } else {
      EncodeNodesAt(ns[1..], i - 1);
      assert b[NODE_LEN..] == EncodeNodes(ns[1..]);
    }
  }

  // ---------------------------------------------------------------------------------------------
  // Peer lists

  /** The address one element of a "values" list stands for: a byte string or string of exactly
      six bytes; any other element stands for none. */
  function EntryPeer(e: BencodeElem): (p: Option<SocketAddr>)
    ensures p.Some? <==> (e.Bytes? && |e.bytes| == PEER_LEN) || (e.String? && |e.chars| == PEER_LEN)
    ensures e.Bytes? && |e.bytes| == PEER_LEN ==> p == Some(BytesToSock(e.bytes))
    ensures e.String? && |e.chars| == PEER_LEN ==> p == Some(BytesToSock(e.chars))
  {
    match e
    case Bytes(b) => if |b| == PEER_LEN then Some(BytesToSock(b)) else None
    case String(s) => if |s| == PEER_LEN then Some(BytesToSock(s)) else None
    case _ => None
  }

  /** The in-order decoding of the well-formed elements of a "values" list. */
  function PeersOf(elems: seq<BencodeElem>): (peers: seq<SocketAddr>)
    ensures |peers| <= |elems|
  {
    if elems == [] then []
    else
      var last := elems[|elems| - 1];
      PeersOf(elems[..|elems| - 1]) + (match EntryPeer(last) case Some(p) => [p] case None => [])
  }

  /** `PeersNodes::peers_from_list`: malformed elements are skipped one at a time, never fatal. */
  method PeersFromList(elems: seq<BencodeElem>) returns (r: PeersNodes)
    ensures r == Peers(PeersOf(elems))
  {
    var peers: seq<SocketAddr> := [];
    for i := 0 to |elems|
      invariant peers == PeersOf(elems[..i])
    {
      assert elems[..i + 1][..i] == elems[..i];
      match EntryPeer(elems[i])
      case Some(p) => peers := peers + [p];
      case None =>
    }
    assert elems[..|elems|] == elems;
    r := Peers(peers);
  }

  lemma {:induction false} PeersOfAppend(a: seq<BencodeElem>, b: seq<BencodeElem>)
    ensures PeersOf(a + b) == PeersOf(a) + PeersOf(b)
    decreases |b|
  {
    if b == [] {
      assert a + b == a;
    } else {
      var init := b[..|b| - 1];
      assert (a + b)[..|a + b| - 1] == a + init;
      PeersOfAppend(a, init);
    }
  }

  /** Every address comes from some element, and every well-formed element gives its address. */
  lemma {:induction false} PeersOfExactly(elems: seq<BencodeElem>, p: SocketAddr)
    ensures p in PeersOf(elems) <==> exists i :: 0 <= i < |elems| && EntryPeer(elems[i]) == Some(p)
  {
    if elems != [] {
      var init := elems[..|elems| - 1];
      PeersOfExactly(init, p);
      if exists i :: 0 <= i < |elems| && EntryPeer(elems[i]) == Some(p) {
        var i :| 0 <= i < |elems| && EntryPeer(elems[i]) == Some(p);
        if i < |init| {
          assert EntryPeer(init[i]) == Some(p);
        }
      }
    }
  }

  /** A list of only well-formed records decodes element by element. */
  lemma {:induction false} PeersOfWellFormed(elems: seq<BencodeElem>)
    requires forall e :: e in elems ==> EntryPeer(e).Some?
    ensures |PeersOf(elems)| == |elems|
    ensures forall i :: 0 <= i < |elems| ==> PeersOf(elems)[i] == EntryPeer(elems[i]).value
  {
    if elems != [] {
      var init := elems[..|elems| - 1];
      PeersOfWellFormed(init);
    }
  }

  /** The "values" list a responder sends for a list of IPv4 peers. */
  function EncodePeers(addrs: seq<SocketAddr>): (elems: seq<BencodeElem>)
    requires forall a :: a in addrs ==> a.V4?
    ensures |elems| == |addrs|
    ensures forall i :: 0 <= i < |addrs| ==> elems[i] == Bytes(SockToBytes(addrs[i]))
  {
    seq(|addrs|, i requires 0 <= i < |addrs| => Bytes(SockToBytes(addrs[i])))
  }

  lemma PeersRoundTrip(addrs: seq<SocketAddr>)
    requires forall a :: a in addrs ==> a.V4?
    ensures PeersOf(EncodePeers(addrs)) == addrs
  {
    var elems := EncodePeers(addrs);
    forall i | 0 <= i < |addrs|
      ensures EntryPeer(elems[i]) == Some(addrs[i])
    {
      SockRoundTrip(addrs[i]);
    }
    PeersOfWellFormed(elems);
  }
}
