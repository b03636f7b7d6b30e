/** KRPC message shaping for get_peers: the query a client sends and the classification of what
    comes back. Bencode values are taken already parsed; a datagram the parser rejects arrives as
    `ParseFailure`. */
module Krpc {
  import opened Octets
  import opened Results
  import opened Bencode
  import opened Compact

  /** The transaction id "aa". */
  const TXN_ID: seq<byte> := [0x61, 0x61]
  /** The message type "q" (query). */
  const QUERY_TYPE: seq<byte> := [0x71]
  /** The method name "get_peers". */
  const GET_PEERS: seq<byte> := [0x67, 0x65, 0x74, 0x5f, 0x70, 0x65, 0x65, 0x72, 0x73]

  /** `get_peers_msg`: the query dictionary, with the sender's id and the target info-hash as
      byte strings under "a". */
  function GetPeersMsg(localNodeId: NodeId, infoHash: NodeId): (msg: BencodeElem)
    ensures msg.Dictionary? && msg.entries.Keys == {"t", "y", "q", "a"}
    ensures msg.entries["t"] == String(TXN_ID) && msg.entries["y"] == String(QUERY_TYPE)
    ensures msg.entries["q"] == String(GET_PEERS)
    ensures msg.entries["a"] == Dictionary(map["id" := Bytes(localNodeId), "info_hash" := Bytes(infoHash)])
  {
    var args := map["id" := Bytes(localNodeId), "info_hash" := Bytes(infoHash)];
    Dictionary(map["t" := String(TXN_ID), "y" := String(QUERY_TYPE), "q" := String(GET_PEERS),
                   "a" := Dictionary(args)])
  }

  datatype Query = GetPeersQuery(txn: seq<byte>, senderId: NodeId, target: NodeId)

  /** How a DHT node reads a get_peers query: a dictionary typed "q", named "get_peers", whose
      "a" holds a 20-byte "id" and a 20-byte "info_hash". */
  function ReadQuery(msg: BencodeElem): (q: Option<Query>)
    ensures q.Some? ==> msg.Dictionary? && "a" in msg.entries
  {
    match msg
    case Dictionary(d) =>
      if !("t" in d && "y" in d && "q" in d && "a" in d) then None
      else if !(d["t"].String? && d["y"] == String(QUERY_TYPE) && d["q"] == String(GET_PEERS)) then None
      else
        (match d["a"]
         case Dictionary(args) =>
           if "id" in args && "info_hash" in args && args["id"].Bytes? && args["info_hash"].Bytes?
              && |args["id"].bytes| == 20 && |args["info_hash"].bytes| == 20
           then Some(GetPeersQuery(d["t"].chars, args["id"].bytes, args["info_hash"].bytes))
           else None
         case _ => None)
    case _ => None
  }

  /** The query reads back as a get_peers query with the sender's id and the target. */
  lemma QueryReadsBack(localNodeId: NodeId, infoHash: NodeId)
    ensures ReadQuery(GetPeersMsg(localNodeId, infoHash)) == Some(GetPeersQuery(TXN_ID, localNodeId, infoHash))
  {
  }

  /** The crate's `Error`: a bencode parse failure, a numbered shape error, or an error the
      responding node reported under "e". */
  datatype Error =
    | LavaTorrentError
    | DeserializeError(code: int)
    | ProtoError(payload: BencodeElem)

  /** What the bencode parser made of one datagram: its top-level values, or a failure. */
  datatype Decoded = Elems(elems: seq<BencodeElem>) | ParseFailure

  /** The "r" dictionary's "values" and "nodes" entries, classified. A "values" list wins over a
      "nodes" byte string; "nodes" alone must hold whole 26-byte records. */
  function ClassifyResponse(r: map<string, BencodeElem>): (res: Result<PeersNodes, Error>)
    ensures res.Err? ==> res.error == DeserializeError(6) || res.error == DeserializeError(7)
    ensures res == Err(DeserializeError(6)) <==>
      "values" !in r && "nodes" in r && r["nodes"].Bytes? && |r["nodes"].bytes| % NODE_LEN != 0
  {
    match (Get(r, "values"), Get(r, "nodes"))
    case (Some(List(p)), None) => Ok(Peers(PeersOf(p)))
    case (Some(List(p)), Some(Bytes(_))) => Ok(Peers(PeersOf(p)))
    case (None, Some(Bytes(n))) =>
      (match NodesFromBytes(n)
       case Ok(v) => Ok(v)
       case Err(_) => Err(DeserializeError(6)))
    case _ => Err(DeserializeError(7))
  }

  /** `get_peers_responce_decode`, over the parser's result. Only the first top-level value is
      looked at; "e" is checked before "r". */
  function GetPeersResponseDecode(recv: Decoded): (res: Result<PeersNodes, Error>)
    ensures res.Err? && res.error.DeserializeError? ==> res.error.code in {1, 2, 3, 4, 6, 7}
    ensures res.Ok? ==> recv.Elems? && |recv.elems| > 0 && recv.elems[0].Dictionary?
  {
    match recv
    case ParseFailure => Err(LavaTorrentError)
    case Elems(vs) =>
      if vs == [] then Err(DeserializeError(1))
      else
        match vs[0]
        case Dictionary(d) =>
          if "e" in d then Err(ProtoError(d["e"]))
          else if "r" !in d then Err(DeserializeError(3))
          else
            (match d["r"]
             case Dictionary(r) => ClassifyResponse(r)
             case _ => Err(DeserializeError(4)))
        case _ => Err(DeserializeError(2))
  }

  /** The outcome depends on the first top-level value only. */
  lemma OnlyFirstValueCounts(v: BencodeElem, rest: seq<BencodeElem>)
    ensures GetPeersResponseDecode(Elems([v] + rest)) == GetPeersResponseDecode(Elems([v]))
  {
  }

  /** The order of the envelope checks: no value (1), not a dictionary (2), a reported error
      before anything else, no "r" (3), "r" not a dictionary (4). */
  lemma EnvelopeChecks(d: map<string, BencodeElem>, v: BencodeElem)
    ensures GetPeersResponseDecode(ParseFailure) == Err(LavaTorrentError)
    ensures GetPeersResponseDecode(Elems([])) == Err(DeserializeError(1))
    ensures !v.Dictionary? ==> GetPeersResponseDecode(Elems([v])) == Err(DeserializeError(2))
    ensures "e" in d ==> GetPeersResponseDecode(Elems([Dictionary(d)])) == Err(ProtoError(d["e"]))
    ensures "e" !in d && "r" !in d ==> GetPeersResponseDecode(Elems([Dictionary(d)])) == Err(DeserializeError(3))
    ensures "e" !in d && "r" in d && !d["r"].Dictionary? ==>
      GetPeersResponseDecode(Elems([Dictionary(d)])) == Err(DeserializeError(4))
    ensures "e" !in d && "r" in d && d["r"].Dictionary? ==>
      GetPeersResponseDecode(Elems([Dictionary(d)])) == ClassifyResponse(d["r"].entries)
  {
  }

  /** A "values" list yields peers when "nodes" is absent or a byte string: peers win. */
  lemma PeersTakePrecedence(r: map<string, BencodeElem>)
    requires "values" in r && r["values"].List?
    requires "nodes" !in r || r["nodes"].Bytes?
    ensures ClassifyResponse(r) == Ok(Peers(PeersOf(r["values"].elems)))
  {
  }

  /** Nodes come back exactly when "values" is absent and "nodes" is a byte string of whole
      26-byte records; never when "values" is there. */
  lemma NodesExactly(r: map<string, BencodeElem>)
    ensures ClassifyResponse(r).Ok? && ClassifyResponse(r).value.Nodes? <==>
      "values" !in r && "nodes" in r && r["nodes"].Bytes? && |r["nodes"].bytes| % NODE_LEN == 0
    ensures "values" !in r && "nodes" in r && r["nodes"].Bytes? && |r["nodes"].bytes| % NODE_LEN != 0 ==>
      ClassifyResponse(r) == Err(DeserializeError(6))
    ensures "values" !in r && "nodes" in r && r["nodes"].Bytes? && |r["nodes"].bytes| % NODE_LEN == 0 ==>
      ClassifyResponse(r) == Ok(Nodes(DecodeChunks(r["nodes"].bytes)))
  {
  }

  /** Peers come back exactly when "values" is a list and "nodes" is absent or a byte string; so a
      string-typed "nodes" beside a "values" list makes the whole response malformed. */
  lemma PeersExactly(r: map<string, BencodeElem>)
    ensures ClassifyResponse(r).Ok? && ClassifyResponse(r).value.Peers? <==>
      "values" in r && r["values"].List? && ("nodes" !in r || r["nodes"].Bytes?)
    ensures "values" in r && r["values"].List? && "nodes" in r && r["nodes"].String? ==>
      ClassifyResponse(r) == Err(DeserializeError(7))
  {
  }

  /** Every other combination of "values" and "nodes" is malformed: neither a "values" list beside
      an absent or byte-string "nodes", nor a byte-string "nodes" alone, gives error 7. */
  lemma OtherwiseMalformed(r: map<string, BencodeElem>)
    requires !("values" in r && r["values"].List? && ("nodes" !in r || r["nodes"].Bytes?))
    requires !("values" !in r && "nodes" in r && r["nodes"].Bytes?)
    ensures ClassifyResponse(r) == Err(DeserializeError(7))
  {
  }
}
