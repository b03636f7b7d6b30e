# dht-get-peers in Dafny

A model of the `dht-get-peers` crate: a BitTorrent Mainline DHT client that finds the peers of a
torrent by its 20-byte info-hash. The crate sends a KRPC `get_peers` query over UDP to a set of
nodes, decodes the bencoded replies, and either returns the peers a reply listed or picks the five
unvisited nodes closest to the info-hash in the XOR metric and asks them next.

The modules follow the crate's single library file:

- `Octets`: bytes as integers 0..255, the big-endian reading of a byte string, and the bitwise
  exclusive or of two bytes (bit by bit).
- `Results`: `Option` and `Result`.
- `Bencode`: the `BencodeElem` value tree (byte string, string, integer, list, dictionary).
- `Compact`: socket addresses and the compact encodings: a 6-byte peer record (IPv4 octets,
  big-endian port) and a 26-byte node record (20-byte id, then a peer record); the decoding of a
  "values" list and of a "nodes" byte string, each with its encoder and a round-trip lemma.
- `Krpc`: the `get_peers` query dictionary and the classification of a reply into peers, nodes or
  one of the crate's numbered errors.
- `Metric`: the XOR of two ids, the byte-array comparator used for sorting, and the proof that this
  comparator is the numeric order of the 160-bit distances.
- `Selection`: how a round picks its next frontier (`retain`, `dedup_by`, stable `sort_by`,
  `truncate`), as functions on sequences, with the properties of each step.
- `GetPeers`: the lookup state of `get_peers_bs` as a class `Lookup` (visited set, current
  frontier, collected peers) and one round of its loop as a method, with the socket replaced by
  inputs (whether each send succeeded, what each receive produced).

The model follows the code in these details, which a reader of a Kademlia lookup might expect
otherwise:

- Peers are not deduplicated: every peer of every reply is appended (`GetPeers.PeersNotDeduplicated`).
- `dedup_by` removes only adjacent repeats of an address, so after sorting by id distance the
  frontier can still hold one address twice (`Selection.FrontierMayRepeatAddress`).
- A "values" list next to a "nodes" entry that is a string (not a byte string) is rejected with
  error 7 rather than read as peers (`Krpc.PeersExactly`).
- The bootstrap addresses are never added to the visited set; only addresses selected into a
  later frontier are (`GetPeers.Lookup.Valid` keeps the visited set equal to the union of the
  selected frontiers).

The crate's `Error` enum (`src/lib.rs:99-107`) is the datatype `Krpc.Error`: a bencode parse
failure, a numbered shape error (`DeserializeError`) or the payload of a reported error
(`ProtoError`).

## Model

| member | source | states |
|---|---|---|
| Octets.ByteXor | src/lib.rs:155 | `^` on bytes yields the mask that turns either operand into the other, zero exactly for equal operands |
| Octets.BeValuePair | src/lib.rs:14 | `u16::from_be_bytes` on two bytes is 256 times the first plus the second |
| Octets.ByteXorCancels | src/lib.rs:155 | xoring a byte twice with the same byte gives it back |
| Octets.ByteXorZeroIff | src/lib.rs:155 | the xor of two bytes is zero exactly when they are equal |
| Octets.ByteXorSymmetric | src/lib.rs:155 | byte xor is symmetric |
| Compact.BytesToSock | src/lib.rs:11-16 | a 6-byte record gives an IPv4 address with the first four bytes as octets in order and port = 256 * b[4] + b[5] |
| Compact.SockRoundTrip | src/lib.rs:11-16 | encoding an IPv4 address and decoding it gives the address back |
| Compact.SockBytesRoundTrip | src/lib.rs:11-16 | decoding any 6 bytes and encoding the address gives the bytes back, so decoding is injective |
| Compact.PeerRecordExample | src/lib.rs:11-16 | the record C0 A8 01 01 1A E1 is 192.168.1.1 port 6881 |
| Compact.NodeFromBytes | src/lib.rs:50-57 | a 26-byte node record: the id is the first 20 bytes, the address is the peer record in the last 6 |
| Compact.NodeRoundTrip | src/lib.rs:50-57 | encoding a node with an IPv4 address and decoding it gives the node back |
| Compact.NodeBytesRoundTrip | src/lib.rs:50-57 | decoding any 26 bytes and encoding the node gives the bytes back |
| Compact.DecodeChunks | src/lib.rs:87-95 | a whole number of records decodes into one node per 26-byte chunk, in order |
| Compact.NodesFromBytes | src/lib.rs:86-96 | fails exactly when the length is not a multiple of 26; otherwise one node per chunk, in order |
| Compact.NodesRoundTrip | src/lib.rs:86-96 | decoding the compact encoding of IPv4 nodes gives the nodes back |
| Compact.EncodeNodesAt | src/lib.rs:86-96 | node i of an encoding occupies bytes 26i .. 26i+26 |
| Compact.EntryPeer | src/lib.rs:70-81 | a list element stands for a peer exactly when it is a byte string or a string of exactly 6 bytes |
| Compact.PeersFromList | src/lib.rs:67-85 | the loop keeps, in list order, the address of every well-formed element and skips the rest |
| Compact.PeersOfAppend | src/lib.rs:67-85 | decoding a concatenation is the concatenation of the decodings |
| Compact.PeersOf | src/lib.rs:67-85 | the peers of a "values" list (what the loop pushes): never more than there are elements |
| Compact.PeersOfExactly | src/lib.rs:67-85 | an address is decoded exactly when some element of the list stands for it |
| Compact.PeersOfWellFormed | src/lib.rs:67-85 | a list of only well-formed records decodes element by element |
| Compact.PeersRoundTrip | src/lib.rs:67-85 | the "values" list of IPv4 addresses decodes back to the addresses |
| Krpc.GetPeersMsg | src/lib.rs:18-41 | the query dictionary has exactly keys t, y, q, a with t = "aa", y = "q", q = "get_peers" and a = {id, info_hash} as byte strings |
| Krpc.QueryReadsBack | src/lib.rs:18-41 | a node reading the query finds a get_peers query from the local id for the info-hash |
| Krpc.ClassifyResponse | src/lib.rs:131-143 | the only errors from the "values"/"nodes" stage are codes 6 and 7, and 6 comes exactly when "values" is absent and "nodes" is a byte string of a length not divisible by 26 |
| Krpc.GetPeersResponseDecode | src/lib.rs:109-144 | shape errors carry codes 1, 2, 3, 4, 6 or 7 only; success needs a first value that is a dictionary |
| Krpc.OnlyFirstValueCounts | src/lib.rs:110-113 | values after the first top-level value never change the result |
| Krpc.EnvelopeChecks | src/lib.rs:110-129 | a parse failure gives the bencode error, no value gives 1, a non-dictionary 2, an "e" entry is reported before anything else, no "r" gives 3, a non-dictionary "r" gives 4, and otherwise "r" is classified |
| Krpc.PeersTakePrecedence | src/lib.rs:134-138 | a "values" list gives its peers whenever "nodes" is absent or a byte string |
| Krpc.NodesExactly | src/lib.rs:131-143 | nodes come back exactly when "values" is absent and "nodes" is a byte string of whole records, and then they are the records decoded in order; a partial record gives error 6 |
| Krpc.PeersExactly | src/lib.rs:131-143 | peers come back exactly when "values" is a list and "nodes" is absent or a byte string; a string "nodes" beside a list gives error 7 |
| Krpc.OtherwiseMalformed | src/lib.rs:142 | every combination of "values" and "nodes" other than the peers case and the nodes case gives error 7 |
| Metric.Xor | src/lib.rs:152-159 | byte i of the xor turns byte i of either id into byte i of the other, and is zero exactly where the ids agree |
| Metric.XorSymmetric | src/lib.rs:152-159 | xor of ids is symmetric |
| Metric.XorCancels | src/lib.rs:152-159 | xor with the same id twice gives the id back |
| Metric.XorZeroIff | src/lib.rs:152-159 | the xor of two ids is all zero exactly when they are equal |
| Metric.CmpIsNumericOrder | src/lib.rs:243-247 | for equal lengths, the lexicographic comparison of byte arrays is Less, Greater or Equal exactly as their big-endian values compare |
| Metric.Cmp | src/lib.rs:246 | `cmp` on byte arrays returns Equal exactly for equal arrays |
| Metric.CmpDistance | src/lib.rs:243-247 | the sort comparator returns Equal exactly for equal ids |
| Metric.Distance | src/lib.rs:243-247 | a distance is below 2^160 |
| Metric.CmpDistanceIsNumeric | src/lib.rs:243-247 | the sort comparator orders by 160-bit XOR distance, and two ids are equally far from a target only when equal |
| Metric.DistanceZeroIff | src/lib.rs:243-247 | only the target itself is at distance zero |
| Selection.Addrs | src/lib.rs:256 | the next frontier's addresses, one per selected node, in order |
| Selection.Unvisited | src/lib.rs:237 | `retain` keeps exactly the nodes whose address is not visited, and changes nothing when none is visited |
| Selection.DedupByAddr | src/lib.rs:240 | never longer than its input, and the first node stays first |
| Selection.UnvisitedSnoc | src/lib.rs:237 | `retain` keeps order: a node appended to the input is appended to the result exactly when its address is unvisited |
| Selection.DedupSnoc | src/lib.rs:240 | `dedup_by` keeps the first node of each run: a node appended at the last node's address is dropped, any other node is appended |
| Selection.DedupKeepsOnlyInput | src/lib.rs:240 | deduplication only removes nodes |
| Selection.DedupNoAdjacentRepeat | src/lib.rs:240 | no two neighbours of the result share an address |
| Selection.DedupKeepsEveryAddress | src/lib.rs:240 | every address of the input still has a node in the result |
| Selection.DedupUnchanged | src/lib.rs:240 | a list without adjacent repeats is left as it is |
| Selection.InsertByDistance | src/lib.rs:243-247 | inserting one node adds exactly one element |
| Selection.InsertPermutes | src/lib.rs:243-247 | insertion adds exactly the one node |
| Selection.InsertSorted | src/lib.rs:243-247 | inserting into a list ascending by distance keeps it ascending |
| Selection.InsertStable | src/lib.rs:243-247 | insertion puts the node after all nodes at its distance |
| Selection.SortByDistance | src/lib.rs:243-247 | sorting keeps the length |
| Selection.SortPermutes | src/lib.rs:243-247 | the sort is a permutation of its input |
| Selection.SortSorted | src/lib.rs:243-247 | the sort is ascending by XOR distance to the info-hash |
| Selection.SortStable | src/lib.rs:243-247 | the sort is stable: nodes at one distance keep their order |
| Selection.Truncate | src/lib.rs:249 | a prefix of the input of length k, or the whole input when it has at most k nodes |
| Selection.Candidates | src/lib.rs:237-240 | the nodes ranked in a round: no more than were heard of, each heard of and at an unvisited address |
| Selection.NextFrontier | src/lib.rs:237-249 | the next frontier has five nodes, or all candidates when there are at most five |
| Selection.FrontierFresh | src/lib.rs:236-249 | at most five nodes, each heard of in the round and at an address not visited before |
| Selection.FrontierAddrsFresh | src/lib.rs:236-256 | the next frontier's addresses are at most five and none was visited before |
| Selection.FrontierSorted | src/lib.rs:243-249 | the frontier is ascending by distance |
| Selection.FrontierClosest | src/lib.rs:243-249 | a candidate is left out only when five nodes are forwarded, and it is no closer than any of them |
| Selection.FrontierStable | src/lib.rs:243-249 | at each distance the frontier keeps the first candidates in candidate order, which is discovery order by UnvisitedSnoc and DedupSnoc |
| Selection.FrontierTakesAllFew | src/lib.rs:249 | with at most five candidates, all are forwarded |
| Selection.PermutationKeepsRepeat | src/lib.rs:240-247 | two nodes with one address and different ids stay in any reordering |
| Selection.FrontierMayRepeatAddress | src/lib.rs:240-249 | when a round hears of at most five nodes, none at a visited address and no two neighbours at one address, two of them at one address with different ids both reach the frontier |
| GetPeers.NodesIn | src/lib.rs:219-223 | a reply that decodes to nodes gives exactly those nodes; any other slot gives none |
| GetPeers.PeersIn | src/lib.rs:219-223 | a reply that decodes to peers gives exactly those peers; any other slot gives none |
| GetPeers.CollectedNodes | src/lib.rs:218-226 | every node a round collects comes from one of its receive slots |
| GetPeers.CollectedPeers | src/lib.rs:218-226 | every peer a round collects comes from one of its receive slots |
| GetPeers.CollectedNodesSnoc | src/lib.rs:218-226 | one more receive slot appends its nodes at the end |
| GetPeers.CollectedPeersSnoc | src/lib.rs:218-226 | one more receive slot appends its peers at the end |
| GetPeers.CollectedNodesAppend | src/lib.rs:218-226 | the nodes of two runs of slots are those of the first followed by those of the second |
| GetPeers.CollectedPeersAppend | src/lib.rs:218-226 | the peers of two runs of slots are those of the first followed by those of the second |
| GetPeers.OneReply | src/lib.rs:219-224 | a single slot contributes exactly its own nodes and peers |
| GetPeers.FailuresContributeNothing | src/lib.rs:219-225 | empty receive slots and replies that fail to decode add no nodes and no peers |
| GetPeers.PeersNotDeduplicated | src/lib.rs:222 | a reply that decodes to peers ps, received twice, contributes ps followed by ps |
| GetPeers.Receive | src/lib.rs:218-226 | the receive loop gathers exactly the nodes and the peers of the well-formed replies, in arrival order |
| GetPeers.Lookup.constructor | src/lib.rs:183-203 | a lookup starts with nothing visited, the bootstrap nodes as frontier, no peers and the query for the info-hash from the id of twenty 7s |
| GetPeers.Lookup.Round | src/lib.rs:208-257 | starting with no peers (any earlier peer ended the lookup): a failed send ends the lookup with no state change; otherwise peers are the round's peers, and the round returns them if any, returns empty when the frontier was empty, or moves to the next frontier, marks it visited and keeps peers empty |
| GetPeers.Lookup.Settle | src/lib.rs:218-256 | the part of a round after all sends succeeded, with the same outcomes |
| GetPeers.Lookup.Advance | src/lib.rs:236-256 | the new frontier is the addresses of the selected nodes: at most five, none visited before, all now visited |
| GetPeers.Lookup.MarkVisited | src/lib.rs:252-254 | visited grows by exactly the selected addresses |

## Left out

- The bencode parser and encoder of `lava_torrent` are library code: replies arrive already
  parsed (or as a parse failure) and the query is kept as a value, not as bytes.
- `BencodeElem::RawDictionary` is not modelled; dictionaries are keyed by text.
- `send_to` and `recv` are replaced by inputs: one success flag per send and one optional parsed
  reply per receive. The 1024-byte receive buffer, which cuts longer replies short, and replies
  that arrive a round late are therefore not modelled.
- GetPeers.Lookup.constructor: cannot fail. In the code, a failure of
  `bootstrappers.to_socket_addrs()` (`src/lib.rs:195`), of `UdpSocket::bind` (`src/lib.rs:200`)
  or of `set_read_timeout` (`src/lib.rs:201`) ends `get_peers_bs` with an I/O error before any
  round; the model has no input standing for these failures.
- `get_peers` (`src/lib.rs:161-177`) only resolves the bootstrap host names by DNS; name
  resolution is not part of this model, and the lookup starts from given socket addresses.
- GetPeers.Lookup.Round: models one pass of the unbounded `loop`; the loop itself, which the code
  runs until a round returns, is not modelled, and its termination is not claimed.
- The order of `HashMap` iteration in the query dictionary does not matter to the model, which
  uses maps; the error type's `thiserror` messages are not modelled.
- `BencodeElem::Integer` holds an unbounded integer instead of an `i64`; no operation here reads it.
- IPv6 addresses appear only as bootstrap endpoints; compact records decode to IPv4 only, as in
  the code.
- The vector operations (`retain`, `dedup_by`, `sort_by`, `truncate`) work in place in the code
  and are modelled as functions on sequences; the sort is an insertion sort with the same result as
  the library's stable sort.
- `examples/simple.rs`, a command-line caller, is not part of this model.
