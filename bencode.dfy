/** The decoded bencode value tree, as the `lava_torrent` crate's `BencodeElem` hands it over.
    The byte-level parser and encoder of that crate are not part of this model. */
module Bencode {
  import opened Octets
  import opened Results

  datatype BencodeElem =
    | Bytes(bytes: seq<byte>)
      /** A Rust `String`; `chars` holds its bytes. */
    | String(chars: seq<byte>)
    | Integer(n: int)
    | List(elems: seq<BencodeElem>)
    | Dictionary(entries: map<string, BencodeElem>)

  /** `HashMap::get` on a dictionary. */
  function Get(d: map<string, BencodeElem>, key: string): (v: Option<BencodeElem>)
    ensures v.Some? <==> key in d
    ensures v.Some? ==> v.value == d[key]
  {
    if key in d then Some(d[key]) else None
  }
}
