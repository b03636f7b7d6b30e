/** Kademlia's XOR metric over 160-bit ids, and the proof that the lexicographic order on the
    20-byte XOR results is the numeric order of the big-endian 160-bit integers they stand for. */
module Metric {
  import opened Octets
  import opened Compact

  /** The all-zero id, the distance of an id to itself. */
  const ZERO_ID: NodeId := seq(20, _ => 0)

  /** `xor`: the bytewise exclusive or of two ids. */
  function Xor(l: NodeId, r: NodeId): (x: NodeId)
    ensures forall i :: 0 <= i < 20 ==> XorBits(l[i], x[i], 8) == r[i] && XorBits(r[i], x[i], 8) == l[i]
    ensures forall i :: 0 <= i < 20 ==> (x[i] == 0 <==> l[i] == r[i])
  {
    seq(20, i requires 0 <= i < 20 => ByteXor(l[i], r[i]))
  }

  lemma XorSymmetric(l: NodeId, r: NodeId)
    ensures Xor(l, r) == Xor(r, l)
  {
    forall i | 0 <= i < 20
      ensures Xor(l, r)[i] == Xor(r, l)[i]
    {
      ByteXorSymmetric(l[i], r[i]);
    }
  }

  /** XOR with the same id undoes itself, so `Xor(h, _)` is a bijection on ids. */
  lemma XorCancels(h: NodeId, a: NodeId)
    ensures Xor(h, Xor(h, a)) == a
  {
    forall i | 0 <= i < 20
      ensures Xor(h, Xor(h, a))[i] == a[i]
    {
      ByteXorCancels(h[i], a[i]);
    }
  }

  lemma XorZeroIff(l: NodeId, r: NodeId)
    ensures Xor(l, r) == ZERO_ID <==> l == r
  {
    forall i | 0 <= i < 20
      ensures Xor(l, r)[i] == 0 <==> l[i] == r[i]
    {
      ByteXorZeroIff(l[i], r[i]);
    }
    if Xor(l, r) == ZERO_ID {
      assert forall i | 0 <= i < 20 :: Xor(l, r)[i] == 0;
    }
  }

  /** Rust's `Ordering`. */
  datatype Ordering = Less | Equal | Greater

  /** `Ord::cmp` on byte arrays: lexicographic, a proper prefix comparing less. */
  function Cmp(a: seq<byte>, b: seq<byte>): (o: Ordering)
    ensures o == Equal <==> a == b
  {
    if a == [] && b == [] then Equal
    else if a == [] then Less
    else if b == [] then Greater
    else if a[0] < b[0] then Less
    else if a[0] > b[0] then Greater
    else
      assert a == [a[0]] + a[1..] && b == [b[0]] + b[1..];
      Cmp(a[1..], b[1..])
  }

  lemma LeadingDigitStep(x: nat, y: nat, p: nat, ra: nat, rb: nat)
    requires x < y && ra < p
    ensures x * p + ra < y * p + rb
  {
    MulMonotone(x + 1, y, p);
    assert (x + 1) * p == x * p + p;
  }

  /** A smaller leading byte makes the smaller number, whatever follows. */
  lemma LeadingByteDecides(a: seq<byte>, b: seq<byte>)
    requires |a| == |b| > 0 && a[0] < b[0]
    ensures BeValue(a) < BeValue(b)
  {
    var p := Pow256(|a| - 1);
    LeadingDigitStep(a[0], b[0], p, BeValue(a[1..]), BeValue(b[1..]));
  }

  /** For arrays of one length, lexicographic comparison is the comparison of the big-endian
      integers they stand for. */
  lemma {:induction false} CmpIsNumericOrder(a: seq<byte>, b: seq<byte>)
    requires |a| == |b|
    ensures Cmp(a, b) == Less <==> BeValue(a) < BeValue(b)
    ensures Cmp(a, b) == Greater <==> BeValue(a) > BeValue(b)
    ensures Cmp(a, b) == Equal <==> a == b
  {
    if a != [] {
      if a[0] < b[0] {
        LeadingByteDecides(a, b);
      } else if a[0] > b[0] {
        LeadingByteDecides(b, a);
      } else {
        CmpIsNumericOrder(a[1..], b[1..]);
        assert a == [a[0]] + a[1..] && b == [b[0]] + b[1..];
      }
    }
  }

  /** The distance between two ids, as an unsigned 160-bit integer. */
  function Distance(h: NodeId, id: NodeId): (d: nat)
    ensures d < Pow256(20)
  {
    BeValue(Xor(h, id))
  }

  /** The source's comparator: the XOR results compared lexicographically. */
  function CmpDistance(h: NodeId, a: NodeId, b: NodeId): (o: Ordering)
    ensures o == Equal <==> a == b
  {
    XorCancels(h, a);
    XorCancels(h, b);
    Cmp(Xor(h, a), Xor(h, b))
  }

  /** The comparator orders by distance, and two ids are at the same distance from a target only
      when they are the same id. */
  lemma {:induction false} CmpDistanceIsNumeric(h: NodeId, a: NodeId, b: NodeId)
    ensures CmpDistance(h, a, b) == Less <==> Distance(h, a) < Distance(h, b)
    ensures CmpDistance(h, a, b) == Greater <==> Distance(h, a) > Distance(h, b)
    ensures Distance(h, a) == Distance(h, b) <==> a == b
  {
    CmpIsNumericOrder(Xor(h, a), Xor(h, b));
    if Xor(h, a) == Xor(h, b) {
      XorCancels(h, a);
      XorCancels(h, b);
    }
  }

  /** Only the target itself is at distance zero. */
  lemma DistanceZeroIff(h: NodeId, id: NodeId)
    ensures Distance(h, id) == 0 <==> id == h
  {
    XorZeroIff(h, id);
    CmpIsNumericOrder(Xor(h, id), ZERO_ID);
    ZeroValue(ZERO_ID);
  }

  lemma {:induction false} ZeroValue(s: seq<byte>)
    requires forall i :: 0 <= i < |s| ==> s[i] == 0
    ensures BeValue(s) == 0
  {
    if s != [] {
      ZeroValue(s[1..]);
    }
  }
}
