/** How a round of the lookup picks its next frontier from the nodes it heard of: drop visited
    addresses (`retain`), drop adjacent repeats of an address (`dedup_by`), order by XOR distance to
    the target (the stable `sort_by`), keep the first five (`truncate`). The vector operations are
    modelled as functions on sequences. */
module Selection {
  import opened Compact
  import opened Metric

  /** How many nodes a round forwards to. */
  const SELECTED: nat := 5

  /** The addresses of a list of nodes, in order. */
  function Addrs(ns: seq<CompactNode>): (addrs: seq<SocketAddr>)
    ensures |addrs| == |ns|
    ensures forall i :: 0 <= i < |ns| ==> addrs[i] == ns[i].addr
  {
    seq(|ns|, i requires 0 <= i < |ns| => ns[i].addr)
  }

  // ---------------------------------------------------------------------------------------------
  // retain

  /** `retain` with "address not yet visited": keeps the order, drops exactly the visited. */
  function Unvisited(ns: seq<CompactNode>, visited: set<SocketAddr>): (r: seq<CompactNode>)
    ensures |r| <= |ns|
    ensures forall n :: n in r <==> n in ns && n.addr !in visited
    ensures (forall n :: n in ns ==> n.addr !in visited) ==> r == ns
  {
    if ns == [] then []
    else
      var rest := Unvisited(ns[1..], visited);
      assert forall n :: n in ns <==> n == ns[0] || n in ns[1..];
      if ns[0].addr in visited then rest else [ns[0]] + rest
  }

  // ---------------------------------------------------------------------------------------------
  // dedup_by

  /** `dedup_by` on equal addresses: of each run of consecutive nodes with one address, only the
      first stays. */
  function DedupByAddr(ns: seq<CompactNode>): (r: seq<CompactNode>)
    decreases |ns|
    ensures |r| <= |ns|
    ensures ns != [] ==> r != [] && r[0] == ns[0]
  {
    if |ns| <= 1 then ns
    else if ns[1].addr == ns[0].addr then DedupByAddr([ns[0]] + ns[2..])
    else [ns[0]] + DedupByAddr(ns[1..])
  }

  /** Deduplication only removes nodes. */
  lemma {:induction false} DedupKeepsOnlyInput(ns: seq<CompactNode>)
    ensures forall n :: n in DedupByAddr(ns) ==> n in ns
    decreases |ns|
  {
    if |ns| > 1 {
      if ns[1].addr == ns[0].addr {
        DedupKeepsOnlyInput([ns[0]] + ns[2..]);
      } else {
        DedupKeepsOnlyInput(ns[1..]);
      }
    }
  }

  /** No two neighbours of the result share an address. */
  lemma {:induction false} DedupNoAdjacentRepeat(ns: seq<CompactNode>)
    ensures forall i :: 0 <= i < |DedupByAddr(ns)| - 1 ==> DedupByAddr(ns)[i].addr != DedupByAddr(ns)[i + 1].addr
    decreases |ns|
  {
    if |ns| > 1 {
      if ns[1].addr == ns[0].addr {
        DedupNoAdjacentRepeat([ns[0]] + ns[2..]);
      } else {
        DedupNoAdjacentRepeat(ns[1..]);
        var rest := DedupByAddr(ns[1..]);
        assert rest[0] == ns[1];
      }
    }
  }

  /** Every address heard of still has a node in the result. */
  lemma {:induction false} DedupKeepsEveryAddress(ns: seq<CompactNode>)
    ensures forall n :: n in ns ==> exists m :: m in DedupByAddr(ns) && m.addr == n.addr
    decreases |ns|
  {
    if |ns| > 1 {
      var r := DedupByAddr(ns);
      if ns[1].addr == ns[0].addr {
        var t := [ns[0]] + ns[2..];
        DedupKeepsEveryAddress(t);
        forall n | n in ns
          ensures exists m :: m in r && m.addr == n.addr
        {
          if n == ns[1] {
            assert ns[0] in t;
          } else {
            assert n in t;
          }
        }
      } else {
        DedupKeepsEveryAddress(ns[1..]);
        forall n | n in ns
          ensures exists m :: m in r && m.addr == n.addr
        {
          if n == ns[0] {
            assert r[0] == n;
          } else {
            assert n in ns[1..];
          }
        }
      }
    } else {
      assert DedupByAddr(ns) == ns;
    }
  }

  /** A list without adjacent repeats is left as it is. */
  lemma {:induction false} DedupUnchanged(ns: seq<CompactNode>)
    requires forall i :: 0 <= i < |ns| - 1 ==> ns[i].addr != ns[i + 1].addr
    ensures DedupByAddr(ns) == ns
    decreases |ns|
  {
    if |ns| > 1 {
      DedupUnchanged(ns[1..]);
      assert [ns[0]] + ns[1..] == ns;
    }
  }

  /** `retain` keeps order: filtering a list extended by one node extends the filtered list by that
      node exactly when its address is unvisited. */
  lemma {:induction false} UnvisitedSnoc(ns: seq<CompactNode>, m: CompactNode, visited: set<SocketAddr>)
    ensures Unvisited(ns + [m], visited) == Unvisited(ns, visited) + (if m.addr in visited then [] else [m])
    decreases |ns|
  {
    if ns == [] {
      assert Unvisited([m], visited) == (if m.addr in visited then [] else [m]) by {
        assert [m][1..] == [];
      }
    } else {
      assert (ns + [m])[1..] == ns[1..] + [m];
      UnvisitedSnoc(ns[1..], m, visited);
    }
  }

  /** `dedup_by` keeps the first node of each run: a node appended at the address of the last one
      is dropped, any other node is kept at the end. */
  lemma {:induction false} DedupSnoc(ns: seq<CompactNode>, m: CompactNode)
    ensures DedupByAddr(ns + [m]) ==
      if ns != [] && ns[|ns| - 1].addr == m.addr then DedupByAddr(ns) else DedupByAddr(ns) + [m]
    decreases |ns|
  {
    if |ns| == 1 {
      assert ns + [m] == [ns[0], m];
      assert [ns[0], m][1..] == [m];
      assert [ns[0]] + [ns[0], m][2..] == [ns[0]];
    } else if |ns| > 1 {
      var t := ns + [m];
      assert t[0] == ns[0] && t[1] == ns[1];
      if ns[1].addr == ns[0].addr {
        var u := [ns[0]] + ns[2..];
        assert [t[0]] + t[2..] == u + [m];
        DedupSnoc(u, m);
        assert u[|u| - 1].addr == ns[|ns| - 1].addr;
      } else {
        assert t[1..] == ns[1..] + [m];
        DedupSnoc(ns[1..], m);
      }
    }
  }

  // ---------------------------------------------------------------------------------------------
  // sort_by

  /** Ascending by distance to the target. */
  ghost predicate SortedByDistance(h: NodeId, s: seq<CompactNode>)
  {
    forall i, j :: 0 <= i < j < |s| ==> Distance(h, s[i].id) <= Distance(h, s[j].id)
  }

  /** The nodes of `s` at distance `d` from the target, in their order in `s`. */
  ghost function AtDistance(h: NodeId, s: seq<CompactNode>, d: nat): seq<CompactNode>
  {
    if s == [] then []
    else
      var last := s[|s| - 1];
      AtDistance(h, s[..|s| - 1], d) + (if Distance(h, last.id) == d then [last] else [])
  }

  lemma {:induction false} AtDistanceAppend(h: NodeId, a: seq<CompactNode>, b: seq<CompactNode>, d: nat)
    ensures AtDistance(h, a + b, d) == AtDistance(h, a, d) + AtDistance(h, b, d)
    decreases |b|
  {
    if b == [] {
      assert a + b == a;
    } else {
      assert (a + b)[..|a + b| - 1] == a + b[..|b| - 1];
      AtDistanceAppend(h, a, b[..|b| - 1], d);
    }
  }

  /** Inserts `x` after every node of `s` that is not farther than `x`; the comparison is the
      source's comparator on XOR results. */
  function InsertByDistance(h: NodeId, s: seq<CompactNode>, x: CompactNode): (r: seq<CompactNode>)
    ensures |r| == |s| + 1
  {
    if s == [] then [x]
    else if CmpDistance(h, s[|s| - 1].id, x.id) == Greater then InsertByDistance(h, s[..|s| - 1], x) + [s[|s| - 1]]
    else s + [x]
  }

  lemma {:induction false} InsertPermutes(h: NodeId, s: seq<CompactNode>, x: CompactNode)
    ensures multiset(InsertByDistance(h, s, x)) == multiset(s) + multiset{x}
  {
    if s != [] {
      var init, last := s[..|s| - 1], s[|s| - 1];
      assert s == init + [last];
      if CmpDistance(h, last.id, x.id) == Greater {
        InsertPermutes(h, init, x);
      }
    }
  }

  /** A node no closer than everything before it keeps a sorted list sorted. */
  lemma AppendSorted(h: NodeId, s: seq<CompactNode>, y: CompactNode)
    requires SortedByDistance(h, s)
    requires forall i :: 0 <= i < |s| ==> Distance(h, s[i].id) <= Distance(h, y.id)
    ensures SortedByDistance(h, s + [y])
  {
    var r := s + [y];
    forall i, j | 0 <= i < j < |r|
      ensures Distance(h, r[i].id) <= Distance(h, r[j].id)
    {
      assert r[i] == s[i];
      if j < |s| {
        assert r[j] == s[j];
      }
    }
  }

  /** Inserting keeps every distance under a bound that the list and the new node keep. */
  lemma {:induction false} InsertBounded(h: NodeId, s: seq<CompactNode>, x: CompactNode, bound: nat)
    requires forall i :: 0 <= i < |s| ==> Distance(h, s[i].id) <= bound
    requires Distance(h, x.id) <= bound
    ensures forall i :: 0 <= i < |InsertByDistance(h, s, x)| ==> Distance(h, InsertByDistance(h, s, x)[i].id) <= bound
  {
    if s != [] && CmpDistance(h, s[|s| - 1].id, x.id) == Greater {
      InsertBounded(h, s[..|s| - 1], x, bound);
    }
  }

  /** In a sorted list, every node before the last is no farther than the last. */
  lemma SortedLastFarthest(h: NodeId, s: seq<CompactNode>, init: seq<CompactNode>)
    requires s != [] && SortedByDistance(h, s) && init == s[..|s| - 1]
    ensures forall i :: 0 <= i < |init| ==> Distance(h, init[i].id) <= Distance(h, s[|s| - 1].id)
  {
    forall i | 0 <= i < |init|
      ensures Distance(h, init[i].id) <= Distance(h, s[|s| - 1].id)
    {
      assert init[i] == s[i];
    }
  }

  lemma {:induction false} InsertSorted(h: NodeId, s: seq<CompactNode>, x: CompactNode)
    requires SortedByDistance(h, s)
    ensures SortedByDistance(h, InsertByDistance(h, s, x))
  {
    if s != [] {
      var init, last := s[..|s| - 1], s[|s| - 1];
      CmpDistanceIsNumeric(h, last.id, x.id);
      SortedLastFarthest(h, s, init);
      if CmpDistance(h, last.id, x.id) == Greater {
        InsertSorted(h, init, x);
        InsertBounded(h, init, x, Distance(h, last.id));
        AppendSorted(h, InsertByDistance(h, init, x), last);
      } else {
        AppendSorted(h, s, x);
      }
    }
  }

  lemma {:induction false} InsertStable(h: NodeId, s: seq<CompactNode>, x: CompactNode, d: nat)
    ensures AtDistance(h, InsertByDistance(h, s, x), d)
         == AtDistance(h, s, d) + (if Distance(h, x.id) == d then [x] else [])
  {
    var r := InsertByDistance(h, s, x);
    if s == [] {
      assert r == [x] && r[..0] == [];
    } else if CmpDistance(h, s[|s| - 1].id, x.id) == Greater {
      InsertStable(h, s[..|s| - 1], x, d);
      InsertStableFar(h, s, x, d);
    } else {
      assert r == s + [x];
      assert r[..|r| - 1] == s && r[|r| - 1] == x;
    }
  }

  /** Two nodes the comparator puts strictly apart are never both at one distance. */
  lemma FarApart(h: NodeId, a: CompactNode, b: CompactNode, d: nat)
    requires CmpDistance(h, a.id, b.id) == Greater
    ensures !(Distance(h, a.id) == d && Distance(h, b.id) == d)
  {
    CmpDistanceIsNumeric(h, a.id, b.id);
  }

  /** Appending two lists in either order gives one result when one of them is empty. */
  lemma SwapWithEmpty(p: seq<CompactNode>, xs: seq<CompactNode>, ls: seq<CompactNode>)
    requires xs == [] || ls == []
    ensures p + xs + ls == p + ls + xs
  {
    if xs == [] {
      assert p + xs == p && p + ls + xs == p + ls;
    } else {
      assert p + ls == p && p + xs + ls == p + xs;
    }
  }

  /** The step of `InsertStable` where `x` goes in before the last node: the two cannot be at one
      distance, so their order among the nodes at distance `d` does not matter. */
  lemma InsertStableFar(h: NodeId, s: seq<CompactNode>, x: CompactNode, d: nat)
    requires s != [] && CmpDistance(h, s[|s| - 1].id, x.id) == Greater
    requires AtDistance(h, InsertByDistance(h, s[..|s| - 1], x), d)
          == AtDistance(h, s[..|s| - 1], d) + (if Distance(h, x.id) == d then [x] else [])
    ensures AtDistance(h, InsertByDistance(h, s, x), d)
         == AtDistance(h, s, d) + (if Distance(h, x.id) == d then [x] else [])
  {
    var init, last := s[..|s| - 1], s[|s| - 1];
    var xs := if Distance(h, x.id) == d then [x] else [];
    var ls := if Distance(h, last.id) == d then [last] else [];
    FarApart(h, last, x, d);
    var r' := InsertByDistance(h, init, x);
    var r := r' + [last];
    assert InsertByDistance(h, s, x) == r;
    assert r[..|r| - 1] == r' && r[|r| - 1] == last;
    assert AtDistance(h, r, d) == AtDistance(h, init, d) + xs + ls;
    assert AtDistance(h, s, d) == AtDistance(h, init, d) + ls;
    SwapWithEmpty(AtDistance(h, init, d), xs, ls);
  }

  /** The stable sort by distance (`sort_by` with the XOR comparator), as an insertion sort. */
  function SortByDistance(h: NodeId, s: seq<CompactNode>): (r: seq<CompactNode>)
    ensures |r| == |s|
  {
    if s == [] then [] else InsertByDistance(h, SortByDistance(h, s[..|s| - 1]), s[|s| - 1])
  }

  /** The sort yields a permutation of its input. */
  lemma {:induction false} SortPermutes(h: NodeId, s: seq<CompactNode>)
    ensures multiset(SortByDistance(h, s)) == multiset(s)
  {
    if s != [] {
      var init, last := s[..|s| - 1], s[|s| - 1];
      assert s == init + [last];
      SortPermutes(h, init);
      InsertPermutes(h, SortByDistance(h, init), last);
    }
  }

  /** The sort yields ascending distances. */
  lemma {:induction false} SortSorted(h: NodeId, s: seq<CompactNode>)
    ensures SortedByDistance(h, SortByDistance(h, s))
  {
    if s != [] {
      SortSorted(h, s[..|s| - 1]);
      InsertSorted(h, SortByDistance(h, s[..|s| - 1]), s[|s| - 1]);
    }
  }

  /** The sort is stable: nodes at one distance keep their relative order. */
  lemma {:induction false} SortStable(h: NodeId, s: seq<CompactNode>, d: nat)
    ensures AtDistance(h, SortByDistance(h, s), d) == AtDistance(h, s, d)
  {
    if s != [] {
      SortStable(h, s[..|s| - 1], d);
      InsertStable(h, SortByDistance(h, s[..|s| - 1]), s[|s| - 1], d);
    }
  }

  // ---------------------------------------------------------------------------------------------
  // truncate and the whole selection

  /** `truncate`: the first `k` nodes, or all of them when there are no more than `k`. */
  function Truncate(ns: seq<CompactNode>, k: nat): (r: seq<CompactNode>)
    ensures r <= ns
    ensures |r| == if |ns| <= k then |ns| else k
  {
    if |ns| <= k then ns else ns[..k]
  }

  /** The nodes a round ranks: the unvisited ones, adjacent repeats of an address dropped. */
  function Candidates(visited: set<SocketAddr>, collected: seq<CompactNode>): (c: seq<CompactNode>)
    ensures |c| <= |collected|
    ensures forall n :: n in c ==> n in collected && n.addr !in visited
  {
    DedupKeepsOnlyInput(Unvisited(collected, visited));
    DedupByAddr(Unvisited(collected, visited))
  }

  /** The next frontier: the candidates in order of distance, at most `SELECTED` of them. */
  function NextFrontier(h: NodeId, visited: set<SocketAddr>, collected: seq<CompactNode>): (f: seq<CompactNode>)
    ensures |f| == if |Candidates(visited, collected)| <= SELECTED then |Candidates(visited, collected)| else SELECTED
  {
    Truncate(SortByDistance(h, Candidates(visited, collected)), SELECTED)
  }

  /** At most five nodes, each heard of this round and at an address not visited before. */
  lemma FrontierFresh(h: NodeId, visited: set<SocketAddr>, collected: seq<CompactNode>)
    ensures |NextFrontier(h, visited, collected)| <= SELECTED
    ensures forall n :: n in NextFrontier(h, visited, collected) ==> n in collected && n.addr !in visited
  {
    var c := Candidates(visited, collected);
    var s := SortByDistance(h, c);
    SortPermutes(h, c);
    DedupKeepsOnlyInput(Unvisited(collected, visited));
    forall n | n in NextFrontier(h, visited, collected)
      ensures n in c
    {
      assert n in multiset(s);
    }
  }

  /** The frontier's addresses: at most five, none of them visited before. */
  lemma FrontierAddrsFresh(h: NodeId, visited: set<SocketAddr>, collected: seq<CompactNode>)
    ensures |Addrs(NextFrontier(h, visited, collected))| <= SELECTED
    ensures forall a :: a in Addrs(NextFrontier(h, visited, collected)) ==> a !in visited
  {
    var f := NextFrontier(h, visited, collected);
    FrontierFresh(h, visited, collected);
    forall a | a in Addrs(f)
      ensures a !in visited
    {
      var i :| 0 <= i < |f| && Addrs(f)[i] == a;
      assert f[i] in f;
    }
  }

  /** The frontier is ascending by distance to the target. */
  lemma FrontierSorted(h: NodeId, visited: set<SocketAddr>, collected: seq<CompactNode>)
    ensures SortedByDistance(h, NextFrontier(h, visited, collected))
  {
    SortSorted(h, Candidates(visited, collected));
  }

  /** The frontier holds the closest candidates: a candidate is left out only when five others are
      forwarded, and it is no closer than any of them. */
  lemma FrontierClosest(h: NodeId, visited: set<SocketAddr>, collected: seq<CompactNode>, c: CompactNode, n: CompactNode)
    requires c in Candidates(visited, collected) && c !in NextFrontier(h, visited, collected)
    requires n in NextFrontier(h, visited, collected)
    ensures |NextFrontier(h, visited, collected)| == SELECTED
    ensures Distance(h, n.id) <= Distance(h, c.id)
  {
    var s := SortByDistance(h, Candidates(visited, collected));
    var f := NextFrontier(h, visited, collected);
    SortPermutes(h, Candidates(visited, collected));
    assert c in multiset(s);
    if |Candidates(visited, collected)| <= SELECTED {
      assert false;
    }
    SortSorted(h, Candidates(visited, collected));
    var j :| 0 <= j < |s| && s[j] == c;
    var i :| 0 <= i < |f| && f[i] == n;
    assert s[i] == n;
  }

  /** Equal distances keep discovery order: the frontier's nodes at any one distance are the
      first of the candidates at that distance, in candidate order. */
  lemma FrontierStable(h: NodeId, visited: set<SocketAddr>, collected: seq<CompactNode>, d: nat)
    ensures AtDistance(h, NextFrontier(h, visited, collected), d) <= AtDistance(h, Candidates(visited, collected), d)
  {
    var s := SortByDistance(h, Candidates(visited, collected));
    var f := NextFrontier(h, visited, collected);
    assert s == f + s[|f|..];
    AtDistanceAppend(h, f, s[|f|..], d);
    SortStable(h, Candidates(visited, collected), d);
  }

  /** With no more than five candidates, every one of them is forwarded. */
  lemma FrontierTakesAllFew(h: NodeId, visited: set<SocketAddr>, collected: seq<CompactNode>)
    requires |Candidates(visited, collected)| <= SELECTED
    ensures multiset(NextFrontier(h, visited, collected)) == multiset(Candidates(visited, collected))
  {
    SortPermutes(h, Candidates(visited, collected));
  }

  /** Two entries of `ns` share an address. */
  predicate RepeatsAddress(ns: seq<CompactNode>)
  {
    exists i, j :: 0 <= i < j < |ns| && ns[i].addr == ns[j].addr
  }

  /** A repeated address with different ids survives any permutation. */
  lemma PermutationKeepsRepeat(xs: seq<CompactNode>, f: seq<CompactNode>, i: nat, j: nat)
    requires multiset(f) == multiset(xs)
    requires i < j < |xs| && xs[i].addr == xs[j].addr && xs[i].id != xs[j].id
    ensures RepeatsAddress(f)
  {
    assert xs[i] in multiset(xs) && xs[j] in multiset(xs);
    var i' :| 0 <= i' < |f| && f[i'] == xs[i];
    var j' :| 0 <= j' < |f| && f[j'] == xs[j];
    if i' < j' {
      assert f[i'].addr == f[j'].addr;
    } else {
      assert f[j'].addr == f[i'].addr;
    }
  }

  /** Repeats that are not adjacent survive: among few enough unvisited nodes with no adjacent
      repeat, two nodes at one address (with different ids) both reach the frontier. */
  lemma FrontierMayRepeatAddress(h: NodeId, visited: set<SocketAddr>, collected: seq<CompactNode>, i: nat, j: nat)
    requires |collected| <= SELECTED
    requires forall n :: n in collected ==> n.addr !in visited
    requires forall k :: 0 <= k < |collected| - 1 ==> collected[k].addr != collected[k + 1].addr
    requires i < j < |collected| && collected[i].addr == collected[j].addr && collected[i].id != collected[j].id
    ensures RepeatsAddress(NextFrontier(h, visited, collected))
  {
    DedupUnchanged(collected);
    assert Candidates(visited, collected) == collected;
    FrontierTakesAllFew(h, visited, collected);
    PermutationKeepsRepeat(collected, NextFrontier(h, visited, collected), i, j);
  }
}
