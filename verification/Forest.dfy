// The node array of an MMR, twice: as the post-order walk of a forest of
// perfect trees, and as the only array whose interior nodes hash their children.

module Forest {
  import opened Powers
  import opened Positions
  import opened Digests

  /** Post-order nodes of the perfect tree over `ls` whose first node sits at position `b`. */
  function Perfect(ls: seq<Hash>, b: nat, h: nat): (ns: seq<Hash>)
    requires |ls| == Pow2(h)
    ensures |ns| == Pow2(h + 1) - 1
    decreases h
  {
    if h == 0 then ls
    else
      var l := Perfect(ls[..Pow2(h - 1)], b, h - 1);
      var r := Perfect(ls[Pow2(h - 1)..], b + Pow2(h) - 1, h - 1);
      Join(l, r, b + Pow2(h + 1) - 2)
  }

  /** Two subtrees and the parent of their roots, at position `root`. */
  function Join(l: seq<Hash>, r: seq<Hash>, root: nat): (ns: seq<Hash>)
    requires |l| > 0 && |r| > 0
    ensures |ns| == |l| + |r| + 1 && l + r <= ns
    ensures ns[|l| + |r|] == Interior(root, ns[|l| - 1], ns[|l| + |r| - 1])
  {
    l + r + [Interior(root, l[|l| - 1], r[|r| - 1])]
  }

  /** Perfect trees of falling height over `ls`, one per one bit of its length. */
  function ForestIn(ls: seq<Hash>, b: nat, h: nat): (ns: seq<Hash>)
    requires |ls| < Pow2(h)
    decreases h
  {
    if h == 0 then []
    else if |ls| < Pow2(h - 1) then ForestIn(ls, b, h - 1)
    else
      Perfect(ls[..Pow2(h - 1)], b, h - 1)
      + ForestIn(ls[Pow2(h - 1)..], b + Pow2(h) - 1, h - 1)
  }

  /** The node array of the MMR over the leaf hashes `ls`. */
  function Nodes(ls: seq<Hash>): (ns: seq<Hash>) {
    Pow2Above(|ls|);
    ForestIn(ls, 0, |ls|)
  }

  /** The leaf hashes of a log's 32-byte entries. */
  function LeafHashes(bodies: seq<Hash>): (ls: seq<Hash>)
    ensures |ls| == |bodies|
    ensures forall k :: 0 <= k < |ls| ==> ls[k] == Leaf(bodies[k])
  {
    seq(|bodies|, k requires 0 <= k < |bodies| => Leaf(bodies[k]))
  }

  // ---- the local rule --------------------------------------------------------

  /** An interior node is the position-committed hash of its two children. */
  predicate NodeRule(ns: seq<Hash>, p: nat)
    requires p < |ns|
  {
    Height(p) > 0 ==>
      (Children(p);
       ns[p] == Interior(p, ns[p - Pow2(Height(p))], ns[p - 1]))
  }

  ghost predicate Linked(ns: seq<Hash>) {
    forall p: nat | p < |ns| :: NodeRule(ns, p)
  }

  /** `ns` is the node array over the leaf hashes `ls`, by the local rule. */
  ghost predicate IsMmr(ns: seq<Hash>, ls: seq<Hash>) {
    && |ns| == NodeCount(|ls|)
    && Linked(ns)
    && forall k: nat | k < |ls| :: NodeCount(k) < |ns| && ns[NodeCount(k)] == ls[k]
  }

  // ---- the forest obeys the local rule ---------------------------------------

  lemma PerfectStep(ls: seq<Hash>, b: nat, h: nat)
    requires h > 0 && |ls| == Pow2(h)
    ensures Perfect(ls, b, h) ==
            Join(Perfect(ls[..Pow2(h - 1)], b, h - 1),
                 Perfect(ls[Pow2(h - 1)..], b + Pow2(h) - 1, h - 1),
                 b + Pow2(h + 1) - 2)
  {
  }

  lemma PerfectParts(ls: seq<Hash>, b: nat, h: nat) returns (l: seq<Hash>, r: seq<Hash>)
    requires h > 0 && |ls| == Pow2(h)
    ensures l == Perfect(ls[..Pow2(h - 1)], b, h - 1)
    ensures r == Perfect(ls[Pow2(h - 1)..], b + Pow2(h) - 1, h - 1)
    ensures var ns := Perfect(ls, b, h); var n := Pow2(h) - 1;
            && (forall i :: 0 <= i < n ==> ns[i] == l[i])
            && (forall i :: 0 <= i < n ==> ns[n + i] == r[i])
            && ns[2 * n] == Interior(b + 2 * n, ns[n - 1], ns[2 * n - 1])
  {
    hide Perfect, Join;
    PerfectStep(ls, b, h);
    l := Perfect(ls[..Pow2(h - 1)], b, h - 1);
    r := Perfect(ls[Pow2(h - 1)..], b + Pow2(h) - 1, h - 1);
    JoinParts(l, r, b + Pow2(h + 1) - 2);
  }

  lemma JoinParts(l: seq<Hash>, r: seq<Hash>, root: nat)
    requires |l| > 0 && |r| > 0
    ensures var ns := Join(l, r, root);
            && (forall i :: 0 <= i < |l| ==> ns[i] == l[i])
            && (forall i :: 0 <= i < |r| ==> ns[|l| + i] == r[i])
  {
  }

  lemma PerfectZero(ls: seq<Hash>, b: nat)
    requires |ls| == 1
    ensures Perfect(ls, b, 0) == ls
  {
  }

  lemma {:induction false} PerfectRule(ls: seq<Hash>, b: nat, h: nat, p: nat)
    requires |ls| == Pow2(h) && p < Pow2(h + 1) - 1 && HeightIn(p, h) > 0
    ensures var ns := Perfect(ls, b, h); var g := HeightIn(p, h);
            && Pow2(g) <= p && ns[p] == Interior(b + p, ns[p - Pow2(g)], ns[p - 1])
    decreases h
  {
    hide Perfect;
    var l, r := PerfectParts(ls, b, h);
    if p < Pow2(h) - 1 {
      HeightLeft(p, h);
      PerfectRule(ls[..Pow2(h - 1)], b, h - 1, p);
    } else if p < Pow2(h + 1) - 2 {
      var q := p - (Pow2(h) - 1);
      HeightRight(q, h);
      PerfectRule(ls[Pow2(h - 1)..], b + Pow2(h) - 1, h - 1, q);
      hide HeightIn;
      var d := Pow2(HeightIn(q, h - 1));
      assert r[q] == Interior(b + p, r[q - d], r[q - 1]);
    }
  }

  lemma {:induction false} PerfectLeaf(ls: seq<Hash>, b: nat, h: nat, k: nat)
    requires |ls| == Pow2(h) && k < |ls|
    ensures NodeCount(k) < |Perfect(ls, b, h)| && Perfect(ls, b, h)[NodeCount(k)] == ls[k]
    decreases h
  {
    hide NodeCount, Perfect;
    if h == 0 {
      NodeCountSplit(0, 0);
      PerfectZero(ls, b);
    } else {
      var half := Pow2(h - 1);
      var l, r := PerfectParts(ls, b, h);
      if k < half {
        PerfectLeaf(ls[..half], b, h - 1, k);
      } else {
        NodeCountSplit(h - 1, k - half);
        PerfectLeaf(ls[half..], b + Pow2(h) - 1, h - 1, k - half);
        assert r[NodeCount(k - half)] == ls[k];
      }
    }
  }

  lemma {:induction false} ForestSize(ls: seq<Hash>, b: nat, h: nat)
    requires |ls| < Pow2(h)
    ensures |ForestIn(ls, b, h)| == NodeCount(|ls|) < Pow2(h + 1) - 1
    decreases h
  {
    hide NodeCount, Perfect;
    NodeCountSplit(0, 0);
    if h > 0 {
      if |ls| < Pow2(h - 1) {
        ForestSize(ls, b, h - 1);
      } else {
        NodeCountSplit(h - 1, |ls| - Pow2(h - 1));
        ForestSize(ls[Pow2(h - 1)..], b + Pow2(h) - 1, h - 1);
      }
    }
  }

  lemma {:induction false} ForestRule(ls: seq<Hash>, b: nat, h: nat, p: nat)
    requires |ls| < Pow2(h) && p < |ForestIn(ls, b, h)|
    ensures p < Pow2(h + 1) - 1
    ensures HeightIn(p, h) > 0 ==>
              var ns := ForestIn(ls, b, h); var g := HeightIn(p, h);
              && p >= Pow2(g) && ns[p] == Interior(b + p, ns[p - Pow2(g)], ns[p - 1])
    decreases h
  {
    hide Perfect, NodeCount;
    ForestSize(ls, b, h);
    var half := Pow2(h - 1);
    if |ls| < half {
      ForestRule(ls, b, h - 1, p);
    } else if p < Pow2(h) - 1 {
      if HeightIn(p, h - 1) > 0 {
        PerfectRule(ls[..half], b, h - 1, p);
      }
    } else {
      ForestRule(ls[half..], b + Pow2(h) - 1, h - 1, p - (Pow2(h) - 1));
    }
  }

  lemma {:induction false} ForestLeaf(ls: seq<Hash>, b: nat, h: nat, k: nat)
    requires k < |ls| < Pow2(h)
    ensures NodeCount(k) < |ForestIn(ls, b, h)| && ForestIn(ls, b, h)[NodeCount(k)] == ls[k]
    decreases h
  {
    hide NodeCount, Perfect;
    var half := Pow2(h - 1);
    if |ls| < half {
      ForestLeaf(ls, b, h - 1, k);
    } else if k < half {
      PerfectLeaf(ls[..half], b, h - 1, k);
    } else {
      NodeCountSplit(h - 1, k - half);
      ForestLeaf(ls[half..], b + Pow2(h) - 1, h - 1, k - half);
    }
  }

  /** The forest's array satisfies the local rule over its leaves. */
  lemma ForestIsMmr(ls: seq<Hash>)
    ensures IsMmr(Nodes(ls), ls)
  {
    hide NodeCount, ForestIn, HeightIn;
    var h := |ls|;
    Pow2Above(h);
    ForestSize(ls, 0, h);
    var ns := Nodes(ls);
    forall p: nat | p < |ns|
      ensures NodeRule(ns, p)
    {
      ForestRule(ls, 0, h, p);
      HeightWithin(p, h);
    }
    forall k: nat | k < |ls|
      ensures NodeCount(k) < |ns| && ns[NodeCount(k)] == ls[k]
    {
      ForestLeaf(ls, 0, h, k);
    }
  }

  // ---- and is the only array that does ---------------------------------------

  lemma {:induction false} NodeDetermined(ns: seq<Hash>, ms: seq<Hash>, ls: seq<Hash>, p: nat)
    requires IsMmr(ns, ls) && IsMmr(ms, ls) && p < |ns|
    ensures ns[p] == ms[p]
    decreases p
  {
    hide NodeCount, Height, LeafFloor;
    assert NodeRule(ns, p) && NodeRule(ms, p);
    if Height(p) > 0 {
      Children(p);
      NodeDetermined(ns, ms, ls, p - Pow2(Height(p)));
      NodeDetermined(ns, ms, ls, p - 1);
    } else {
      HeightClosed(p);
      if LeafFloor(p) >= |ls| {
        NodeCountMonotone(|ls|, LeafFloor(p));
      }
    }
  }

  lemma MmrUnique(ns: seq<Hash>, ls: seq<Hash>)
    requires IsMmr(ns, ls)
    ensures ns == Nodes(ls)
  {
    ForestIsMmr(ls);
    forall p: nat | p < |ns|
      ensures ns[p] == Nodes(ls)[p]
    {
      NodeDetermined(ns, Nodes(ls), ls, p);
    }
  }

  /** An array obeys the local rule over `ls` exactly when it is the post-order forest. */
  lemma MmrIffForest(ns: seq<Hash>, ls: seq<Hash>)
    ensures IsMmr(ns, ls) <==> ns == Nodes(ls)
  {
    ForestIsMmr(ls);
    if IsMmr(ns, ls) {
      MmrUnique(ns, ls);
    }
  }

  /** Nodes are write-once: an earlier log's array is a prefix of a later one's. */
  lemma ForestPrefix(ls: seq<Hash>, k: nat)
    requires k <= |ls|
    ensures NodeCount(k) <= |Nodes(ls)|
    ensures Nodes(ls[..k]) == Nodes(ls)[..NodeCount(k)]
  {
    hide NodeCount, Nodes, Height;
    ForestIsMmr(ls);
    NodeCountMonotone(k, |ls|);
    var ns := Nodes(ls)[..NodeCount(k)];
    forall p: nat | p < |ns|
      ensures NodeRule(ns, p)
    {
      assert NodeRule(Nodes(ls), p);
      if Height(p) > 0 {
        Children(p);
      }
    }
    forall j: nat | j < k
      ensures NodeCount(j) < |ns| && ns[NodeCount(j)] == ls[..k][j]
    {
      NodeCountMonotone(j, k);
    }
    MmrUnique(ns, ls[..k]);
  }
}
