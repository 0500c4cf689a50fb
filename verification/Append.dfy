// Appending a leaf: the two implementations stop climbing on different
// conditions, and build the same array, the post-order forest.

module AppendSpec {
  import opened Powers
  import opened Positions
  import opened Forest
  import opened Digests

  /** The node due next at the right end of `ns`, when that position is interior. */
  function Parent(ns: seq<Hash>): Hash
    requires |ns| > 0 && Height(|ns|) > 0
  {
    Children(|ns|);
    Interior(|ns|, ns[|ns| - Pow2(Height(|ns|))], ns[|ns| - 1])
  }

  /** Add parents to the right end for as long as the next position is an interior one. */
  function Climb(ns: seq<Hash>): (r: seq<Hash>)
    requires |ns| > 0
    ensures ns <= r
    decreases Room(|ns|)
  {
    hide NodeCount, LeafFloor, Height, Parent, Room;
    if Height(|ns|) == 0 then ns
    else
      RoomShrinks(|ns|);
      Climb(ns + [Parent(ns)])
  }

  /** How many positions are left before the next leaf. */
  function Room(q: nat): int
    requires q > 0
  {
    NodeCount(LeafFloor(q - 1) + 1) - q
  }

  lemma RoomShrinks(q: nat)
    requires q > 0 && Height(q) > 0
    ensures 0 <= Room(q + 1) < Room(q)
  {
    hide NodeCount, LeafFloor, Height;
    NextFloor(q);
  }

  /** An interior position belongs to the same leaf as the position before it. */
  lemma NextFloor(q: nat)
    requires q > 0 && Height(q) > 0
    ensures LeafFloor(q) == LeafFloor(q - 1)
    ensures Height(q) == Height(q - 1) + 1
    ensures q < NodeCount(LeafFloor(q - 1) + 1)
  {
    hide NodeCount, LeafFloor, Height;
    HeightClosed(q);
    HeightClosed(q - 1);
    LeafFloorUnique(q - 1, LeafFloor(q));
  }

  /** Climbing after a leaf gives the array with that leaf. */
  lemma {:induction false} ClimbFrom(ns: seq<Hash>, ls: seq<Hash>)
    requires |ls| > 0 && NodeCount(|ls| - 1) < |ns| <= NodeCount(|ls|)
    requires Linked(ns)
    requires forall k: nat | k < |ls| :: NodeCount(k) < |ns| && ns[NodeCount(k)] == ls[k]
    ensures Climb(ns) == Nodes(ls)
    decreases NodeCount(|ls|) - |ns|
  {
    hide NodeCount, LeafFloor, Height, Nodes;
    HeightClosed(|ns|);
    if |ns| == NodeCount(|ls|) {
      LeafFloorOfCount(|ls|);
      MmrUnique(ns, ls);
    } else {
      LeafFloorUnique(|ns|, |ls| - 1);
      Children(|ns|);
      var ms := ns + [Parent(ns)];
      LinkedMore(ns, ms[|ns|]);
      ClimbFrom(ms, ls);
    }
  }

  lemma LinkedMore(ns: seq<Hash>, n: Hash)
    requires Linked(ns) && NodeRule(ns + [n], |ns|)
    ensures Linked(ns + [n])
  {
    hide Height;
    forall p: nat | p < |ns| + 1
      ensures NodeRule(ns + [n], p)
    {
      if p < |ns| {
        assert NodeRule(ns, p);
        if Height(p) > 0 {
          Children(p);
        }
      }
    }
  }

  /** Appending one leaf to the forest over `ls` gives the forest over `ls + [leaf]`. */
  lemma AppendIsForest(ls: seq<Hash>, leaf: Hash)
    ensures Climb(Nodes(ls) + [leaf]) == Nodes(ls + [leaf])
  {
    hide NodeCount, LeafFloor, Height, Nodes, Climb;
    ForestIsMmr(ls);
    var ns := Nodes(ls);
    LeafFloorOfCount(|ls|);
    HeightClosed(|ns|);
    LinkedMore(ns, leaf);
    NodeCountStep(|ls|);
    forall k: nat | k < |ls| + 1
      ensures NodeCount(k) < |ns| + 1 && (ns + [leaf])[NodeCount(k)] == (ls + [leaf])[k]
    {
      NodeCountMonotone(k, |ls|);
    }
    ClimbFrom(ns + [leaf], ls + [leaf]);
  }

  // ---- when the last peaks merge ---------------------------------------------

  lemma {:induction false} OnesFull(g: nat, h: nat)
    requires g < Pow2(h)
    ensures Ones(g) <= h && (Ones(g) == h ==> g + 1 == Pow2(h))
  {
    if h > 0 {
      OnesFull(g / 2, h - 1);
    }
  }

  lemma {:induction false} AllOnesHeights(f: nat, b: nat, h: nat, i: nat)
    requires f + 1 == Pow2(h) && i < h
    ensures |MountainsIn(f, b, h)| == h && MountainsIn(f, b, h)[i].height == h - 1 - i
  {
    if i > 0 {
      AllOnesHeights(f - Pow2(h - 1), b + Pow2(h) - 1, h - 1, i - 1);
    } else if h > 1 {
      AllOnesHeights(f - Pow2(h - 1), b + Pow2(h) - 1, h - 1, 0);
    }
  }

  /** The last `j` mountains have heights `j - 1` down to 0. */
  ghost predicate Trail(ms: seq<Mountain>, j: nat) {
    && j <= |ms|
    && forall i: nat | |ms| - j <= i < |ms| :: ms[i].height == |ms| - 1 - i
  }

  /**
    With the last `j` mountains merged into the new leaf, another merge is due
    exactly when the mountain before them has height `j`.
  */
  lemma {:induction false} TrailIn(f: nat, b: nat, h: nat, j: nat)
    requires f < Pow2(h) && Trail(MountainsIn(f, b, h), j)
    ensures Trail(MountainsIn(f, b, h), j + 1) <==> NodeCount(f) + j + 1 < NodeCount(f + 1)
  {
    hide NodeCount;
    var ms := MountainsIn(f, b, h);
    if h == 0 {
      NodeCountSplit(0, 0);
    } else if f < Pow2(h - 1) {
      TrailIn(f, b, h - 1, j);
    } else {
      var g := f - Pow2(h - 1);
      var rest := MountainsIn(g, b + Pow2(h) - 1, h - 1);
      assert ms == [ms[0]] + rest;
      MountainCount(g, b + Pow2(h) - 1, h - 1);
      OnesFull(g, h - 1);
      if f + 1 < Pow2(h) {
        FirstOfTrail(ms);
        TrailRest(ms, rest, j);
        TrailIn(g, b + Pow2(h) - 1, h - 1, j);
        NodeCountSplit(h - 1, g);
        NodeCountSplit(h - 1, g + 1);
        TrailRest(ms, rest, j + 1);
      } else {
        TrailFull(f, b, h, j);
      }
    }
  }

  /** All mountains of an all-ones count are in the trail, and the next leaf merges them all. */
  lemma TrailFull(f: nat, b: nat, h: nat, j: nat)
    requires h > 0 && f + 1 == Pow2(h) && Trail(MountainsIn(f, b, h), j)
    ensures Trail(MountainsIn(f, b, h), j + 1) <==> NodeCount(f) + j + 1 < NodeCount(f + 1)
  {
    hide NodeCount, MountainsIn;
    var ms := MountainsIn(f, b, h);
    LastLeafRun(f, h);
    NodeCountSplit(h, 0);
    AllOnesHeights(f, b, h, 0);
    forall i: nat | i < h
      ensures ms[i].height == h - 1 - i
    {
      AllOnesHeights(f, b, h, i);
    }
  }

  lemma FirstOfTrail(ms: seq<Mountain>)
    requires |ms| > 0
    ensures Trail(ms, |ms|) ==> ms[0].height == |ms| - 1
  {
  }

  lemma TrailRest(ms: seq<Mountain>, rest: seq<Mountain>, j: nat)
    requires |ms| > 0 && rest == ms[1..] && j <= |ms| && !Trail(ms, |ms|)
    ensures Trail(ms, j) <==> Trail(rest, j)
  {
    if Trail(rest, j) {
      forall i: nat | |ms| - j <= i < |ms|
        ensures ms[i].height == |ms| - 1 - i
      {
        assert rest[i - 1] == ms[i];
      }
    }
    if Trail(ms, j) {
      forall i: nat | |rest| - j <= i < |rest|
        ensures rest[i].height == |rest| - 1 - i
      {
        assert rest[i] == ms[i + 1];
      }
    }
  }

  lemma TrailMerge(f: nat, j: nat)
    requires Trail(Mountains(f), j)
    ensures Trail(Mountains(f), j + 1) <==> Height(NodeCount(f) + j + 1) > 0
  {
    hide NodeCount, LeafFloor, Height;
    Pow2Above(f);
    TrailIn(f, 0, f, j);
    if j > 0 {
      TrailShorter(Mountains(f), j);
      TrailIn(f, 0, f, j - 1);
    } else {
      NodeCountStep(f);
    }
    var q := NodeCount(f) + j + 1;
    HeightClosed(q);
    if q < NodeCount(f + 1) {
      LeafFloorUnique(q, f);
    } else {
      LeafFloorOfCount(f + 1);
    }
  }

  lemma TrailShorter(ms: seq<Mountain>, j: nat)
    requires j > 0 && Trail(ms, j)
    ensures Trail(ms, j - 1)
  {
  }
}

module Append {
  import opened Wrappers
  import opened Powers
  import opened Positions
  import opened Forest
  import opened AppendSpec
  import opened Digests
  import CorePositions
  import ProfilePositions

  /** The in-memory node array both formulations append to. */
  class NodeStore {
    var nodes: seq<Hash>

    constructor ()
      ensures nodes == []
    {
      nodes := [];
    }

    method AppendNodes(hashes: seq<Hash>)
      modifies this
      ensures nodes == old(nodes) + hashes
    {
      nodes := nodes + hashes;
    }

    /** Returns the node count after the append, as the profile's text does. */
    method Append(entry: Hash) returns (count: nat)
      modifies this
      ensures nodes == old(nodes) + [entry] && count == |nodes|
    {
      nodes := nodes + [entry];
      return |nodes|;
    }
  }

  /** `add_leaf` of the core: climb while the last peak left has the current height. */
  method AddLeaf(store: NodeStore, leaf: Hash) returns (r: Result<(nat, seq<Hash>), string>)
    modifies store
    ensures r.Ok? <==> |old(store.nodes)| < CorePositions.MAX_MMR_SIZE && Complete(|old(store.nodes)|)
    ensures r.Ok? ==> store.nodes == Climb(old(store.nodes) + [leaf])
    ensures r.Ok? ==> r.value.0 == |old(store.nodes)| && store.nodes == old(store.nodes) + r.value.1
    ensures r.Err? ==> store.nodes == old(store.nodes)
  {
    hide NodeCount, LeafFloor, Height, Mountains, Climb;
    var size := |store.nodes|;
    var newNodes := [leaf];
    var pks := CorePositions.PeakPositions(size);
    if pks.Err? {
      return Err(pks.error);
    }
    var existingPeaks := pks.value;
    ghost var f := LeafFloor(size);
    ghost var ms := Mountains(f);
    var peakIdx: int := |existingPeaks| - 1;
    var height := 0;
    var curHash := leaf;
    if peakIdx >= 0 {
      MountainFacts(f, peakIdx);
    }
    while peakIdx >= 0
      invariant -1 <= peakIdx && peakIdx == |ms| - 1 - height && |newNodes| == height + 1
      invariant Trail(ms, height)
      invariant peakIdx >= 0 ==> ms[peakIdx].peak + Pow2(height + 1) == size + height + 1
      invariant newNodes[height] == curHash
      invariant Climb(old(store.nodes) + [leaf]) == Climb(store.nodes + newNodes)
      invariant store.nodes == old(store.nodes)
    {
      var h := CorePositions.HeightAt(existingPeaks[peakIdx]);
      MountainFacts(f, peakIdx);
      TrailMerge(f, height);
      if h != height {
        break;
      }
      var leftPos := existingPeaks[peakIdx];
      var leftHash := store.nodes[leftPos];
      var parentPos := size + |newNodes|;
      var parentHash := Interior(parentPos, leftHash, curHash);
      MergeStep(store.nodes, newNodes, f, height);
      newNodes := newNodes + [parentHash];
      curHash := parentHash;
      height := height + 1;
      peakIdx := peakIdx - 1;
      if peakIdx >= 0 {
        MountainFacts(f, peakIdx);
      }
    }
    TrailMerge(f, height);
    ClimbDone(store.nodes + newNodes);
    store.AppendNodes(newNodes);
    return Ok((size, newNodes));
  }

  lemma ClimbDone(ns: seq<Hash>)
    requires |ns| > 0 && Height(|ns|) == 0
    ensures Climb(ns) == ns
  {
  }

  /** One merge of `add_leaf` is one step of the climb. */
  lemma MergeStep(old_: seq<Hash>, newNodes: seq<Hash>, f: nat, j: nat)
    requires |old_| == NodeCount(f) && |newNodes| == j + 1 && Pow2(j + 1) <= |old_| + j + 1
    requires Trail(Mountains(f), j + 1)
    ensures var q := |old_| + j + 1; var left := q - Pow2(j + 1);
            && left < |old_|
            && Climb(old_ + newNodes) == Climb(old_ + (newNodes + [Interior(q, old_[left], newNodes[j])]))
  {
    hide NodeCount, LeafFloor, Height, Mountains;
    var q := |old_| + j + 1;
    TrailShorter(Mountains(f), j + 1);
    TrailMerge(f, j);
    HeightClosed(q);
    TrailFloor(f, j);
    Pow2Above(j + 1);
    var ns := old_ + newNodes;
    assert old_ + (newNodes + [Interior(q, ns[q - Pow2(j + 1)], ns[q - 1])])
        == ns + [Interior(q, ns[q - Pow2(j + 1)], ns[q - 1])];
  }

  lemma {:induction false} TrailFloor(f: nat, j: nat)
    requires Trail(Mountains(f), j + 1)
    ensures LeafFloor(NodeCount(f) + j + 1) == f
  {
    hide NodeCount, LeafFloor, Height, Mountains;
    TrailShorter(Mountains(f), j + 1);
    TrailMerge(f, j);
    if j == 0 {
      LeafFloorOfCount(f);
      NextFloor(NodeCount(f) + 1);
    } else {
      TrailFloor(f, j - 1);
      NextFloor(NodeCount(f) + j + 1);
    }
  }

  /**
    What the profile's loop appends after `g` rounds: a node over the last one
    and the one `2^(g+1)` back, for as long as the next position is higher than `g`.
  */
  function ProfileClimb(ns: seq<Hash>, g: nat): (r: seq<Hash>)
    requires |ns| > 0 && g <= Height(|ns| - 1)
    ensures ns <= r
    decreases Room(|ns|)
  {
    hide NodeCount, LeafFloor, Height, Room, Pow2;
    if Height(|ns|) <= g then ns
    else
      ClimbRound(|ns|, g);
      ProfileClimb(ns + [Interior(|ns|, ns[|ns| - Pow2(g + 1)], ns[|ns| - 1])], g + 1)
  }

  /** Where a round reads, and that rounds end. */
  lemma ClimbRound(n: nat, g: nat)
    requires n > 0 && g <= Height(n - 1) && Height(n) > g
    ensures Pow2(g + 1) <= n && g + 1 <= Height(n) && 0 <= Room(n + 1) < Room(n)
  {
    hide NodeCount, LeafFloor, Height, Room;
    NextFloor(n);
    RoomShrinks(n);
    ChildHeights(n);
    Pow2Monotone(g + 1, Height(n));
  }

  /** From a leaf on, it is the climb. */
  lemma {:induction false} ProfileClimbIsClimb(ns: seq<Hash>)
    requires |ns| > 0
    ensures ProfileClimb(ns, Height(|ns| - 1)) == Climb(ns)
    decreases Room(|ns|)
  {
    hide NodeCount, LeafFloor, Height, Room;
    if Height(|ns|) > 0 {
      NextFloor(|ns|);
      RoomShrinks(|ns|);
      Children(|ns|);
      ProfileClimbIsClimb(ns + [Parent(ns)]);
    }
  }

  /** `add_leaf_hash` of the profile: climb while the next position is higher than the round. */
  method AddLeafHash(db: NodeStore, leaf: Hash) returns (i: nat)
    modifies db
    ensures db.nodes == ProfileClimb(old(db.nodes) + [leaf], 0)
    ensures Complete(|old(db.nodes)|) ==> db.nodes == Climb(old(db.nodes) + [leaf])
    ensures i == |db.nodes|
  {
    hide NodeCount, LeafFloor, Height, Climb, ProfileClimb, Room, Complete;
    ghost var start := db.nodes + [leaf];
    CompleteIffLeafNext(|db.nodes|);
    if Complete(|db.nodes|) {
      ProfileClimbIsClimb(start);
    }
    var g := 0;
    i := db.Append(leaf);
    var h := ProfilePositions.IndexHeight(i);
    while h > g
      invariant i == |db.nodes| > 0 && h == Height(i) && g <= Height(i - 1)
      invariant ProfileClimb(db.nodes, g) == ProfileClimb(start, 0)
      decreases Room(i)
    {
      NextFloor(i);
      RoomShrinks(i);
      Children(i);
      Pow2Monotone(g + 1, Height(i));
      ProfileClimbStep(db.nodes, g);
      var ileft := i - Pow2(g + 1);
      var iright := i - 1;
      i := db.Append(Interior(i, db.nodes[ileft], db.nodes[iright]));
      g := g + 1;
      h := ProfilePositions.IndexHeight(i);
    }
    ProfileClimbStep(db.nodes, g);
  }

  /** One round of the profile's loop. */
  lemma ProfileClimbStep(ns: seq<Hash>, g: nat)
    requires |ns| > 0 && g <= Height(|ns| - 1)
    ensures Height(|ns|) <= g ==> ProfileClimb(ns, g) == ns
    ensures Height(|ns|) > g ==>
              && Pow2(g + 1) <= |ns| && g + 1 <= Height(|ns|)
              && ProfileClimb(ns, g) ==
                 ProfileClimb(ns + [Interior(|ns|, ns[|ns| - Pow2(g + 1)], ns[|ns| - 1])], g + 1)
  {
    hide NodeCount, LeafFloor, Height, Room;
    if Height(|ns|) > g {
      NextFloor(|ns|);
      Children(|ns|);
      Pow2Monotone(g + 1, Height(|ns|));
    }
  }

  /** The height-0 nodes of an array of complete size, in order. */
  function LeafNodes(ns: seq<Hash>): (ls: seq<Hash>)
    requires Complete(|ns|)
    ensures |ls| == LeafFloor(|ns|)
    ensures forall k :: 0 <= k < |ls| ==> NodeCount(k) < |ns| && ls[k] == ns[NodeCount(k)]
  {
    hide NodeCount, LeafFloor;
    forall k: nat | k < LeafFloor(|ns|)
      ensures NodeCount(k) < |ns|
    {
      NodeCountMonotone(k, LeafFloor(|ns|));
    }
    seq(LeafFloor(|ns|), k requires 0 <= k < LeafFloor(|ns|) => ns[NodeCount(k)])
  }

  /** `New` of the Go tree: it restores an array only if its own leaves build it. */
  method RestoreTree(nodes: seq<Hash>) returns (ok: bool)
    ensures ok <==> Complete(|nodes|) && nodes == Nodes(LeafNodes(nodes))
  {
    hide NodeCount, LeafFloor, Height, Nodes, LeafNodes;
    var complete := ProfilePositions.IsComplete(|nodes|);
    if !complete {
      return false;
    }
    MmrIffForest(nodes, LeafNodes(nodes));
    for index := 0 to |nodes|
      invariant forall p: nat | p < index :: NodeRule(nodes, p)
    {
      var height := ProfilePositions.IndexHeight(index);
      if height == 0 {
        continue;
      }
      Children(index);
      var left := index - 2 * Pow2(height - 1);
      var right := index - 1;
      if nodes[index] != Interior(index, nodes[left], nodes[right]) {
        assert !NodeRule(nodes, index);
        return false;
      }
    }
    return true;
  }
}
