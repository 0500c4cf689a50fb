// Draft -03 of the profile: roots are de-duplicated by value.

module Draft03 {
  import opened Wrappers
  import opened Bits
  import opened Positions
  import opened Forest
  import opened Accumulators
  import opened Digests
  import opened Upward
  import opened Consistency
  import opened ProfileConsistency
  import ProfilePositions

  /** Drop every value equal to the one kept before it. */
  function Dedup(hs: seq<Hash>): (r: seq<Hash>)
    ensures |r| <= |hs|
  {
    if hs == [] then []
    else
      var kept, last := Dedup(hs[..|hs| - 1]), hs[|hs| - 1];
      if kept != [] && kept[|kept| - 1] == last then kept else kept + [last]
  }

  /** The root each old peak is proven to. */
  function AllProven(f: nat, acc: seq<Hash>, proofs: seq<seq<Hash>>): (hs: seq<Hash>)
    requires |acc| == |Mountains(f)| == |proofs|
    ensures |hs| == |acc|
    ensures forall i :: 0 <= i < |hs| ==> hs[i] == Proven(f, i, acc, proofs)
  {
    seq(|acc|, i requires 0 <= i < |acc| => Proven(f, i, acc, proofs))
  }

  method ConsistentRoots(ifrom: int, accumulatorfrom: seq<Hash>, proofs: seq<seq<Hash>>)
    returns (r: Result<seq<Hash>, string>)
    requires ifrom >= -1
    ensures var f := LeafFloor(ifrom + 1);
            && (r.Ok? <==> Complete(ifrom + 1) && |accumulatorfrom| == |Mountains(f)| == |proofs|)
            && (r.Ok? ==> r.value == Dedup(AllProven(f, accumulatorfrom, proofs)))
  {
    hide NodeCount, LeafFloor, Complete, Mountains, FoldUp;
    var complete := ProfilePositions.IsComplete(ifrom + 1);
    if !complete {
      return Err("MMR is not complete");
    }
    var frompeaks := ProfilePositions.PeakPositions(ifrom);
    if |frompeaks| != |accumulatorfrom| || |frompeaks| != |proofs| {
      return Err("cardinality");
    }
    ghost var all := AllProven(LeafFloor(ifrom + 1), accumulatorfrom, proofs);
    var roots: seq<Hash> := [];
    for i := 0 to |accumulatorfrom|
      invariant roots == Dedup(all[..i])
    {
      assert all[..i + 1][..i] == all[..i];
      var root := IncludedRoot(frompeaks[i], accumulatorfrom[i], proofs[i]);
      if roots != [] && roots[|roots| - 1] == root {
        continue;
      }
      roots := roots + [root];
    }
    assert all[..|accumulatorfrom|] == all;
    return Ok(roots);
  }

  /** `consistent_accumulator`: the roots followed by the right peaks. */
  method ConsistentAccumulator(treeSize1: nat, treeSize2: nat, accumulatorfrom: seq<Hash>,
                               proofs: seq<seq<Hash>>, right: seq<Hash>) returns (r: Result<seq<Hash>, string>)
    ensures r.Ok? <==> Accumulator03(treeSize1, treeSize2, accumulatorfrom, proofs, right).Some?
    ensures r.Ok? ==> Accumulator03(treeSize1, treeSize2, accumulatorfrom, proofs, right) == Some(r.value)
  {
    hide NodeCount, LeafFloor, Complete, Mountains, AllProven;
    var complete := ProfilePositions.IsComplete(treeSize2);
    if !complete {
      return Err("MMR is not complete");
    }
    var topeaks := ProfilePositions.PeakPositions(treeSize2 - 1);
    var roots := ConsistentRoots(treeSize1 - 1, accumulatorfrom, proofs);
    if roots.Err? {
      return Err(roots.error);
    }
    if |roots.value| + |right| != |topeaks| {
      return Err("cardinality");
    }
    return Ok(roots.value + right);
  }

  ghost function Accumulator03(size1: nat, size2: nat, acc: seq<Hash>, proofs: seq<seq<Hash>>, right: seq<Hash>)
    : Option<seq<Hash>>
  {
    var f := LeafFloor(size1);
    if && Complete(size1) && Complete(size2) && |acc| == |Mountains(f)| == |proofs|
       && |Dedup(AllProven(f, acc, proofs))| + |right| == |Mountains(LeafFloor(size2))|
    then Some(Dedup(AllProven(f, acc, proofs)) + right)
    else None
  }

  /** When there is a result: two complete sizes, a proof for every old peak, and as many peaks as the new size has. */
  lemma ResultExact(size1: nat, size2: nat, acc: seq<Hash>, proofs: seq<seq<Hash>>, right: seq<Hash>)
    ensures Accumulator03(size1, size2, acc, proofs, right).Some? <==>
            exists f: nat, t: nat ::
              && NodeCount(f) == size1 && NodeCount(t) == size2
              && |acc| == |Mountains(f)| && |proofs| == |Mountains(f)|
              && |Dedup(AllProven(f, acc, proofs))| == |Mountains(t)| - |right|
  {
    hide NodeCount, LeafFloor, Mountains, AllProven, Dedup;
    CompleteIff(size1);
    CompleteIff(size2);
    forall f: nat | NodeCount(f) == size1 || NodeCount(f) == size2
      ensures LeafFloor(NodeCount(f)) == f
    {
      LeafFloorOfCount(f);
    }
    if Complete(size1) && Complete(size2) {
      CompleteCount(size1);
      CompleteCount(size2);
    }
  }

  /** Two distinct peaks of a log have distinct hashes, if the taller one stands above leaf level. */
  lemma PeaksDistinct(ls: seq<Hash>, i: nat)
    requires i + 1 < |Mountains(|ls|)| && (Mountains(|ls|)[i + 1].height > 0 || forall l <- ls :: l.Leaf?)
    ensures Accumulator(ls)[i] != Accumulator(ls)[i + 1]
  {
    hide NodeCount, Mountains, Height, LeafFloor, Nodes;
    ForestIsMmr(ls);
    var ns, ms := Nodes(ls), Mountains(|ls|);
    MountainFacts(|ls|, i);
    MountainFacts(|ls|, i + 1);
    var p, q := ms[i].peak, ms[i + 1].peak;
    assert NodeRule(ns, p) && NodeRule(ns, q);
    if ms[i + 1].height == 0 {
      HeightClosed(q);
      var k := LeafFloor(q);
      NodeCountReflects(k, |ls|);
      assert ls[k] in ls;
    }
  }

  /** A run of roots that stays put or moves to the next peak is de-duplicated to those peaks. */
  lemma {:induction false} DedupRun(hs: seq<Hash>, ps: seq<Hash>, n: nat)
    requires n < |ps| && forall i :: 0 <= i < |hs| ==> hs[i] == if i < n then ps[i] else ps[n]
    requires forall i :: 0 <= i < n && i + 1 < |hs| ==> ps[i] != ps[i + 1]
    ensures Dedup(hs) == ps[..if |hs| <= n then |hs| else n + 1]
  {
    if hs != [] {
      var k := |hs| - 1;
      DedupRun(hs[..k], ps, n);
    }
  }

  /** An honest old peak is proven to its new peak. */
  lemma HonestProven(ls: seq<Hash>, f: nat, i: nat)
    requires f < |ls| && i < |Mountains(f)|
    ensures NodeCount(|ls|) == |Nodes(ls)|
    ensures var acc := Accumulator(ls[..f]); var ws := HonestWitness(Nodes(ls), f, |ls|);
            var n := Above(Mountains(f), Split(f, |ls|));
            && i < |acc| == |ws| && n < |Accumulator(ls)|
            && Proven(f, i, acc, ws) == if i < n then Accumulator(ls)[i] else Accumulator(ls)[n]
  {
    hide NodeCount, Mountains, Height, LeafFloor, Nodes, HonestWitness, Accumulator, Split, Above, PeakProven;
    ForestIsMmr(ls);
    var n := SplitFacts(f, |ls|);
    var acc, ws := Accumulator(ls[..f]), HonestWitness(Nodes(ls), f, |ls|);
    PeaksProvenExact(ls, f, acc, ws);
    PeakProvenUp(f, |ls|, i, acc, ws, Accumulator(ls));
  }

  /**
    De-duplication does no harm: on the honest proof from the first `f` leaves
    to a longer log of tagged or untagged leaves, with as many right peaks as
    roots leave over, draft -03 computes the accumulator of the longer log.
  */
  lemma HonestAccumulator(ls: seq<Hash>, f: nat, right: seq<Hash>)
    requires 0 < f < |ls|
    ensures NodeCount(|ls|) == |Nodes(ls)|
    ensures var acc := Accumulator(ls[..f]); var ws := HonestWitness(Nodes(ls), f, |ls|);
            && |acc| == |Mountains(f)| == |ws|
            && var n := |Dedup(AllProven(f, acc, ws))|;
               && n <= |Accumulator(ls)|
               && (right == Accumulator(ls)[n..] ==>
                     Accumulator03(NodeCount(f), NodeCount(|ls|), acc, ws, right) == Some(Accumulator(ls)))
  {
    hide NodeCount, Mountains, Height, LeafFloor, Complete, Nodes, HonestWitness, Proven, Accumulator, Split, Above,
      PeakProven, AllProven, Dedup;
    ForestIsMmr(ls);
    LeafFloorOfCount(f);
    LeafFloorOfCount(|ls|);
    CompleteIff(NodeCount(f));
    CompleteIff(NodeCount(|ls|));
    var acc, ws, new_ := Accumulator(ls[..f]), HonestWitness(Nodes(ls), f, |ls|), Accumulator(ls);
    var n := SplitFacts(f, |ls|);
    forall i: nat | i < |acc|
      ensures Proven(f, i, acc, ws) == if i < n then new_[i] else new_[n]
    {
      HonestProven(ls, f, i);
    }
    forall i: nat | i < n && i + 1 < |acc|
      ensures new_[i] != new_[i + 1]
    {
      if i + 1 < n {
        assert Mountains(|ls|)[..n][i + 1] == Mountains(f)[..n][i + 1];
      }
      PeaksDistinct(ls, i);
    }
    var all := AllProven(f, acc, ws);
    var hs := if |all| <= n then |all| else n + 1;
    DedupRun(all, new_, n);
    assert new_[..hs] + new_[hs..] == new_;
  }
}
