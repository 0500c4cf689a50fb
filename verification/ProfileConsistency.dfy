// `consistent_roots` of the profile, and its agreement with the core verifier.

module ProfileConsistency {
  import opened Wrappers
  import opened Powers
  import opened Bits
  import opened Positions
  import opened PositionSpec
  import opened Paths
  import opened Accumulators
  import opened Digests
  import opened Upward
  import opened Consistency
  import ProfilePositions

  /** Number of mountains above height `s`. */
  function Above(ms: seq<Mountain>, s: int): (n: nat)
    ensures n <= |ms|
    ensures forall i :: 0 <= i < n ==> ms[i].height > s
    ensures n < |ms| ==> ms[n].height <= s
  {
    if ms == [] || ms[0].height <= s then 0 else 1 + Above(ms[1..], s)
  }

  /** The root old peak `i` is proven to. */
  function Proven(f: nat, i: nat, acc: seq<Hash>, proofs: seq<seq<Hash>>): Hash
    requires i < |Mountains(f)| == |acc| == |proofs|
  {
    FoldUp(Mountains(f)[i].peak, acc[i], proofs[i])
  }

  /** The checks on the paths of `f` leaves' peaks against a log that first differs at bit `s`. */
  ghost predicate PathsFit(f: nat, s: int, acc: seq<Hash>, proofs: seq<seq<Hash>>) {
    var ms, n := Mountains(f), Above(Mountains(f), s);
    && |acc| == |ms| == |proofs|
    && (forall i: nat | i < n :: proofs[i] == [])
    && (forall i: nat | n <= i < |ms| ::
          |proofs[i]| == s - ms[i].height && Proven(f, i, acc, proofs) == Proven(f, n, acc, proofs))
  }

  /** The roots the checks leave: the shared peaks, then the one all lower peaks went into. */
  function Roots(f: nat, s: int, acc: seq<Hash>, proofs: seq<seq<Hash>>): seq<Hash>
    requires |acc| == |Mountains(f)| == |proofs|
  {
    var n := Above(Mountains(f), s);
    acc[..n] + if n < |Mountains(f)| then [Proven(f, n, acc, proofs)] else []
  }

  /** Bit by bit from the top, the mountains of `f` from index `i` on. */
  ghost predicate Rest(f: nat, i: nat, offset: nat, h: nat) {
    && i <= |Mountains(f)|
    && Mountains(f)[i..] == MountainsIn(Low(f, h), offset, h)
  }

  lemma RestStart(f: nat, h: nat)
    requires f < Pow2(h)
    ensures Rest(f, 0, 0, h)
  {
    hide Mountains, Low, MountainsIn;
    LowAll(f, h);
    MountainsWithin(f, h);
  }

  lemma RestStep(f: nat, i: nat, offset: nat, h: nat)
    requires Rest(f, i, offset, h + 1)
    ensures !Bit(f, h) ==> Rest(f, i, offset, h)
    ensures Bit(f, h) ==>
              && i < |Mountains(f)|
              && Mountains(f)[i] == Mountain(h, offset + 2 * Pow2(h) - 2)
              && Rest(f, i + 1, offset + 2 * Pow2(h) - 1, h)
  {
    hide Mountains, Low, Bit;
    LowStep(f, h);
    if Bit(f, h) {
      assert Mountains(f)[i] == Mountains(f)[i..][0];
      assert Mountains(f)[i + 1..] == Mountains(f)[i..][1..];
    }
  }

  lemma RestNone(f: nat, i: nat, offset: nat)
    requires Rest(f, i, offset, 0)
    ensures i == |Mountains(f)|
  {
    hide Mountains;
    assert |Mountains(f)[i..]| == 0;
  }

  /** All mountains left are lower than `h`. */
  lemma RestLower(f: nat, i: nat, offset: nat, h: nat)
    requires Rest(f, i, offset, h)
    ensures forall k: nat | i <= k < |Mountains(f)| :: Mountains(f)[k].height < h
  {
    hide Mountains, NodeCount;
    forall k: nat | i <= k < |Mountains(f)|
      ensures Mountains(f)[k].height < h
    {
      assert Mountains(f)[k] == Mountains(f)[i..][k - i];
      var g := MountainIn(Low(f, h), offset, h, k - i);
    }
  }

  lemma {:induction false} AboveIs(ms: seq<Mountain>, s: int, n: nat)
    requires n <= |ms|
    requires forall i: nat | i < n :: ms[i].height > s
    requires forall i: nat | n <= i < |ms| :: ms[i].height <= s
    ensures Above(ms, s) == n
  {
    if n > 0 {
      AboveIs(ms[1..], s, n - 1);
    }
  }

  lemma LeafFloorBelow(sizefrom: nat, sizeto: nat)
    requires sizefrom < sizeto && Complete(sizeto)
    ensures LeafFloor(sizefrom) < LeafFloor(sizeto)
  {
    hide NodeCount, LeafFloor;
    if LeafFloor(sizefrom) >= LeafFloor(sizeto) {
      NodeCountMonotone(LeafFloor(sizeto), LeafFloor(sizefrom));
    }
  }

  lemma MountainTotal(f: nat)
    ensures |Mountains(f)| == Ones(f)
  {
    hide MountainsIn;
    Pow2Above(f);
    MountainCount(f, 0, f);
  }

  /** The split of two leaf counts is a bit of the newer one only. */
  lemma SplitFacts(f: nat, t: nat) returns (above: nat)
    requires f < t
    ensures 0 <= Split(f, t)
    ensures above == Above(Mountains(f), Split(f, t)) < |Mountains(t)|
    ensures Mountains(f)[..above] == Mountains(t)[..above]
    ensures Mountains(t)[above].height == Split(f, t)
    ensures forall i: nat | above <= i < |Mountains(f)| ::
              && Mountains(f)[i].height < Split(f, t)
              && Below(Mountains(t)[above].peak, Mountains(t)[above].height, Mountains(f)[i].peak)
              && Mountains(f)[i].peak < Mountains(t)[above].peak
  {
    hide MountainsIn, Split;
    Pow2Above(t);
    above := SplitMountains(f, t, 0, t);
    MountainsWithin(f, t);
    AboveIs(Mountains(f), Split(f, t), above);
  }

  lemma BitIsMountain(f: nat, i: nat, offset: nat, h: nat)
    requires Rest(f, i, offset, h + 1)
    requires forall k: nat | k < |Mountains(f)| :: Mountains(f)[k].height != h
    ensures Rest(f, i, offset, h)
  {
    hide Mountains, Bit;
    RestStep(f, i, offset, h);
  }

  lemma HeightOrder(f: nat, s: int, i: nat)
    requires i < |Mountains(f)|
    ensures Mountains(f)[i].height > s <==> i < Above(Mountains(f), s)
  {
    hide Mountains, NodeCount, Above;
    var n := Above(Mountains(f), s);
    if n < i {
      MountainOrder(f, n, i);
    }
  }

  lemma NodeCountIs(f: nat)
    ensures NodeCount(f) == 2 * f - Ones(f)
  {
  }

  lemma FitLengths(f: nat, s: int, acc: seq<Hash>, proofs: seq<seq<Hash>>)
    ensures PathsFit(f, s, acc, proofs) ==> |acc| == |Mountains(f)| == |proofs|
    ensures |Mountains(f)| == 0 && acc == [] && proofs == [] ==>
              PathsFit(f, s, acc, proofs) && Roots(f, s, acc, proofs) == []
  {
    hide Mountains, Proven;
  }

  method ConsistentRoots(sizefrom: nat, sizeto: nat, accumulatorfrom: seq<Hash>, proofs: seq<seq<Hash>>)
    returns (r: Result<(seq<Hash>, int), string>)
    ensures var f, t := LeafFloor(sizefrom), LeafFloor(sizeto);
            && (r.Ok? <==> sizefrom < sizeto && Complete(sizeto) && PathsFit(f, Split(f, t), accumulatorfrom, proofs))
            && (r.Ok? ==> |accumulatorfrom| == |Mountains(f)| == |proofs|
                          && r.value.0 == Roots(f, Split(f, t), accumulatorfrom, proofs)
                          && r.value.1 == Ones(t) - |r.value.0|)
  {
    hide NodeCount, LeafFloor, Mountains, Split, PathsFit, Roots;
    if sizeto <= sizefrom {
      return Err("sizeto <= sizefrom");
    }
    var leavesto := ProfilePositions.LeafCount(sizeto - 1);
    NodeCountIs(leavesto);
    if 2 * leavesto - Ones(leavesto) != sizeto {
      return Err("sizeto is not a complete MMR size");
    }
    NothingLeft(0);
    var leavesfrom := 0;
    if sizefrom > 0 {
      leavesfrom := ProfilePositions.LeafCount(sizefrom - 1);
    }
    var n := Ones(leavesfrom);
    MountainTotal(leavesfrom);
    FitLengths(leavesfrom, Split(leavesfrom, leavesto), accumulatorfrom, proofs);
    if |accumulatorfrom| != n || |proofs| != n {
      return Err("length != n");
    }
    var nto := Ones(leavesto);
    LeafFloorBelow(sizefrom, sizeto);
    if n == 0 {
      return Ok(([], nto));
    }
    r := CheckPaths(leavesfrom, leavesto, accumulatorfrom, proofs);
  }

  /** The peaks above the split: every path must be empty. */
  method PeaksAbove(
    leavesfrom: nat, ghost leavesto: nat, split: nat, accumulatorfrom: seq<Hash>, proofs: seq<seq<Hash>>)
    returns (r: Result<(seq<Hash>, nat), string>)
    requires leavesfrom < leavesto && |accumulatorfrom| == |Mountains(leavesfrom)| == |proofs|
    requires split == Split(leavesfrom, leavesto)
    ensures var n := Above(Mountains(leavesfrom), split);
            && (r.Ok? <==> forall k: nat | k < n :: proofs[k] == [])
            && (r.Ok? ==> r.value.0 == accumulatorfrom[..n] && Rest(leavesfrom, n, r.value.1, split))
  {
    hide NodeCount, Mountains, Split, Bit, Rest, Above;
    ghost var f := leavesfrom;
    ghost var n := SplitFacts(leavesfrom, leavesto);
    var roots: seq<Hash> := [];
    var offset: nat, i: nat := 0, 0;
    var h: int := BitLength(leavesfrom) - 1;
    BitLengthBounds(f);
    RestStart(f, BitLength(f));
    while h > split
      invariant -1 <= h && |roots| == i
      invariant Rest(f, i, offset, h + 1)
      invariant h <= split ==> h == split || (i == 0 && offset == 0 && h == BitLength(f) - 1)
      invariant i <= n && forall k: nat | k < i :: proofs[k] == []
      invariant roots == accumulatorfrom[..i]
    {
      RestStep(f, i, offset, h);
      if Bit(leavesfrom, h) {
        HeightOrder(f, split, i);
        if |proofs[i]| != 0 {
          return Err("non-empty path for an origin peak above split");
        }
        roots := roots + [accumulatorfrom[i]];
        offset := offset + Pow2(h + 1) - 1;
        i := i + 1;
      }
      h := h - 1;
    }
    if h < split {
      Pow2Monotone(BitLength(f), split);
      RestStart(f, split);
    } else {
      NoMountainAtSplit(f, leavesto);
      BitIsMountain(f, i, offset, split);
    }
    RestLower(f, i, offset, split);
    if i < n {
      HeightOrder(f, split, i);
    }
    return Ok((roots, offset));
  }

  lemma NoMountainAtSplit(f: nat, t: nat)
    requires f < t
    ensures forall k: nat | k < |Mountains(f)| :: Mountains(f)[k].height != Split(f, t)
  {
    hide Mountains, Split;
    var n := SplitFacts(f, t);
  }

  /** The peaks below it: every path must lead to the same root. */
  method PeaksBelow(leavesfrom: nat, ghost leavesto: nat, split: nat, above: nat, from: nat,
                    accumulatorfrom: seq<Hash>, proofs: seq<seq<Hash>>)
    returns (r: Result<Option<Hash>, string>)
    requires leavesfrom < leavesto && |accumulatorfrom| == |Mountains(leavesfrom)| == |proofs|
    requires split == Split(leavesfrom, leavesto) && above == Above(Mountains(leavesfrom), split)
    requires Rest(leavesfrom, above, from, split)
    ensures r.Ok? <==> forall k: nat | above <= k < |proofs| ::
                         && |proofs[k]| == split - Mountains(leavesfrom)[k].height
                         && Proven(leavesfrom, k, accumulatorfrom, proofs)
                            == Proven(leavesfrom, above, accumulatorfrom, proofs)
    ensures r.Ok? ==>
              r.value == if above < |proofs| then Some(Proven(leavesfrom, above, accumulatorfrom, proofs)) else None
  {
    hide NodeCount, Mountains, Split, Bit, Rest, FoldUp, Above;
    ghost var f := leavesfrom;
    var offset: nat, i: nat := from, above;
    var root: Option<Hash> := None;
    var h: int := split - 1;
    while h >= 0
      invariant -1 <= h < split && above <= i <= |proofs|
      invariant Rest(f, i, offset, h + 1)
      invariant root == if i > above then Some(Proven(f, above, accumulatorfrom, proofs)) else None
      invariant forall k: nat | above <= k < i ::
          && |proofs[k]| == split - Mountains(f)[k].height
          && Proven(f, k, accumulatorfrom, proofs) == Proven(f, above, accumulatorfrom, proofs)
    {
      RestStep(f, i, offset, h);
      if Bit(leavesfrom, h) {
        if |proofs[i]| != split - h {
          return Err("path length != split - h");
        }
        var subtree := Pow2(h + 1) - 1;
        var proven := IncludedRoot(offset + subtree - 1, accumulatorfrom[i], proofs[i]);
        if i == above {
          root := Some(proven);
        } else if root != Some(proven) {
          return Err("paths to the split peak disagree");
        }
        offset := offset + subtree;
        i := i + 1;
      }
      h := h - 1;
    }
    RestNone(f, i, offset);
    return Ok(root);
  }

  /** The two loops over the bits of the older leaf count, above and below the split. */
  method CheckPaths(leavesfrom: nat, leavesto: nat, accumulatorfrom: seq<Hash>, proofs: seq<seq<Hash>>)
    returns (r: Result<(seq<Hash>, int), string>)
    requires leavesfrom < leavesto && |accumulatorfrom| == |Mountains(leavesfrom)| == |proofs|
    ensures r.Ok? <==> PathsFit(leavesfrom, Split(leavesfrom, leavesto), accumulatorfrom, proofs)
    ensures r.Ok? ==> r.value.0 == Roots(leavesfrom, Split(leavesfrom, leavesto), accumulatorfrom, proofs)
    ensures r.Ok? ==> r.value.1 == Ones(leavesto) - |r.value.0|
  {
    hide NodeCount, Mountains, Split, Rest, Proven, Above;
    var split := Split(leavesfrom, leavesto);
    ghost var n := SplitFacts(leavesfrom, leavesto);
    var shared := PeaksAbove(leavesfrom, leavesto, split, accumulatorfrom, proofs);
    if shared.Err? {
      return Err(shared.error);
    }
    var (roots, offset) := shared.value;
    var root := PeaksBelow(leavesfrom, leavesto, split, |roots|, offset, accumulatorfrom, proofs);
    if root.Err? {
      return Err(root.error);
    }
    if root.value.Some? {
      roots := roots + [root.value.value];
    }
    assert roots == Roots(leavesfrom, split, accumulatorfrom, proofs);
    return Ok((roots, Ones(leavesto) - |roots|));
  }

  /** `verify_consistency_accumulator` for `[size1, size2, paths, right]` against a trusted accumulator. */
  method VerifyAccumulator(treeSize1: nat, accumulatorfrom: seq<Hash>, size1: nat, size2: nat,
                           paths: seq<seq<Hash>>, right: seq<Hash>) returns (r: Result<seq<Hash>, string>)
    ensures r.Ok? <==> size1 == treeSize1 && AccumulatorFor(size1, size2, accumulatorfrom, paths, right).Some?
    ensures r.Ok? ==> AccumulatorFor(size1, size2, accumulatorfrom, paths, right) == Some(r.value)
  {
    hide LeafFloor, Mountains, Split, PathsFit, Roots;
    if size1 != treeSize1 {
      return Err("tree-size-1 != trusted tree size");
    }
    var cr := ConsistentRoots(size1, size2, accumulatorfrom, paths);
    if cr.Err? {
      return Err(cr.error);
    }
    if |right| != cr.value.1 {
      return Err("length(right-peaks) != nright");
    }
    return Ok(cr.value.0 + right);
  }

  /** The accumulator the profile's verifier computes for `size2`, if it accepts. */
  ghost function AccumulatorFor(size1: nat, size2: nat, acc: seq<Hash>, paths: seq<seq<Hash>>, right: seq<Hash>)
    : Option<seq<Hash>>
  {
    var f, t := LeafFloor(size1), LeafFloor(size2);
    if size1 < size2 && Complete(size2) && PathsFit(f, Split(f, t), acc, paths)
       && |right| == Ones(t) - |Roots(f, Split(f, t), acc, paths)|
    then Some(Roots(f, Split(f, t), acc, paths) + right)
    else None
  }

  /**
    When there is a new accumulator: a larger complete size, fitting paths, and right peaks for the
    rest of its peaks.
  */
  lemma AccumulatorExists(size1: nat, size2: nat, acc: seq<Hash>, paths: seq<seq<Hash>>, right: seq<Hash>)
    ensures AccumulatorFor(size1, size2, acc, paths, right).Some? <==>
            && size1 < size2
            && exists t: nat ::
                 var f := LeafFloor(size1);
                 && NodeCount(t) == size2 && PathsFit(f, Split(f, t), acc, paths)
                 && |right| + |Roots(f, Split(f, t), acc, paths)| == Ones(t)
  {
    hide NodeCount, LeafFloor, PathsFit, Roots, Split, Ones;
    CompleteIff(size2);
    forall t: nat | NodeCount(t) == size2
      ensures LeafFloor(size2) == t
    {
      LeafFloorOfCount(t);
    }
    if Complete(size2) {
      CompleteCount(size2);
    }
  }

  // ---- the two verifiers agree ------------------------------------------------------

  /** A shared peak is its own new peak: nothing to climb. */
  lemma SharedPeak(fa: nat, fb: nat, i: nat)
    requires fa < fb && i < Above(Mountains(fa), Split(fa, fb))
    ensures i < |Mountains(fb)| && NewMountain(fa, fb, i) == i && PeakPath(fa, fb, i) == []
  {
    hide NodeCount, Mountains, Split, Height, Above;
    var n := SplitFacts(fa, fb);
    assert Mountains(fa)[i] == Mountains(fa)[..n][i] == Mountains(fb)[i];
    MountainFacts(fa, i);
    MountainFacts(fb, i);
    NodeCountMonotone(fa, fb);
    ContainingUnique(fb, Mountains(fa)[i].peak, i);
  }

  /** A lower peak climbs to the new mountain at the split, along the bottom-up path. */
  lemma MergedPeak(fa: nat, fb: nat, i: nat)
    requires fa < fb && Above(Mountains(fa), Split(fa, fb)) <= i < |Mountains(fa)|
    ensures Mountains(fa)[i].height < Split(fa, fb)
    ensures NewMountain(fa, fb, i) == Above(Mountains(fa), Split(fa, fb))
    ensures PeakPath(fa, fb, i) == UpPath(Mountains(fa)[i].peak, Split(fa, fb) - Mountains(fa)[i].height)
  {
    hide NodeCount, Mountains, Split, Height, Above, Path, UpPath;
    var n := SplitFacts(fa, fb);
    MountainFacts(fa, i);
    MountainFacts(fb, n);
    NodeCountMonotone(fa, fb);
    ContainingUnique(fb, Mountains(fa)[i].peak, n);
    UpIsPath(Mountains(fb)[n].peak, Mountains(fa)[i].peak);
  }

  /** The core's check of one old peak in the profile's terms. */
  lemma PeakProvenUp(fa: nat, fb: nat, i: nat, old_: seq<Hash>, ws: seq<seq<Hash>>, new_: seq<Hash>)
    requires fa < fb && i < |Mountains(fa)| == |old_| == |ws| && |new_| == |Mountains(fb)|
    ensures var n := Above(Mountains(fa), Split(fa, fb));
            && (i < n ==>
                  (PeakProven(fa, fb, i, old_[i], ws[i], new_) <==>
                   ws[i] == [] && i < |new_| && old_[i] == new_[i]))
            && (n <= i ==> n < |new_|)
            && (n <= i ==> (PeakProven(fa, fb, i, old_[i], ws[i], new_) <==>
                            && |ws[i]| == Split(fa, fb) - Mountains(fa)[i].height
                            && Proven(fa, i, old_, ws) == new_[n]))
  {
    hide NodeCount, Mountains, Split, Height, Above, NewMountain, PeakPath, UpPath;
    if i < Above(Mountains(fa), Split(fa, fb)) {
      SharedPeak(fa, fb, i);
      EmptyFoldIs(old_[i]);
    } else {
      MergedPeak(fa, fb, i);
      FoldUpIsFold(Mountains(fa)[i].peak, old_[i], ws[i]);
    }
  }

  lemma EmptyFoldIs(acc: Hash)
    ensures Fold(acc, [], []) == acc
  {
  }

  /**
    For complete sizes `a < b` the core's verifier accepts old peaks, witnesses
    and new peaks exactly when the profile's computes those new peaks from the
    same old peaks and witnesses, followed by some right peaks.
  */
  lemma VerifiersAgree(fa: nat, fb: nat, old_: seq<Hash>, ws: seq<seq<Hash>>, new_: seq<Hash>)
    requires fa < fb
    ensures PeaksProven(fa, fb, old_, ws, new_) <==>
            exists right :: AccumulatorFor(NodeCount(fa), NodeCount(fb), old_, ws, right) == Some(new_)
  {
    hide NodeCount, Mountains, Split, Height, Above, PeakProven, Proven, LeafFloor;
    LeafFloorOfCount(fa);
    LeafFloorOfCount(fb);
    NodeCountMonotone(fa, fb);
    MountainTotal(fb);
    var s := Split(fa, fb);
    var n := SplitFacts(fa, fb);
    if |old_| == |Mountains(fa)| == |ws| {
      if |new_| == |Mountains(fb)| {
        forall i: nat | i < |old_|
          ensures i < n ==> (PeakProven(fa, fb, i, old_[i], ws[i], new_) <==> ws[i] == [] && old_[i] == new_[i])
          ensures n <= i ==> (PeakProven(fa, fb, i, old_[i], ws[i], new_) <==>
                              && |ws[i]| == s - Mountains(fa)[i].height
                              && Proven(fa, i, old_, ws) == new_[n])
        {
          PeakProvenUp(fa, fb, i, old_, ws, new_);
        }
        var roots := Roots(fa, s, old_, ws);
        if PeaksProven(fa, fb, old_, ws, new_) {
          assert forall i :: 0 <= i < |roots| ==> roots[i] == new_[i];
          assert roots + new_[|roots|..] == new_;
          assert AccumulatorFor(NodeCount(fa), NodeCount(fb), old_, ws, new_[|roots|..]) == Some(new_);
        }
        forall right | AccumulatorFor(NodeCount(fa), NodeCount(fb), old_, ws, right) == Some(new_)
          ensures PeaksProven(fa, fb, old_, ws, new_)
        {
          assert forall i :: 0 <= i < |roots| ==> new_[i] == roots[i];
        }
      }
    }
  }
}
