// What a range proof's witnesses are, and how many there can be.

module RangeSize {
  import opened Powers
  import opened Positions
  import opened PositionSpec
  import opened Forest
  import opened Accumulators
  import opened Digests
  import opened Range
  import Paths

  /** Roots of the maximal subtrees of `pos` wholly left of leaf `lo`. */
  function LeftRoots(pos: nat, lo: nat): (ps: seq<nat>)
    ensures forall i :: 0 <= i < |ps| ==> ps[i] <= pos
    decreases pos
  {
    hide NodeCount, LeafFloor, Height, FirstLeaf;
    Halves(pos);
    if LeafFloor(pos) < lo then [pos]
    else if lo <= FirstLeaf(pos) then []
    else LeftRoots(pos - Pow2(Height(pos)), lo) + LeftRoots(pos - 1, lo)
  }

  /** Roots of the maximal subtrees of `pos` wholly right of leaf `hi`. */
  function RightRoots(pos: nat, hi: nat): (ps: seq<nat>)
    ensures forall i :: 0 <= i < |ps| ==> ps[i] <= pos
    decreases pos
  {
    hide NodeCount, LeafFloor, Height, FirstLeaf;
    Halves(pos);
    if FirstLeaf(pos) > hi then [pos]
    else if LeafFloor(pos) <= hi then []
    else RightRoots(pos - Pow2(Height(pos)), hi) + RightRoots(pos - 1, hi)
  }

  lemma AtConcat(ns: seq<Hash>, a: seq<nat>, b: seq<nat>)
    requires forall i :: 0 <= i < |a| ==> a[i] < |ns|
    requires forall i :: 0 <= i < |b| ==> b[i] < |ns|
    ensures forall i :: 0 <= i < |a + b| ==> (a + b)[i] < |ns|
    ensures At(ns, a + b) == At(ns, a) + At(ns, b)
  {
  }

  /** Left witnesses come before right ones. */
  lemma {:induction false} SiblingsSplit(ns: seq<Hash>, pos: nat, lo: nat, hi: nat)
    requires pos < |ns| && lo <= hi
    ensures Siblings(ns, pos, lo, hi) == At(ns, LeftRoots(pos, lo)) + At(ns, RightRoots(pos, hi))
    decreases pos
  {
    hide NodeCount, LeafFloor, Height, FirstLeaf, At, LeftRoots, RightRoots, Siblings;
    if Outside(pos, lo, hi) || Inside(pos, lo, hi) {
      WholeSubtree(ns, pos, lo, hi);
    } else {
      var l, r := pos - Pow2(Height(pos)), pos - 1;
      SplitHalves(pos, lo, hi);
      CutSiblings(ns, pos, lo, hi);
      SiblingsSplit(ns, l, lo, hi);
      SiblingsSplit(ns, r, lo, hi);
      AtConcat(ns, LeftRoots(l, lo), LeftRoots(r, lo));
      AtConcat(ns, RightRoots(l, hi), RightRoots(r, hi));
      Regroup(At(ns, LeftRoots(l, lo)), At(ns, RightRoots(l, hi)), At(ns, LeftRoots(r, lo)), At(ns, RightRoots(r, hi)));
    }
  }

  lemma Regroup(a: seq<Hash>, b: seq<Hash>, c: seq<Hash>, d: seq<Hash>)
    ensures b == [] || c == [] ==> (a + b) + (c + d) == (a + c) + (b + d)
  {
    if b == [] {
      assert (a + b) + (c + d) == (a + c) + (b + d);
    } else if c == [] {
      assert (a + b) + (c + d) == (a + c) + (b + d);
    }
  }

  lemma CutSiblings(ns: seq<Hash>, pos: nat, lo: nat, hi: nat)
    requires pos < |ns| && !Outside(pos, lo, hi) && !Inside(pos, lo, hi)
    ensures 0 < Pow2(Height(pos)) <= pos
    ensures Siblings(ns, pos, lo, hi) ==
            Siblings(ns, pos - Pow2(Height(pos)), lo, hi) + Siblings(ns, pos - 1, lo, hi)
  {
    hide NodeCount, LeafFloor, Height, FirstLeaf;
    Halves(pos);
  }

  lemma WholeSubtree(ns: seq<Hash>, pos: nat, lo: nat, hi: nat)
    requires pos < |ns| && lo <= hi && (Outside(pos, lo, hi) || Inside(pos, lo, hi))
    ensures Siblings(ns, pos, lo, hi) == At(ns, LeftRoots(pos, lo)) + At(ns, RightRoots(pos, hi))
  {
    hide NodeCount, LeafFloor, Height, FirstLeaf;
    Halves(pos);
  }

  /** The cut is on one side only, so the two kinds do not interleave. */
  lemma SplitHalves(pos: nat, lo: nat, hi: nat)
    requires !Outside(pos, lo, hi) && !Inside(pos, lo, hi) && lo <= hi
    ensures Height(pos) > 0 && pos >= Pow2(Height(pos))
    ensures var l := pos - Pow2(Height(pos));
            && LeftRoots(pos, lo) == LeftRoots(l, lo) + LeftRoots(pos - 1, lo)
            && RightRoots(pos, hi) == RightRoots(l, hi) + RightRoots(pos - 1, hi)
            && (LeftRoots(pos - 1, lo) == [] || RightRoots(l, hi) == [])
  {
    hide NodeCount, LeafFloor, Height, FirstLeaf, Pow2;
    Halves(pos);
    Halves(pos - Pow2(Height(pos)));
    Halves(pos - 1);
  }

  // ---- the left witnesses are an accumulator -------------------------------------

  lemma LeftStep(pos: nat, lo: nat)
    requires Height(pos) > 0 && FirstLeaf(pos) <= lo <= LeafFloor(pos)
    ensures 0 < Pow2(Height(pos)) <= pos
    ensures LeftRoots(pos, lo) ==
            if lo < FirstLeaf(pos - 1) then LeftRoots(pos - Pow2(Height(pos)), lo)
            else [pos - Pow2(Height(pos))] + LeftRoots(pos - 1, lo)
  {
    hide NodeCount, LeafFloor, Height, FirstLeaf;
    Halves(pos);
    Halves(pos - Pow2(Height(pos)));
    Halves(pos - 1);
  }

  lemma MountainsStep(f: nat, b: nat, h: nat)
    requires h > 0 && f < Pow2(h)
    ensures Peaks(MountainsIn(f, b, h)) ==
            if f < Pow2(h - 1) then Peaks(MountainsIn(f, b, h - 1))
            else [b + Pow2(h) - 2] + Peaks(MountainsIn(f - Pow2(h - 1), b + Pow2(h) - 1, h - 1))
  {
  }

  /** Within one tree: the left roots are the mountains over the leaves before `lo`. */
  lemma {:induction false} LeftRootsAreMountains(pos: nat, lo: nat)
    requires FirstLeaf(pos) <= lo < FirstLeaf(pos) + Pow2(Height(pos))
    ensures Pow2(Height(pos) + 1) <= pos + 2
    ensures LeftRoots(pos, lo) ==
            Peaks(MountainsIn(lo - FirstLeaf(pos), pos + 2 - Pow2(Height(pos) + 1), Height(pos)))
    decreases pos
  {
    hide NodeCount, LeafFloor, Height, FirstLeaf, LeftRoots, MountainsIn, Peaks;
    Halves(pos);
    Paths.RootBound(pos);
    var h := Height(pos);
    if h == 0 {
      NoLeaves(pos);
    } else {
      Children(pos);
      LeftStep(pos, lo);
      MountainsStep(lo - FirstLeaf(pos), pos + 2 - Pow2(h + 1), h);
      LeftRootsAreMountains(if lo < FirstLeaf(pos - 1) then pos - Pow2(h) else pos - 1, lo);
    }
  }

  lemma NoLeaves(pos: nat)
    ensures LeftRoots(pos, FirstLeaf(pos)) == [] == Peaks(MountainsIn(0, pos, 0))
  {
    hide NodeCount, LeafFloor, Height, FirstLeaf;
    Halves(pos);
  }

  /** Left roots of mountain `i` and those after it. */
  function AllLeft(f: nat, i: nat, lo: nat): (ps: seq<nat>)
    requires i <= |Mountains(f)|
    ensures forall k :: 0 <= k < |ps| ==> ps[k] < NodeCount(f)
    decreases |Mountains(f)| - i
  {
    hide NodeCount, Mountains, LeftRoots;
    MountainLeaves(f, i);
    if i == |Mountains(f)| then [] else LeftRoots(Mountains(f)[i].peak, lo) + AllLeft(f, i + 1, lo)
  }

  function AllRight(f: nat, i: nat, hi: nat): (ps: seq<nat>)
    requires i <= |Mountains(f)|
    ensures forall k :: 0 <= k < |ps| ==> ps[k] < NodeCount(f)
    decreases |Mountains(f)| - i
  {
    hide NodeCount, Mountains, RightRoots;
    MountainLeaves(f, i);
    if i == |Mountains(f)| then [] else RightRoots(Mountains(f)[i].peak, hi) + AllRight(f, i + 1, hi)
  }

  /** Behind a mountain stand fewer leaves than it has itself. */
  lemma {:induction false} RestBound(f: nat, i: nat)
    requires i <= |Mountains(f)|
    ensures Start(f, i) <= f
    ensures i < |Mountains(f)| ==> f < Start(f, i) + Pow2(Mountains(f)[i].height + 1)
    ensures 0 < i ==> f < Start(f, i) + Pow2(Mountains(f)[i - 1].height)
    decreases |Mountains(f)| - i
  {
    hide NodeCount, LeafFloor, Height, FirstLeaf, Mountains;
    if i < |Mountains(f)| {
      MountainLeaves(f, i);
      MountainFacts(f, i);
      RestBound(f, i + 1);
      if i > 0 {
        Pow2Monotone(Mountains(f)[i].height + 1, Mountains(f)[i - 1].height);
      }
    }
  }

  /** The left roots from mountain `i` on are the mountains of the leaves from there to `lo`. */
  lemma {:induction false} AllLeftAreMountains(f: nat, i: nat, lo: nat, h: nat)
    requires i <= |Mountains(f)| && Start(f, i) <= lo <= f < Start(f, i) + Pow2(h)
    ensures AllLeft(f, i, lo) == Peaks(MountainsIn(lo - Start(f, i), NodeCount(Start(f, i)), h))
    decreases |Mountains(f)| - i
  {
    hide NodeCount, LeafFloor, Height, FirstLeaf, Mountains, LeftRoots, MountainsIn, Peaks, AllLeft, Start;
    AllLeftStep(f, i, lo);
    if i == |Mountains(f)| {
      StartEnd(f, i);
      NoMountains(NodeCount(f), h);
    } else {
      var m := Mountains(f)[i];
      var s, b := Start(f, i), NodeCount(Start(f, i));
      OneMountain(f, i, lo, h);
      if lo < Start(f, i + 1) {
        NothingLeftOf(f, i + 1, lo);
      } else {
        AllLeftAreMountains(f, i + 1, lo, m.height);
      }
    }
  }

  lemma StartEnd(f: nat, i: nat)
    requires i == |Mountains(f)|
    ensures Start(f, i) == f
  {
    hide Mountains;
  }

  /** One mountain's part: the mountains of the leaves before `lo`, with this one whole or cut. */
  lemma OneMountain(f: nat, i: nat, lo: nat, h: nat)
    requires i < |Mountains(f)| && Start(f, i) <= lo <= f < Start(f, i) + Pow2(h)
    ensures var m := Mountains(f)[i]; var s, b := Start(f, i), NodeCount(Start(f, i));
            var all := Peaks(MountainsIn(lo - s, b, h)); var roots := LeftRoots(m.peak, lo);
            && Start(f, i + 1) <= f < Start(f, i + 1) + Pow2(m.height)
            && if lo < Start(f, i + 1) then all == roots
               else
                 all == roots + Peaks(MountainsIn(lo - Start(f, i + 1), NodeCount(Start(f, i + 1)), m.height))
  {
    hide NodeCount, LeafFloor, Height, FirstLeaf, Mountains, LeftRoots, MountainsIn, Peaks, AllLeft, Start, Pow2;
    var m := Mountains(f)[i];
    var s, b := Start(f, i), NodeCount(Start(f, i));
    MountainSpan(f, i);
    RestBound(f, i);
    RestBound(f, i + 1);
    SameMountains(lo - s, f - s, b, m.height + 1, h);
    MountainsStep(lo - s, b, m.height + 1);
    if lo < Start(f, i + 1) {
      LeftRootsAreMountains(m.peak, lo);
    } else {
      AllLeftStep(f, i, lo);
    }
  }

  /** A mountain's leaves and nodes: where they start and what follows them. */
  lemma MountainSpan(f: nat, i: nat)
    requires i < |Mountains(f)|
    ensures var m := Mountains(f)[i];
            && Height(m.peak) == m.height && Start(f, i) == FirstLeaf(m.peak)
            && Start(f, i + 1) == Start(f, i) + Pow2(m.height) && Start(f, i + 1) == LeafFloor(m.peak) + 1
            && NodeCount(Start(f, i)) + Pow2(m.height + 1) == m.peak + 2
            && NodeCount(Start(f, i + 1)) == m.peak + 1
  {
    hide NodeCount, LeafFloor, Height, FirstLeaf, Mountains;
    MountainLeaves(f, i);
    MountainFacts(f, i);
    BaseOfPeak(f, i);
    AfterPeak(Mountains(f)[i].peak);
  }

  lemma AllLeftStep(f: nat, i: nat, lo: nat)
    requires i <= |Mountains(f)|
    ensures i == |Mountains(f)| ==> AllLeft(f, i, lo) == []
    ensures i < |Mountains(f)| ==>
              var p := Mountains(f)[i].peak;
              && AllLeft(f, i, lo) == LeftRoots(p, lo) + AllLeft(f, i + 1, lo)
              && (LeafFloor(p) < lo ==> LeftRoots(p, lo) == [p])
  {
    hide NodeCount, LeafFloor, Height, FirstLeaf, Mountains;
  }

  lemma NoMountains(b: nat, h: nat)
    ensures Peaks(MountainsIn(0, b, h)) == []
  {
    MountainsStable(0, b, 0, h);
  }

  lemma BaseOfPeak(f: nat, i: nat)
    requires i < |Mountains(f)|
    ensures NodeCount(Start(f, i)) + Pow2(Mountains(f)[i].height + 1) == Mountains(f)[i].peak + 2
  {
    hide NodeCount, Height, FirstLeaf, Mountains;
    MountainFacts(f, i);
  }

  lemma SameMountains(g: nat, f: nat, b: nat, h: nat, k: nat)
    requires g <= f < Pow2(h) && f < Pow2(k)
    ensures MountainsIn(g, b, h) == MountainsIn(g, b, k)
  {
    hide MountainsIn;
    if h <= k {
      MountainsStable(g, b, h, k);
    } else {
      MountainsStable(g, b, k, h);
    }
  }

  lemma {:induction false} NothingLeftOf(f: nat, i: nat, lo: nat)
    requires i <= |Mountains(f)| && lo <= Start(f, i)
    ensures AllLeft(f, i, lo) == []
    decreases |Mountains(f)| - i
  {
    hide NodeCount, LeafFloor, Height, FirstLeaf, Mountains;
    if i < |Mountains(f)| {
      MountainLeaves(f, i);
      Halves(Mountains(f)[i].peak);
      NothingLeftOf(f, i + 1, lo);
    }
  }

  lemma {:induction false} AllSiblingsSplit(ns: seq<Hash>, f: nat, i: nat, lo: nat, hi: nat)
    requires NodeCount(f) <= |ns| && i <= |Mountains(f)| && lo <= hi
    ensures AllSiblings(ns, f, i, lo, hi) == At(ns, AllLeft(f, i, lo)) + At(ns, AllRight(f, i, hi))
    decreases |Mountains(f)| - i
  {
    hide NodeCount, LeafFloor, Height, FirstLeaf, Mountains, Siblings, LeftRoots, RightRoots, At;
    if i == |Mountains(f)| {
      AtConcat(ns, [], []);
    } else {
      var p := Mountains(f)[i].peak;
      MountainLeaves(f, i);
      SiblingsSplit(ns, p, lo, hi);
      AllSiblingsSplit(ns, f, i + 1, lo, hi);
      AtConcat(ns, LeftRoots(p, lo), AllLeft(f, i + 1, lo));
      AtConcat(ns, RightRoots(p, hi), AllRight(f, i + 1, hi));
      if lo <= Start(f, i + 1) {
        NothingLeftOf(f, i + 1, lo);
        AtConcat(ns, [], []);
      } else {
        NothingRight(p, hi);
        AtConcat(ns, [], []);
      }
      Regroup(At(ns, LeftRoots(p, lo)), At(ns, RightRoots(p, hi)),
              At(ns, AllLeft(f, i + 1, lo)), At(ns, AllRight(f, i + 1, hi)));
    }
  }

  lemma NothingRight(pos: nat, hi: nat)
    requires LeafFloor(pos) <= hi
    ensures RightRoots(pos, hi) == []
  {
    hide NodeCount, LeafFloor, Height, FirstLeaf;
    Halves(pos);
  }

  // ---- how many right witnesses ----------------------------------------------------

  /** At most one per level of the tree the range ends in. */
  lemma {:induction false} RightBound(pos: nat, hi: nat)
    requires FirstLeaf(pos) <= hi
    ensures |RightRoots(pos, hi)| <= Height(pos)
    decreases pos
  {
    hide NodeCount, LeafFloor, Height, FirstLeaf;
    Halves(pos);
    if LeafFloor(pos) > hi {
      var l, r := pos - Pow2(Height(pos)), pos - 1;
      Halves(r);
      RightBound(l, hi);
      if hi < FirstLeaf(r) {
        assert |RightRoots(r, hi)| == 1;
        if LeafFloor(l) <= hi {
          NothingRight(l, hi);
        }
      } else {
        NothingRight(l, hi);
        RightBound(r, hi);
      }
    }
  }

  lemma {:induction false} MountainsBehind(f: nat, i: nat)
    requires i < |Mountains(f)|
    ensures |Mountains(f)| - i - 1 <= Mountains(f)[i].height
    decreases |Mountains(f)| - i
  {
    hide Mountains, NodeCount;
    if i + 1 < |Mountains(f)| {
      MountainFacts(f, i + 1);
      MountainsBehind(f, i + 1);
    }
  }

  lemma {:induction false} AllRightBehind(f: nat, i: nat, hi: nat)
    requires i <= |Mountains(f)| && hi < Start(f, i)
    ensures |AllRight(f, i, hi)| == |Mountains(f)| - i
    decreases |Mountains(f)| - i
  {
    hide NodeCount, LeafFloor, Height, FirstLeaf, Mountains;
    if i < |Mountains(f)| {
      MountainLeaves(f, i);
      AllRightBehind(f, i + 1, hi);
    }
  }

  lemma {:induction false} AllRightBound(f: nat, i: nat, hi: nat)
    requires i < |Mountains(f)| && Start(f, i) <= hi < f
    ensures |AllRight(f, i, hi)| <= 2 * Mountains(f)[i].height
    decreases |Mountains(f)| - i
  {
    hide NodeCount, LeafFloor, Height, FirstLeaf, Mountains, RightRoots;
    var p := Mountains(f)[i].peak;
    MountainLeaves(f, i);
    MountainFacts(f, i);
    if hi < Start(f, i + 1) {
      RightBound(p, hi);
      AllRightBehind(f, i + 1, hi);
      MountainsBehind(f, i);
    } else {
      NothingRight(p, hi);
      MountainFacts(f, i + 1);
      AllRightBound(f, i + 1, hi);
    }
  }

  lemma FirstHeight(f: nat)
    requires f > 0
    ensures |Mountains(f)| > 0 && Mountains(f)[0].height + 1 == BitLength(f)
  {
    hide NodeCount;
    BitLengthBounds(f);
    MountainsWithin(f, BitLength(f));
  }

  /**
    The witnesses of a range proof are the accumulator of the log before the
    range, one per one bit of `lo`, and then at most two per bit of the leaf count.
  */
  lemma WitnessShape(ls: seq<Hash>, lo: nat, hi: nat)
    requires lo <= hi < |ls|
    ensures NodeCount(|ls|) == |Nodes(ls)|
    ensures var ws := AllSiblings(Nodes(ls), |ls|, 0, lo, hi);
            && Ones(lo) <= |ws| <= Ones(lo) + 2 * BitLength(|ls|)
            && ws[..Ones(lo)] == Accumulator(ls[..lo])
  {
    hide NodeCount, LeafFloor, Height, FirstLeaf, Mountains, Nodes, At, MountainsIn, AllLeft, AllRight, AllSiblings;
    var f := |ls|;
    ForestIsMmr(ls);
    FirstHeight(f);
    MountainLeaves(f, 0);
    RestBound(f, 0);
    AllSiblingsSplit(Nodes(ls), f, 0, lo, hi);
    AllLeftOfZero(f, lo);
    EarlierAccumulator(ls, lo);
    AllRightBound(f, 0, hi);
  }

  lemma AllLeftOfZero(f: nat, lo: nat)
    requires lo <= f && f > 0
    ensures AllLeft(f, 0, lo) == PeaksOf(lo) && |PeaksOf(lo)| == Ones(lo)
  {
    hide NodeCount, LeafFloor, Height, FirstLeaf, MountainsIn, AllLeft;
    Pow2Above(f);
    Pow2Above(lo);
    MountainLeaves(f, 0);
    AllLeftAreMountains(f, 0, lo, f);
    NodeCountSplit(0, 0);
    MountainsWithin(lo, f);
    MountainCount(lo, 0, lo);
  }
}
