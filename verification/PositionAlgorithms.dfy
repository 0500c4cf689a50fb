// The position arithmetic of the repository's three implementations, each loop
// proved against the tree definitions of `Positions`.

/** What the algorithms have in common. */
module PositionSpec {
  import opened Powers
  import opened Positions

  /** The peak positions of a list of mountains, left to right. */
  function Peaks(ms: seq<Mountain>): (ps: seq<nat>)
    ensures |ps| == |ms|
    ensures forall i :: 0 <= i < |ms| ==> ps[i] == ms[i].peak
  {
    seq(|ms|, i requires 0 <= i < |ms| => ms[i].peak)
  }

  /** Leaves under a list of mountains. */
  function LeavesUnder(ms: seq<Mountain>): nat {
    if ms == [] then 0 else Pow2(ms[0].height) + LeavesUnder(ms[1..])
  }

  lemma {:induction false} LeavesUnderMountains(f: nat, b: nat, h: nat)
    requires f < Pow2(h)
    ensures LeavesUnder(MountainsIn(f, b, h)) == f
  {
    if h > 0 {
      if f < Pow2(h - 1) {
        LeavesUnderMountains(f, b, h - 1);
      } else {
        LeavesUnderMountains(f - Pow2(h - 1), b + Pow2(h) - 1, h - 1);
      }
    }
  }

  /** A complete size's greedy mountains are the one bits of its leaf count. */
  lemma GreedyOfComplete(n: nat)
    requires Complete(n)
    ensures Greedy(n, 0) == Mountains(LeafFloor(n))
    ensures LeavesUnder(Greedy(n, 0)) == LeafFloor(n)
    ensures |Greedy(n, 0)| == Ones(LeafFloor(n))
  {
    hide NodeCount, LeafFloor;
    var f := LeafFloor(n);
    Pow2Above(f);
    GreedyIsMountains(f, 0, f);
    LeavesUnderMountains(f, 0, f);
    MountainCount(f, 0, f);
  }

  lemma NothingLeft(b: nat)
    ensures Complete(0) && LeafFloor(0) == 0 && NodeCount(0) == 0
    ensures Peaks(Greedy(0, b)) == []
  {
  }

  /** One greedy step, seen on the peak positions. */
  lemma GreedyPeak(s: nat, b: nat, h: nat)
    requires Pow2(h + 1) - 1 <= s < Pow2(h + 2) - 1
    ensures s > 0 && TopHeight(s) == h
    ensures var m := Pow2(h + 1) - 1;
            Peaks(Greedy(s, b)) == [b + m - 1] + Peaks(Greedy(s - m, b + m))
  {
    hide TopHeight;
    TopHeightUnique(s, h);
  }
}

module CorePositions {
  import opened Wrappers
  import opened Powers
  import opened Positions
  import opened PositionSpec

  const MAX_MMR_SIZE: nat := 0x4_0000_0000_0000  // 2^50

  method HeightAt(pos: nat) returns (h: nat)
    ensures h == Height(pos)
  {
    var pos1 := pos + 1;
    h := 0;
    while Pow2(h + 1) - 1 < pos1
      invariant h <= pos
      decreases pos1 - h
    {
      Pow2Above(h + 1);
      h := h + 1;
    }
    HeightWithin(pos, h);
    while h > 0
      invariant 1 <= pos1 < Pow2(h + 1)
      invariant HeightIn(pos1 - 1, h) == Height(pos)
    {
      var size := Pow2(h + 1) - 1;
      if pos1 == size {
        return h;
      }
      var leftSize := Pow2(h) - 1;
      if pos1 > leftSize {
        pos1 := pos1 - leftSize;
      }
      h := h - 1;
    }
    return 0;
  }

  method PeakPositions(size: int) returns (r: Result<seq<nat>, string>)
    ensures r.Ok? <==> 0 <= size < MAX_MMR_SIZE && Complete(size)
    ensures r.Ok? ==> r.value == Peaks(Mountains(LeafFloor(size)))
  {
    hide NodeCount, LeafFloor, TopHeight, Complete, Mountains, Greedy, Peaks;
    if size < 0 || size >= MAX_MMR_SIZE {
      return Err("invalid MMR size");
    }
    var result: seq<nat> := [];
    var remaining: nat := size;
    var offset: nat := 0;
    var prevHeight: Option<nat> := None;
    while remaining > 0
      invariant Complete(size) <==>
                Complete(remaining) && (prevHeight.Some? ==> remaining < Pow2(prevHeight.value + 1) - 1)
      invariant Peaks(Greedy(size, 0)) == result + Peaks(Greedy(remaining, offset))
    {
      var h := 0;
      while Pow2(h + 2) - 1 <= remaining
        invariant Pow2(h + 1) - 1 <= remaining
        decreases remaining - h
      {
        Pow2Above(h + 1);
        h := h + 1;
      }
      GreedyPeak(remaining, offset, h);
      if prevHeight.Some? && h >= prevHeight.value {
        Pow2Monotone(prevHeight.value + 1, h + 1);
        return Err("invalid MMR size (not a valid node count)");
      }
      CompleteStep(remaining);
      var mSize := Pow2(h + 1) - 1;
      if prevHeight.Some? {
        Pow2Monotone(h + 2, prevHeight.value + 1);
      }
      offset := offset + mSize;
      result := result + [offset - 1];
      remaining := remaining - mSize;
      prevHeight := Some(h);
    }
    NothingLeft(offset);
    GreedyOfComplete(size);
    return Ok(result);
  }

  method LeafCount(size: int) returns (r: Result<nat, string>)
    ensures r.Ok? <==> 0 <= size < MAX_MMR_SIZE && Complete(size)
    ensures r.Ok? ==> r.value == LeafFloor(size) && NodeCount(r.value) == size
  {
    hide NodeCount, LeafFloor, Height, Mountains;
    var pks := PeakPositions(size);
    if pks.Err? {
      return Err(pks.error);
    }
    ghost var ms := Mountains(LeafFloor(size));
    GreedyOfComplete(size);
    var sum := 0;
    for i := 0 to |pks.value|
      invariant sum + LeavesUnder(ms[i..]) == LeafFloor(size)
    {
      MountainFacts(LeafFloor(size), i);
      var h := HeightAt(pks.value[i]);
      sum := sum + Pow2(h);
    }
    return Ok(sum);
  }

  method LeafIndexToPos(leafIndex: nat) returns (r: Result<nat, string>)
    ensures r.Ok? <==> NodeCount(leafIndex) < MAX_MMR_SIZE
    ensures r.Ok? ==> Height(r.value) == 0 && LeafFloor(r.value) == leafIndex
  {
    hide LeafFloor, Height;
    var pos := NodeCount(leafIndex);
    if pos >= MAX_MMR_SIZE {
      return Err("leaf_index too large");
    }
    LeafFloorOfCount(leafIndex);
    HeightClosed(pos);
    return Ok(pos);
  }

  method PosToLeafIndex(pos: nat) returns (r: Result<nat, string>)
    ensures r.Ok? <==> Height(pos) == 0 && pos < MAX_MMR_SIZE
    ensures r.Ok? ==> NodeCount(r.value) == pos
  {
    hide NodeCount, LeafFloor, Height;
    var h := HeightAt(pos);
    if h != 0 {
      return Err("position is not a leaf");
    }
    CompleteIffLeafNext(pos);
    r := LeafCount(pos);
  }
}

/** `mmr_leaf_count` of the shared engine. */
module EnginePositions {
  import opened Wrappers
  import opened Powers
  import opened Positions
  import opened PositionSpec

  method MmrLeafCount(size: nat) returns (r: Option<nat>)
    ensures r.Some? <==> Complete(size)
    ensures r.Some? ==> NodeCount(r.value) == size
  {
    hide NodeCount, LeafFloor, TopHeight, Complete;
    var leaves := 0;
    var remaining: nat := size;
    var previous: Option<nat> := None;
    while remaining > 0
      invariant Complete(size) <==>
                Complete(remaining) && (previous.Some? ==> remaining < Pow2(previous.value + 1) - 1)
      invariant Complete(size) ==> LeafFloor(size) == leaves + LeafFloor(remaining)
    {
      BitLengthBounds(remaining + 1);
      Pow2Order(1, BitLength(remaining + 1));
      var height := BitLength(remaining + 1) - 2;
      TopHeightUnique(remaining, height);
      if previous.Some? && height >= previous.value {
        Pow2Monotone(previous.value + 1, height + 1);
        return None;
      }
      CompleteStep(remaining);
      if previous.Some? {
        Pow2Monotone(height + 2, previous.value + 1);
      }
      remaining := remaining - (Pow2(height + 1) - 1);
      leaves := leaves + Pow2(height);
      previous := Some(height);
    }
    NothingLeft(0);
    CompleteCount(size);
    return Some(leaves);
  }
}

/** The bit-trick versions of the MMR profile's text. */
module ProfilePositions {
  import opened Powers
  import opened Positions
  import opened PositionSpec

  function MostSigBit(x: nat): nat
    requires x > 0
  {
    BitLengthBounds(x);
    Pow2(BitLength(x) - 1)
  }

  predicate AllOnes(x: nat)
    requires x > 0
  {
    x == 2 * MostSigBit(x) - 1
  }

  method IndexHeight(i: nat) returns (h: nat)
    ensures h == Height(i)
  {
    hide Height, HeightIn;
    var pos: nat := i + 1;
    while !AllOnes(pos)
      invariant pos >= 1 && Height(pos - 1) == Height(i)
      decreases pos
    {
      JumpLeft(pos);
      pos := pos - MostSigBit(pos) + 1;
    }
    JumpLeft(pos);
    return BitLength(pos) - 1;
  }

  /** The same height is found at the same place of the left sibling. */
  lemma JumpLeft(pos: nat)
    requires pos > 0
    ensures BitLength(pos) > 0
    ensures AllOnes(pos) ==> Height(pos - 1) == BitLength(pos) - 1
    ensures !AllOnes(pos) ==> 1 < MostSigBit(pos) <= pos && Height(pos - MostSigBit(pos)) == Height(pos - 1)
  {
    hide Height;
    BitLengthBounds(pos);
    var k := BitLength(pos) - 1;
    HeightWithin(pos - 1, k);
    if !AllOnes(pos) {
      HeightWithin(pos - Pow2(k), k - 1);
    }
  }

  method PeakPositions(i: int) returns (ps: seq<nat>)
    requires i >= -1
    ensures ps == Peaks(Greedy(i + 1, 0))
    ensures Complete(i + 1) ==> ps == Peaks(Mountains(LeafFloor(i + 1)))
  {
    hide NodeCount, LeafFloor, TopHeight, Complete, Mountains, Greedy, Peaks;
    var peak: nat := 0;
    ps := [];
    var s: nat := i + 1;
    while s != 0
      invariant Peaks(Greedy(i + 1, 0)) == ps + Peaks(Greedy(s, peak))
    {
      BitLengthBounds(s + 1);
      Pow2Order(1, BitLength(s + 1));
      var log2floor := BitLength(s + 1) - 1;
      var highestSize := Pow2(log2floor) - 1;
      GreedyPeak(s, peak, log2floor - 1);
      peak := peak + highestSize;
      ps := ps + [peak - 1];
      s := s - highestSize;
    }
    NothingLeft(peak);
    if Complete(i + 1) {
      GreedyOfComplete(i + 1);
    }
  }

  /** Leaves of the largest complete MMR of at most `i + 1` nodes. */
  method LeafCount(i: nat) returns (peakmap: nat)
    ensures peakmap == LeafFloor(i + 1)
  {
    hide NodeCount, LeafFloor, ShiftLeft;
    var s: nat := i + 1;
    BitLengthBounds(s);
    ghost var k: nat := BitLength(s);
    var peaksize := Pow2(BitLength(s)) - 1;
    FloorBound(s, k);
    peakmap := 0;
    ShiftLeftStep(0, k);
    while peaksize > 0
      invariant peaksize == Pow2(k) - 1
      invariant LeafFloor(i + 1) == ShiftLeft(peakmap, k) + MinFloor(s, k)
    {
      k := k - 1;
      FloorStep(s, k);
      ShiftLeftStep(peakmap, k);
      peakmap := peakmap * 2;
      if s >= peaksize {
        s := s - peaksize;
        peakmap := peakmap + 1;
      }
      peaksize := peaksize / 2;
    }
    Pow2Above(k);
    ShiftLeftStep(peakmap, 0);
  }

  /** What `k` bits can hold of the leaves that fit in `s` nodes. */
  function MinFloor(s: nat, k: nat): nat {
    if LeafFloor(s) < Pow2(k) then LeafFloor(s) else Pow2(k) - 1
  }

  lemma FloorBound(s: nat, k: nat)
    requires s < Pow2(k)
    ensures MinFloor(s, k) == LeafFloor(s)
  {
    hide LeafFloor;
  }

  lemma FloorStep(s: nat, k: nat)
    ensures MinFloor(s, k + 1) ==
            if s >= Pow2(k + 1) - 1 then Pow2(k) + MinFloor(s - (Pow2(k + 1) - 1), k)
            else MinFloor(s, k)
  {
    hide NodeCount, LeafFloor;
    NodeCountSplit(k, 0);
    NodeCountSplit(k + 1, 0);
    var m := Pow2(k + 1) - 1;
    var f := LeafFloor(s);
    if s < m {
      if f >= Pow2(k) {
        NodeCountMonotone(Pow2(k), f);
      }
    } else {
      if f < Pow2(k) {
        NodeCountMonotone(f + 1, Pow2(k));
      }
      var t := s - m;
      var g := LeafFloor(t);
      if f >= Pow2(k + 1) {
        NodeCountMonotone(Pow2(k + 1), f);
        if g < Pow2(k) {
          NodeCountMonotone(g + 1, Pow2(k));
        }
      } else {
        NodeCountSplit(k, f - Pow2(k));
        if f + 1 < Pow2(k + 1) {
          NodeCountSplit(k, f - Pow2(k) + 1);
          LeafFloorUnique(t, f - Pow2(k));
        } else if g < f - Pow2(k) {
          NodeCountMonotone(g + 1, f - Pow2(k));
        }
      }
    }
  }

  method IsComplete(size: nat) returns (r: bool)
    ensures r == Complete(size)
  {
    hide Height, LeafFloor, NodeCount;
    if size == 0 {
      NothingLeft(0);
      return true;
    }
    var h := IndexHeight(size);
    CompleteIffLeafNext(size);
    return h == 0;
  }
}
