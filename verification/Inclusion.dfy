// The accumulator of a log, its bagged root, and inclusion proofs.

module Accumulators {
  import opened Powers
  import opened Positions
  import opened PositionSpec
  import opened Forest
  import opened Paths
  import opened Digests

  /** Peaks folded right to left into one hash. */
  function BagPeaks(ps: seq<Hash>): Hash {
    if ps == [] then ZERO_HASH
    else if |ps| == 1 then ps[0]
    else Bag(BagPeaks(ps[1..]), ps[0])
  }

  /** `root_from_peaks`: combine the two rightmost hashes until one is left. */
  method RootFromPeaks(peakHashes: seq<Hash>) returns (root: Hash)
    ensures root == BagPeaks(peakHashes)
  {
    if peakHashes == [] {
      return ZERO_HASH;
    }
    var hashes := peakHashes;
    while |hashes| > 1
      invariant hashes != [] && BagPeaks(hashes) == BagPeaks(peakHashes)
    {
      ghost var before := hashes;
      var right := hashes[|hashes| - 1];
      hashes := hashes[..|hashes| - 1];
      var left := hashes[|hashes| - 1];
      hashes := hashes[..|hashes| - 1];
      BagLastTwo(hashes, left, right);
      assert before == hashes + [left, right];
      hashes := hashes + [Bag(right, left)];
    }
    return hashes[0];
  }

  lemma {:induction false} BagLastTwo(ps: seq<Hash>, left: Hash, right: Hash)
    ensures BagPeaks(ps + [left, right]) == BagPeaks(ps + [Bag(right, left)])
  {
    if ps != [] {
      BagLastTwo(ps[1..], left, right);
      assert (ps + [left, right])[1..] == ps[1..] + [left, right];
      assert (ps + [Bag(right, left)])[1..] == ps[1..] + [Bag(right, left)];
    }
  }

  /** As many peaks, bagged to the same root, are the same peaks. */
  lemma {:induction false} BagInjective(ps: seq<Hash>, qs: seq<Hash>)
    requires |ps| == |qs| && BagPeaks(ps) == BagPeaks(qs)
    ensures ps == qs
  {
    if |ps| > 1 {
      BagInjective(ps[1..], qs[1..]);
      assert ps == [ps[0]] + ps[1..] && qs == [qs[0]] + qs[1..];
    }
  }

  /** The hashes at some positions of a node array. */
  function At(ns: seq<Hash>, ps: seq<nat>): (hs: seq<Hash>)
    requires forall i :: 0 <= i < |ps| ==> ps[i] < |ns|
    ensures |hs| == |ps|
    ensures forall i :: 0 <= i < |ps| ==> hs[i] == ns[ps[i]]
  {
    seq(|ps|, i requires 0 <= i < |ps| => ns[ps[i]])
  }

  /** Peak positions of `f` leaves. */
  function PeaksOf(f: nat): (ps: seq<nat>)
    ensures |ps| == |Mountains(f)|
    ensures forall i :: 0 <= i < |ps| ==> ps[i] == Mountains(f)[i].peak < NodeCount(f)
  {
    hide Mountains, NodeCount;
    forall i: nat | i < |Mountains(f)|
      ensures Mountains(f)[i].peak < NodeCount(f)
    {
      MountainFacts(f, i);
    }
    Peaks(Mountains(f))
  }

  /** The accumulator of a log: its peak hashes, tallest first. */
  function Accumulator(ls: seq<Hash>): (ps: seq<Hash>)
    ensures |ps| == |Mountains(|ls|)|
  {
    hide NodeCount, Mountains;
    Pow2Above(|ls|);
    ForestSize(ls, 0, |ls|);
    At(Nodes(ls), PeaksOf(|ls|))
  }

  /** The bagged root of a log over its leaf hashes. */
  function LogRoot(ls: seq<Hash>): Hash {
    BagPeaks(Accumulator(ls))
  }

  /** An earlier log's accumulator is read from a later log's array. */
  lemma EarlierAccumulator(ls: seq<Hash>, f: nat)
    requires f <= |ls|
    ensures NodeCount(f) <= |Nodes(ls)|
    ensures Accumulator(ls[..f]) == At(Nodes(ls), PeaksOf(f))
  {
    hide NodeCount, Mountains, Nodes;
    ForestPrefix(ls, f);
  }

  // ---- the mountain that contains a position --------------------------------

  /** Index of the mountain of `f` leaves that contains `pos`. */
  function Containing(f: nat, pos: nat): (i: nat)
    requires pos < NodeCount(f)
    ensures i < |Mountains(f)|
    ensures Below(Mountains(f)[i].peak, Mountains(f)[i].height, pos)
    ensures Mountains(f)[i].height == Height(Mountains(f)[i].peak)
  {
    hide NodeCount, Mountains, Height;
    SomeMountain(f);
    ContainingFrom(f, pos, 0)
  }

  lemma SomeMountain(f: nat)
    requires NodeCount(f) > 0
    ensures |Mountains(f)| > 0
  {
    hide NodeCount;
    NodeCountSplit(0, 0);
    Pow2Above(f);
    MountainsNonEmpty(f, 0, f);
  }

  function ContainingFrom(f: nat, pos: nat, from: nat): (i: nat)
    requires pos < NodeCount(f) && from < |Mountains(f)|
    requires from > 0 ==> Mountains(f)[from - 1].peak < pos
    ensures from <= i < |Mountains(f)|
    ensures Below(Mountains(f)[i].peak, Mountains(f)[i].height, pos)
    ensures Mountains(f)[i].height == Height(Mountains(f)[i].peak)
    decreases |Mountains(f)| - from
  {
    hide NodeCount, Mountains, Height;
    MountainFacts(f, from);
    if pos <= Mountains(f)[from].peak then from else ContainingFrom(f, pos, from + 1)
  }

  /** Mountains do not overlap. */
  lemma {:induction false} MountainOrder(f: nat, i: nat, j: nat)
    requires i < j < |Mountains(f)|
    ensures Mountains(f)[i].peak + Pow2(Mountains(f)[j].height + 1) <= Mountains(f)[j].peak + 1
    ensures Mountains(f)[i].height > Mountains(f)[j].height
    decreases j
  {
    hide NodeCount, Mountains;
    MountainFacts(f, j);
    if i + 1 < j {
      MountainOrder(f, i, j - 1);
    }
  }

  lemma ContainingUnique(f: nat, pos: nat, i: nat)
    requires pos < NodeCount(f) && i < |Mountains(f)|
    requires Below(Mountains(f)[i].peak, Mountains(f)[i].height, pos)
    ensures Containing(f, pos) == i
  {
    hide NodeCount, Mountains, Height;
    var c := Containing(f, pos);
    if i < c {
      MountainOrder(f, i, c);
    } else if c < i {
      MountainOrder(f, c, i);
    }
  }
}

module Inclusion {
  import opened Wrappers
  import opened Powers
  import opened Positions
  import opened Forest
  import opened Paths
  import opened Accumulators
  import opened Append
  import opened Digests
  import opened CorePositions

  /** `_find_containing_peak`: the index of the first mountain that spans `pos`, or -1. */
  method FindContainingPeak(pos: nat, pks: seq<nat>, ghost f: nat) returns (i: int)
    requires pks == PeaksOf(f)
    ensures i == if pos < NodeCount(f) then Containing(f, pos) else -1
  {
    hide NodeCount, Mountains, Height;
    for k := 0 to |pks|
      invariant k > 0 ==> pks[k - 1] < pos
    {
      MountainFacts(f, k);
      var h := HeightAt(pks[k]);
      var mSize := Pow2(h + 1) - 1;
      var start := pks[k] - mSize + 1;
      if start <= pos <= pks[k] {
        ContainingUnique(f, pos, k);
        return k;
      }
    }
    if |pks| > 0 {
      MountainFacts(f, |pks| - 1);
    } else if NodeCount(f) > 0 {
      SomeMountain(f);
    }
    return -1;
  }

  datatype InclusionProof = InclusionProof(
    v: int, kind: string, size: int, leafIndex: int,
    witnesses: seq<WireHash>, peaksLeft: seq<WireHash>, peaksRight: seq<WireHash>)

  /** Path from leaf `k` to its mountain among `f` leaves. */
  function LeafPath(f: nat, k: nat): (path: seq<PathStep>)
    requires k < f
    ensures forall step <- path :: step.sibling < NodeCount(f)
  {
    hide NodeCount, Mountains, Height, Path;
    NodeCountMonotone(k, f);
    var i := Containing(f, NodeCount(k));
    PathWithin(Mountains(f)[i].peak, NodeCount(k));
    MountainFacts(f, i);
    Path(Mountains(f)[i].peak, Mountains(f)[i].height, NodeCount(k))
  }

  /** Index of the mountain leaf `k` stands in. */
  function LeafMountain(f: nat, k: nat): (i: nat)
    requires k < f
    ensures i < |Mountains(f)|
  {
    hide NodeCount;
    NodeCountMonotone(k, f);
    Containing(f, NodeCount(k))
  }

  /** The proof an honest prover makes for leaf `k` of the first `f` leaves. */
  function HonestInclusion(ns: seq<Hash>, f: nat, k: nat): InclusionProof
    requires k < f && NodeCount(f) <= |ns|
  {
    hide NodeCount, Mountains, LeafPath, LeafMountain;
    var i := LeafMountain(f, k);
    var acc := At(ns, PeaksOf(f));
    InclusionProof(1, "inclusion", NodeCount(f), k,
                   ToWire(Siblings(ns, LeafPath(f, k))), ToWire(acc[..i]), ToWire(acc[i + 1..]))
  }

  /** What the verifier accepts. */
  ghost predicate Accepts(root: Hash, size: int, leafIndex: int, body: Hash, proof: InclusionProof) {
    && proof.v == 1 && proof.kind == "inclusion" && proof.size == size && proof.leafIndex == leafIndex
    && 0 <= size < MAX_MMR_SIZE && Complete(size)
    && var f := LeafFloor(size);
       && 0 <= leafIndex < f
       && |proof.witnesses| == |LeafPath(f, leafIndex)|
       && |proof.peaksLeft| == LeafMountain(f, leafIndex)
       && |proof.peaksRight| == |Mountains(f)| - LeafMountain(f, leafIndex) - 1
       && Parse(proof.witnesses).Some? && Parse(proof.peaksLeft).Some? && Parse(proof.peaksRight).Some?
       && BagPeaks(Parse(proof.peaksLeft).value
                   + [Fold(Leaf(body), LeafPath(f, leafIndex), Parse(proof.witnesses).value)]
                   + Parse(proof.peaksRight).value) == root
  }

  /** Whatever the root: only a complete size below 2^50, an index within it, and a proof made out for both. */
  lemma AcceptedArguments(root: Hash, size: int, leafIndex: int, body: Hash, proof: InclusionProof)
    requires Accepts(root, size, leafIndex, body, proof)
    ensures proof.v == 1 && proof.kind == "inclusion" && proof.size == size && proof.leafIndex == leafIndex
    ensures size < 0x4_0000_0000_0000 && exists f: nat :: NodeCount(f) == size && 0 <= leafIndex < f
  {
    hide NodeCount, LeafFloor, Complete, Mountains, LeafPath, LeafMountain, BagPeaks, Fold;
    CompleteIff(size);
    CompleteCount(size);
  }

  method FoldPath(start: Hash, path: seq<PathStep>, ws: seq<Hash>) returns (acc: Hash)
    requires |path| == |ws|
    ensures acc == Fold(start, path, ws)
  {
    acc := start;
    for i := 0 to |path|
      invariant acc == Fold(start, path[..i], ws[..i])
    {
      var step := path[i];
      acc := if step.targetIsRight then Interior(step.parent, ws[i], acc)
      else Interior(step.parent, acc, ws[i]);
      assert path[..i + 1][..i] == path[..i] && ws[..i + 1][..i] == ws[..i];
    }
    assert path[..|path|] == path && ws[..|ws|] == ws;
  }

  method VerifyInclusion(root: Hash, size: int, leafIndex: int, body: Hash, proof: InclusionProof)
    returns (ok: bool)
    ensures ok <==> Accepts(root, size, leafIndex, body, proof)
  {
    hide NodeCount, LeafFloor, Complete, Mountains, Height, Path, Fold, BagPeaks;
    if proof.v != 1 || proof.kind != "inclusion" {
      return false;
    }
    if proof.size != size || proof.leafIndex != leafIndex {
      return false;
    }
    if size < 0 || size >= MAX_MMR_SIZE || leafIndex < 0 {
      return false;
    }
    var lc := LeafCount(size);
    if lc.Err? || leafIndex >= lc.value {
      return false;
    }
    var f := lc.value;
    NodeCountMonotone(leafIndex, f);
    var leafPos := LeafIndexToPos(leafIndex);
    HeightClosed(leafPos.value);
    var pks := PeakPositions(size);
    var peakIdx := FindContainingPeak(leafPos.value, pks.value, f);
    if peakIdx == -1 {
      return false;
    }
    var peakPos := pks.value[peakIdx];
    var peakHeight := HeightAt(peakPos);
    RootBound(peakPos);
    var path := LocatePath(peakPos, peakHeight, leafPos.value);
    assert path == LeafPath(f, leafIndex);
    if |proof.witnesses| != |path| || |proof.peaksLeft| != peakIdx || |proof.peaksRight| != |pks.value| - peakIdx - 1 {
      return false;
    }
    var ws, peaksLeft, peaksRight := Parse(proof.witnesses), Parse(proof.peaksLeft), Parse(proof.peaksRight);
    if ws.None? || peaksLeft.None? || peaksRight.None? {
      return false;
    }
    var acc := FoldPath(Leaf(body), path, ws.value);
    var computed := RootFromPeaks(peaksLeft.value + [acc] + peaksRight.value);
    return computed == root;
  }

  method Prove(reader: NodeStore, leafIndex: int, size: int) returns (r: Result<InclusionProof, string>)
    ensures r.Ok? <==>
            && 0 <= size < MAX_MMR_SIZE && Complete(size)
            && 0 <= leafIndex < LeafFloor(size) && size <= |reader.nodes|
    ensures r.Ok? ==> NodeCount(LeafFloor(size)) <= |reader.nodes|
    ensures r.Ok? ==> r.value == HonestInclusion(reader.nodes, LeafFloor(size), leafIndex)
  {
    hide NodeCount, LeafFloor, Complete, Mountains, Height, Path;
    var lc := LeafCount(size);
    if lc.Err? {
      return Err(lc.error);
    }
    if leafIndex < 0 || leafIndex >= lc.value {
      return Err("leaf_index out of range");
    }
    if |reader.nodes| < size {
      return Err("reader size is smaller than requested size");
    }
    var f := lc.value;
    NodeCountMonotone(leafIndex, f);
    var leafPos := LeafIndexToPos(leafIndex);
    HeightClosed(leafPos.value);
    var pks := PeakPositions(size);
    var peakIdx := FindContainingPeak(leafPos.value, pks.value, f);
    var peakPos := pks.value[peakIdx];
    var peakHeight := HeightAt(peakPos);
    RootBound(peakPos);
    var path := LocatePath(peakPos, peakHeight, leafPos.value);
    assert path == LeafPath(f, leafIndex);
    var ws := ToWire(Siblings(reader.nodes, path));
    var acc := At(reader.nodes, pks.value);
    return Ok(InclusionProof(1, "inclusion", size, leafIndex, ws,
                             ToWire(acc[..peakIdx]), ToWire(acc[peakIdx + 1..])));
  }

  /**
    Exactness: against the root of a log at its size the verifier accepts
    exactly one body, the one at that index, with exactly one proof, the honest one.
  */
  lemma InclusionExact(bodies: seq<Hash>, k: nat, body: Hash, proof: InclusionProof)
    requires k < |bodies| && NodeCount(|bodies|) < MAX_MMR_SIZE
    ensures NodeCount(|bodies|) <= |Nodes(LeafHashes(bodies))|
    ensures Accepts(LogRoot(LeafHashes(bodies)), NodeCount(|bodies|), k, body, proof) <==>
            && body == bodies[k]
            && proof == HonestInclusion(Nodes(LeafHashes(bodies)), |bodies|, k)
  {
    hide NodeCount, LeafFloor, Mountains, Height, Path, Fold, BagPeaks, Nodes, LeafPath, LeafMountain, Linked,
      Siblings, At, PeaksOf;
    var ls := LeafHashes(bodies);
    var ns := Nodes(ls);
    var f := |bodies|;
    LeafFloorOfCount(f);
    ForestIsMmr(ls);
    var i := LeafMountain(f, k);
    var path := LeafPath(f, k);
    var acc := Accumulator(ls);
    LeafFoldExact(ls, k, body, proof.witnesses);
    if |proof.witnesses| == |path| && Parse(proof.witnesses).Some?
       && FitsPeaks(acc, i, proof.peaksLeft, proof.peaksRight) {
      PeaksExact(acc, i, proof.peaksLeft, Fold(Leaf(body), path, Parse(proof.witnesses).value), proof.peaksRight);
    } else {
      WireRoundTrip(ToWire(Siblings(ns, path)), Siblings(ns, path));
      WirePeaksFit(acc, i);
    }
  }

  predicate FitsPeaks(acc: seq<Hash>, i: nat, left: seq<WireHash>, right: seq<WireHash>) {
    i < |acc| && |left| == i && |right| == |acc| - i - 1 && Parse(left).Some? && Parse(right).Some?
  }

  lemma WirePeaksFit(acc: seq<Hash>, i: nat)
    requires i < |acc|
    ensures FitsPeaks(acc, i, ToWire(acc[..i]), ToWire(acc[i + 1..]))
  {
    WireRoundTrip(ToWire(acc[..i]), acc[..i]);
    WireRoundTrip(ToWire(acc[i + 1..]), acc[i + 1..]);
  }

  /** As many peaks bag to the same root only if they are the same peaks. */
  lemma PeaksExact(acc: seq<Hash>, i: nat, left: seq<WireHash>, top: Hash, right: seq<WireHash>)
    requires FitsPeaks(acc, i, left, right)
    ensures BagPeaks(Parse(left).value + [top] + Parse(right).value) == BagPeaks(acc) <==>
            left == ToWire(acc[..i]) && top == acc[i] && right == ToWire(acc[i + 1..])
  {
    hide BagPeaks, Parse, ToWire;
    var all := Parse(left).value + [top] + Parse(right).value;
    WireRoundTrip(left, acc[..i]);
    WireRoundTrip(right, acc[i + 1..]);
    ParsedLength(left);
    ParsedLength(right);
    SplitAt(all, acc, Parse(left).value, top, Parse(right).value);
    if BagPeaks(all) == BagPeaks(acc) {
      BagInjective(all, acc);
    }
  }

  lemma ParsedLength(ws: seq<WireHash>)
    requires Parse(ws).Some?
    ensures |Parse(ws).value| == |ws|
  {
  }

  lemma SplitAt(all: seq<Hash>, acc: seq<Hash>, left: seq<Hash>, top: Hash, right: seq<Hash>)
    requires all == left + [top] + right && |all| == |acc|
    ensures all == acc <==> left == acc[..|left|] && top == acc[|left|] && right == acc[|left| + 1..]
  {
    assert acc == acc[..|left|] + [acc[|left|]] + acc[|left| + 1..];
    assert all[..|left|] == left && all[|left| + 1..] == right;
  }

  /** Only the true body and the true siblings fold to the leaf's peak. */
  lemma LeafFoldExact(ls: seq<Hash>, k: nat, body: Hash, wire: seq<WireHash>)
    requires k < |ls| && ls[k].Leaf?
    ensures IsMmr(Nodes(ls), ls)
    ensures |wire| == |LeafPath(|ls|, k)| && Parse(wire).Some? ==>
              (Fold(Leaf(body), LeafPath(|ls|, k), Parse(wire).value) == Accumulator(ls)[LeafMountain(|ls|, k)]
               <==> body == ls[k].body && wire == ToWire(Siblings(Nodes(ls), LeafPath(|ls|, k))))
  {
    hide NodeCount, LeafFloor, Mountains, Height, Path, Fold, Nodes;
    ForestIsMmr(ls);
    if |wire| == |LeafPath(|ls|, k)| && Parse(wire).Some? {
      var f := |ls|;
      var m := Mountains(f)[LeafMountain(f, k)];
      NodeCountMonotone(k, f);
      MountainFacts(f, LeafMountain(f, k));
      RootBound(m.peak);
      FoldExact(Nodes(ls), m.peak, NodeCount(k), Leaf(body), Parse(wire).value);
      WireRoundTrip(wire, Siblings(Nodes(ls), LeafPath(f, k)));
    }
  }

  /** A proof read from a grown array is the one read at its own size: nodes are write-once. */
  lemma HonestFromGrown(bodies: seq<Hash>, f: nat, k: nat)
    requires k < f <= |bodies|
    ensures NodeCount(f) == |Nodes(LeafHashes(bodies[..f]))| <= |Nodes(LeafHashes(bodies))|
    ensures HonestInclusion(Nodes(LeafHashes(bodies)), f, k) == HonestInclusion(Nodes(LeafHashes(bodies[..f])), f, k)
  {
    hide NodeCount, Mountains, LeafPath, LeafMountain, Nodes;
    var ls := LeafHashes(bodies);
    assert LeafHashes(bodies[..f]) == ls[..f];
    ForestPrefix(ls, f);
    ForestIsMmr(ls[..f]);
  }

  /**
    Exactness at every earlier size: against the root of a log's first `f`
    entries the verifier accepts exactly one body at an index, with exactly the
    proof that is read from the array however far it has grown since.
  */
  lemma InclusionExactAt(bodies: seq<Hash>, f: nat, k: nat, body: Hash, proof: InclusionProof)
    requires k < f <= |bodies| && NodeCount(f) < MAX_MMR_SIZE
    ensures NodeCount(f) <= |Nodes(LeafHashes(bodies))|
    ensures Accepts(LogRoot(LeafHashes(bodies[..f])), NodeCount(f), k, body, proof) <==>
            && body == bodies[k]
            && proof == HonestInclusion(Nodes(LeafHashes(bodies)), f, k)
  {
    hide NodeCount, HonestInclusion, Accepts, LogRoot, Nodes;
    HonestFromGrown(bodies, f, k);
    InclusionExact(bodies[..f], k, body, proof);
  }

  /** What `Prove` returns over a log's array, at any size it accepts, verifies against that size's root. */
  lemma ProvedIsAccepted(bodies: seq<Hash>, size: nat, k: nat)
    requires size < MAX_MMR_SIZE && Complete(size) && k < LeafFloor(size) && size <= |Nodes(LeafHashes(bodies))|
    ensures LeafFloor(size) <= |bodies| && NodeCount(LeafFloor(size)) <= |Nodes(LeafHashes(bodies))|
    ensures Accepts(LogRoot(LeafHashes(bodies[..LeafFloor(size)])), size, k, bodies[k],
                    HonestInclusion(Nodes(LeafHashes(bodies)), LeafFloor(size), k))
  {
    hide NodeCount, LeafFloor, HonestInclusion, Accepts, LogRoot, Nodes;
    FloorWithin(LeafHashes(bodies), size);
    InclusionExactAt(bodies, LeafFloor(size), k, bodies[k],
                     HonestInclusion(Nodes(LeafHashes(bodies)), LeafFloor(size), k));
  }

  /** A complete size within a log's array is the size of one of its prefixes. */
  lemma FloorWithin(ls: seq<Hash>, size: nat)
    requires Complete(size) && size <= |Nodes(ls)|
    ensures LeafFloor(size) <= |ls| && NodeCount(LeafFloor(size)) == size
  {
    hide NodeCount, LeafFloor, Nodes;
    ForestIsMmr(ls);
    if |ls| < LeafFloor(size) {
      NodeCountMonotone(|ls|, LeafFloor(size));
    }
  }
}
