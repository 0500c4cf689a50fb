// Consistency proofs: a later log extends an earlier one.

module Consistency {
  import opened Wrappers
  import opened Positions
  import opened Forest
  import opened Paths
  import opened Accumulators
  import opened Append
  import opened Digests
  import opened CorePositions
  import opened Inclusion

  datatype ConsistencyProof = ConsistencyProof(
    v: int, kind: string, sizeA: int, sizeB: int,
    oldPeaks: seq<WireHash>, witnesses: seq<seq<WireHash>>, newPeaks: seq<WireHash>)

  /** The mountain of `fb` leaves that old peak `i` of `fa` leaves went into. */
  function NewMountain(fa: nat, fb: nat, i: nat): (c: nat)
    requires fa <= fb && i < |Mountains(fa)|
    ensures c < |Mountains(fb)|
  {
    hide NodeCount, Mountains;
    MountainFacts(fa, i);
    NodeCountMonotone(fa, fb);
    Containing(fb, Mountains(fa)[i].peak)
  }

  /** The path from old peak `i` up to its new mountain's root. */
  function PeakPath(fa: nat, fb: nat, i: nat): (path: seq<PathStep>)
    requires fa <= fb && i < |Mountains(fa)|
    ensures forall step <- path :: step.sibling < NodeCount(fb)
  {
    hide NodeCount, Mountains, Height, Path;
    MountainFacts(fa, i);
    NodeCountMonotone(fa, fb);
    var m := Mountains(fb)[NewMountain(fa, fb, i)];
    MountainFacts(fb, NewMountain(fa, fb, i));
    PathWithin(m.peak, Mountains(fa)[i].peak);
    Path(m.peak, m.height, Mountains(fa)[i].peak)
  }

  /** Old peak `i` folds along its witnesses into its new peak. */
  ghost predicate PeakProven(fa: nat, fb: nat, i: nat, old_: Hash, ws: seq<Hash>, new_: seq<Hash>)
    requires fa <= fb && i < |Mountains(fa)| && |new_| == |Mountains(fb)|
  {
    && |ws| == |PeakPath(fa, fb, i)|
    && Fold(old_, PeakPath(fa, fb, i), ws) == new_[NewMountain(fa, fb, i)]
  }

  /** Every old peak of `fa` leaves is proven into the new peaks of `fb` leaves. */
  ghost predicate PeaksProven(fa: nat, fb: nat, old_: seq<Hash>, ws: seq<seq<Hash>>, new_: seq<Hash>)
    requires fa <= fb
  {
    && |old_| == |Mountains(fa)| && |ws| == |Mountains(fa)| && |new_| == |Mountains(fb)|
    && forall i: nat | i < |old_| :: PeakProven(fa, fb, i, old_[i], ws[i], new_)
  }

  function ParseAll(wss: seq<seq<WireHash>>): (r: Option<seq<seq<Hash>>>)
    ensures r.Some? <==> forall i :: 0 <= i < |wss| ==> Parse(wss[i]).Some?
    ensures r.Some? ==> |r.value| == |wss| && forall i :: 0 <= i < |wss| ==> Parse(wss[i]) == Some(r.value[i])
  {
    if wss == [] then Some([])
    else
      match (Parse(wss[0]), ParseAll(wss[1..]))
      case (Some(h), Some(rest)) => Some([h] + rest)
      case _ => None
  }

  /** What the verifier accepts. */
  ghost predicate Accepts(rootA: Hash, sizeA: int, rootB: Hash, sizeB: int, proof: ConsistencyProof) {
    && proof.v == 1 && proof.kind == "consistency" && proof.sizeA == sizeA && proof.sizeB == sizeB
    && 0 <= sizeA <= sizeB < MAX_MMR_SIZE && Complete(sizeA) && Complete(sizeB)
    && LeafFloor(sizeA) <= LeafFloor(sizeB)
    && Parse(proof.oldPeaks).Some? && Parse(proof.newPeaks).Some? && ParseAll(proof.witnesses).Some?
    && BagPeaks(Parse(proof.oldPeaks).value) == rootA
    && BagPeaks(Parse(proof.newPeaks).value) == rootB
    && PeaksProven(LeafFloor(sizeA), LeafFloor(sizeB),
                   Parse(proof.oldPeaks).value, ParseAll(proof.witnesses).value, Parse(proof.newPeaks).value)
  }

  /** Sizes and leaf counts are ordered alike. */
  lemma FloorOrder(sizeA: nat, sizeB: nat)
    requires Complete(sizeA) && Complete(sizeB)
    ensures sizeA <= sizeB <==> LeafFloor(sizeA) <= LeafFloor(sizeB)
  {
    hide NodeCount, LeafFloor;
    if LeafFloor(sizeA) <= LeafFloor(sizeB) {
      NodeCountMonotone(LeafFloor(sizeA), LeafFloor(sizeB));
    } else {
      NodeCountMonotone(LeafFloor(sizeB), LeafFloor(sizeA));
    }
  }

  method LocatePeakPath(ghost fa: nat, ghost fb: nat, ghost i: nat, p: nat, newPeaks: seq<nat>)
    returns (containing: nat, path: seq<PathStep>)
    requires fa <= fb && i < |Mountains(fa)| && p == Mountains(fa)[i].peak && newPeaks == PeaksOf(fb)
    ensures containing == NewMountain(fa, fb, i) && path == PeakPath(fa, fb, i)
  {
    hide NodeCount, Mountains, Height, Path;
    MountainFacts(fa, i);
    NodeCountMonotone(fa, fb);
    var c := FindContainingPeak(p, newPeaks, fb);
    var newHeight := HeightAt(newPeaks[c]);
    RootBound(newPeaks[c]);
    path := LocatePath(newPeaks[c], newHeight, p);
    return c, path;
  }

  /**
    Whatever the roots: only complete sizes below 2^50, the first not above the second, and a proof
    made out for both.
  */
  lemma AcceptedArguments(rootA: Hash, sizeA: int, rootB: Hash, sizeB: int, proof: ConsistencyProof)
    requires Accepts(rootA, sizeA, rootB, sizeB, proof)
    ensures proof.v == 1 && proof.kind == "consistency" && proof.sizeA == sizeA && proof.sizeB == sizeB
    ensures sizeB < 0x4_0000_0000_0000
    ensures exists f: nat, g: nat :: NodeCount(f) == sizeA && NodeCount(g) == sizeB && f <= g
  {
    hide NodeCount, LeafFloor, Complete, BagPeaks, PeaksProven, Parse, ParseAll;
    CompleteCount(sizeA);
    CompleteCount(sizeB);
    assert NodeCount(LeafFloor(sizeA)) == sizeA && NodeCount(LeafFloor(sizeB)) == sizeB;
  }

  method VerifyConsistency(rootA: Hash, sizeA: int, rootB: Hash, sizeB: int, proof: ConsistencyProof)
    returns (ok: bool)
    ensures ok <==> Accepts(rootA, sizeA, rootB, sizeB, proof)
  {
    hide NodeCount, LeafFloor, Complete, Mountains, BagPeaks, PeakProven, Parse, ParseAll;
    if proof.v != 1 || proof.kind != "consistency" {
      return false;
    }
    if proof.sizeA != sizeA || proof.sizeB != sizeB || sizeA < 0 || sizeB < sizeA {
      return false;
    }
    var oldPositions := PeakPositions(sizeA);
    var newPositions := PeakPositions(sizeB);
    if oldPositions.Err? || newPositions.Err? {
      return false;
    }
    FloorOrder(sizeA, sizeB);
    ghost var fa, fb := LeafFloor(sizeA), LeafFloor(sizeB);
    if || |proof.oldPeaks| != |oldPositions.value|
       || |proof.newPeaks| != |newPositions.value|
       || |proof.witnesses| != |oldPositions.value| {
      return false;
    }
    var oldPeaks, newPeaks := Parse(proof.oldPeaks), Parse(proof.newPeaks);
    if oldPeaks.None? || newPeaks.None? {
      return false;
    }
    var computedRootA := RootFromPeaks(oldPeaks.value);
    if computedRootA != rootA {
      return false;
    }
    var computedRootB := RootFromPeaks(newPeaks.value);
    if computedRootB != rootB {
      return false;
    }
    ok := CheckPeaks(fa, fb, oldPositions.value, newPositions.value,
                     oldPeaks.value, proof.witnesses, newPeaks.value);
  }

  /** The verifier's loop: every old peak must fold into the new peak that contains it. */
  method CheckPeaks(ghost fa: nat, ghost fb: nat, oldPositions: seq<nat>, newPositions: seq<nat>,
                    oldPeaks: seq<Hash>, witnesses: seq<seq<WireHash>>, newPeaks: seq<Hash>)
    returns (ok: bool)
    requires fa <= fb && oldPositions == PeaksOf(fa) && newPositions == PeaksOf(fb)
    requires |oldPeaks| == |oldPositions| == |witnesses| && |newPeaks| == |newPositions|
    ensures ok <==> ParseAll(witnesses).Some? && PeaksProven(fa, fb, oldPeaks, ParseAll(witnesses).value, newPeaks)
  {
    hide NodeCount, Mountains, Fold, NewMountain, PeakPath, Parse, ParseAll;
    for i := 0 to |oldPositions|
      invariant forall j: nat | j < i ::
          Parse(witnesses[j]).Some? && PeakProven(fa, fb, j, oldPeaks[j], Parse(witnesses[j]).value, newPeaks)
    {
      var containing, path := LocatePeakPath(fa, fb, i, oldPositions[i], newPositions);
      var ws := Parse(witnesses[i]);
      if |witnesses[i]| != |path| || ws.None? {
        return false;
      }
      var acc := FoldPath(oldPeaks[i], path, ws.value);
      if acc != newPeaks[containing] {
        assert !PeakProven(fa, fb, i, oldPeaks[i], Parse(witnesses[i]).value, newPeaks);
        return false;
      }
    }
    return true;
  }

  // ---- proving ----------------------------------------------------------------

  function ToWireAll(hss: seq<seq<Hash>>): (wss: seq<seq<WireHash>>)
    ensures |wss| == |hss|
    ensures forall i :: 0 <= i < |hss| ==> wss[i] == ToWire(hss[i])
  {
    seq(|hss|, i requires 0 <= i < |hss| => ToWire(hss[i]))
  }

  lemma WireRoundTripAll(wss: seq<seq<WireHash>>, hss: seq<seq<Hash>>)
    ensures ParseAll(wss) == Some(hss) <==> wss == ToWireAll(hss)
  {
    forall i | 0 <= i < |wss| && i < |hss|
      ensures Parse(wss[i]) == Some(hss[i]) <==> wss[i] == ToWire(hss[i])
    {
      WireRoundTrip(wss[i], hss[i]);
    }
    if wss == ToWireAll(hss) {
      assert ParseAll(wss).value == hss;
    }
  }

  /** The siblings on every old peak's path. */
  function HonestWitness(ns: seq<Hash>, fa: nat, fb: nat): (ws: seq<seq<Hash>>)
    requires fa <= fb && NodeCount(fb) <= |ns|
    ensures |ws| == |Mountains(fa)|
    ensures forall i: nat :: i < |ws| ==> ws[i] == Siblings(ns, PeakPath(fa, fb, i))
  {
    seq(|Mountains(fa)|, i requires 0 <= i < |Mountains(fa)| => Siblings(ns, PeakPath(fa, fb, i)))
  }

  function HonestConsistency(ns: seq<Hash>, fa: nat, fb: nat): ConsistencyProof
    requires fa <= fb && NodeCount(fb) <= |ns|
  {
    hide NodeCount;
    NodeCountMonotone(fa, fb);
    ConsistencyProof(1, "consistency", NodeCount(fa), NodeCount(fb),
                     ToWire(At(ns, PeaksOf(fa))), ToWireAll(HonestWitness(ns, fa, fb)), ToWire(At(ns, PeaksOf(fb))))
  }

  method ProveConsistency(reader: NodeStore, sizeA: int, sizeB: int) returns (r: Result<ConsistencyProof, string>)
    ensures r.Ok? <==>
            0 <= sizeA <= sizeB < MAX_MMR_SIZE && Complete(sizeA) && Complete(sizeB) && sizeB <= |reader.nodes|
    ensures r.Ok? ==> LeafFloor(sizeA) <= LeafFloor(sizeB) && NodeCount(LeafFloor(sizeB)) <= |reader.nodes|
    ensures r.Ok? ==> r.value == HonestConsistency(reader.nodes, LeafFloor(sizeA), LeafFloor(sizeB))
  {
    hide NodeCount, LeafFloor, Complete, Mountains, Height, Path, NewMountain, PeakPath;
    if sizeA < 0 || sizeB < sizeA {
      return Err("invalid size");
    }
    if |reader.nodes| < sizeB {
      return Err("reader size is smaller than requested size_b");
    }
    var oldPositions := PeakPositions(sizeA);
    var newPositions := PeakPositions(sizeB);
    if oldPositions.Err? || newPositions.Err? {
      return Err("invalid MMR size");
    }
    FloorOrder(sizeA, sizeB);
    CompleteCount(sizeA);
    CompleteCount(sizeB);
    ghost var fa, fb := LeafFloor(sizeA), LeafFloor(sizeB);
    assert newPositions.value == PeaksOf(fb);
    var oldPeaks: seq<WireHash> := [];
    var witnesses: seq<seq<WireHash>> := [];
    ghost var old_ := ToWire(At(reader.nodes, PeaksOf(fa)));
    ghost var ws := ToWireAll(HonestWitness(reader.nodes, fa, fb));
    for i := 0 to |oldPositions.value|
      invariant oldPeaks == old_[..i] && witnesses == ws[..i]
    {
      var p := oldPositions.value[i];
      oldPeaks := oldPeaks + [Hex(reader.nodes[p])];
      var _, path := LocatePeakPath(fa, fb, i, p, newPositions.value);
      witnesses := witnesses + [ToWire(Siblings(reader.nodes, path))];
    }
    var newPeaks := ToWire(At(reader.nodes, newPositions.value));
    return Ok(ConsistencyProof(1, "consistency", sizeA, sizeB, oldPeaks, witnesses, newPeaks));
  }

  // ---- exactness --------------------------------------------------------------

  /** Against the true new peaks, an old peak is proven only from the true node with the true siblings. */
  lemma PeakProvenExact(ls: seq<Hash>, fa: nat, i: nat, old_: Hash, ws: seq<Hash>)
    requires fa <= |ls| && i < |Mountains(fa)|
    ensures NodeCount(|ls|) == |Nodes(ls)| && Mountains(fa)[i].peak < NodeCount(fa) <= NodeCount(|ls|)
    ensures PeakProven(fa, |ls|, i, old_, ws, Accumulator(ls)) <==>
            && old_ == Nodes(ls)[Mountains(fa)[i].peak]
            && ws == Siblings(Nodes(ls), PeakPath(fa, |ls|, i))
  {
    hide NodeCount, Mountains, Height, Path, Fold, Nodes;
    ForestIsMmr(ls);
    MountainFacts(fa, i);
    NodeCountMonotone(fa, |ls|);
    var c := NewMountain(fa, |ls|, i);
    MountainFacts(|ls|, c);
    RootBound(Mountains(|ls|)[c].peak);
    if |ws| == |PeakPath(fa, |ls|, i)| {
      FoldExact(Nodes(ls), Mountains(|ls|)[c].peak, Mountains(fa)[i].peak, old_, ws);
    }
  }

  /** The proven old peaks are the earlier log's accumulator, with no freedom left in the witnesses. */
  lemma PeaksProvenExact(ls: seq<Hash>, fa: nat, old_: seq<Hash>, ws: seq<seq<Hash>>)
    requires fa <= |ls|
    ensures NodeCount(|ls|) == |Nodes(ls)|
    ensures PeaksProven(fa, |ls|, old_, ws, Accumulator(ls)) <==>
            old_ == Accumulator(ls[..fa]) && ws == HonestWitness(Nodes(ls), fa, |ls|)
  {
    hide NodeCount, Mountains, PeakProven, PeakPath, Accumulator;
    ForestIsMmr(ls);
    EarlierAccumulator(ls, fa);
    if |old_| == |Mountains(fa)| && |ws| == |Mountains(fa)| {
      forall i: nat | i < |old_|
        ensures PeakProven(fa, |ls|, i, old_[i], ws[i], Accumulator(ls)) <==>
                old_[i] == Accumulator(ls[..fa])[i] && ws[i] == HonestWitness(Nodes(ls), fa, |ls|)[i]
      {
        PeakProvenExact(ls, fa, i, old_[i], ws[i]);
      }
    }
  }

  /**
    Exactness: against the root of a log at its size the verifier accepts
    exactly the root of a prefix of that log, at the prefix's size, and
    exactly one proof for it, the honest one.
  */
  lemma ConsistencyExact(ls: seq<Hash>, rootA: Hash, sizeA: int, proof: ConsistencyProof)
    requires NodeCount(|ls|) < MAX_MMR_SIZE
    ensures NodeCount(|ls|) == |Nodes(ls)|
    ensures Accepts(rootA, sizeA, LogRoot(ls), NodeCount(|ls|), proof) <==>
            && 0 <= sizeA && Complete(sizeA) && LeafFloor(sizeA) <= |ls|
            && rootA == LogRoot(ls[..LeafFloor(sizeA)])
            && proof == HonestConsistency(Nodes(ls), LeafFloor(sizeA), |ls|)
  {
    hide NodeCount, LeafFloor, Complete, Mountains, Nodes, BagPeaks, PeaksProven, HonestWitness, Accumulator;
    ForestIsMmr(ls);
    LeafFloorOfCount(|ls|);
    var sizeB := NodeCount(|ls|);
    CompleteIff(sizeB);
    if 0 <= sizeA && Complete(sizeA) {
      FloorOrder(sizeA, sizeB);
      var fa := LeafFloor(sizeA);
      CompleteCount(sizeA);
      if fa <= |ls| {
        EarlierAccumulator(ls, fa);
        EarlierAccumulator(ls, |ls|);
        assert ls[..|ls|] == ls;
        var oldPeaks, newPeaks := Parse(proof.oldPeaks), Parse(proof.newPeaks);
        var ws := ParseAll(proof.witnesses);
        if oldPeaks.Some? && newPeaks.Some? && ws.Some? {
          ParsedExact(ls, fa, oldPeaks.value, ws.value, newPeaks.value);
        }
        WireRoundTrip(proof.oldPeaks, Accumulator(ls[..fa]));
        WireRoundTrip(proof.newPeaks, Accumulator(ls));
        WireRoundTripAll(proof.witnesses, HonestWitness(Nodes(ls), fa, |ls|));
      }
    }
  }

  /** The same for the parsed proof: bagging leaves no freedom in the new peaks. */
  lemma ParsedExact(ls: seq<Hash>, fa: nat, old_: seq<Hash>, ws: seq<seq<Hash>>, new_: seq<Hash>)
    requires fa <= |ls|
    ensures NodeCount(|ls|) == |Nodes(ls)|
    ensures PeaksProven(fa, |ls|, old_, ws, new_) && BagPeaks(new_) == LogRoot(ls) <==>
            && old_ == Accumulator(ls[..fa]) && ws == HonestWitness(Nodes(ls), fa, |ls|)
            && new_ == Accumulator(ls)
  {
    hide NodeCount, Mountains, BagPeaks, PeakProven, HonestWitness, Accumulator, Nodes;
    PeaksProvenExact(ls, fa, old_, ws);
    if |new_| == |Mountains(|ls|)| && BagPeaks(new_) == LogRoot(ls) {
      BagInjective(new_, Accumulator(ls));
    }
  }

  /** A proof read from a grown array is the one read at its newer size. */
  lemma HonestFromGrown(ls: seq<Hash>, fa: nat, fb: nat)
    requires fa <= fb <= |ls|
    ensures NodeCount(fb) == |Nodes(ls[..fb])| <= |Nodes(ls)|
    ensures HonestConsistency(Nodes(ls), fa, fb) == HonestConsistency(Nodes(ls[..fb]), fa, fb)
  {
    hide NodeCount, Mountains, PeakPath, NewMountain, Nodes;
    ForestPrefix(ls, fb);
    ForestIsMmr(ls[..fb]);
    NodeCountMonotone(fa, fb);
    var long, short := HonestWitness(Nodes(ls), fa, fb), HonestWitness(Nodes(ls[..fb]), fa, fb);
    forall i: nat | i < |long|
      ensures long[i] == short[i]
    {
    }
    assert long == short;
  }

  /**
    Exactness at every pair of sizes: against the root of a log's first `fb`
    leaves, exactly the roots of shorter prefixes are accepted, each with
    exactly the proof read from the array however far it has grown since.
  */
  lemma ConsistencyExactAt(ls: seq<Hash>, fb: nat, rootA: Hash, sizeA: int, proof: ConsistencyProof)
    requires fb <= |ls| && NodeCount(fb) < MAX_MMR_SIZE
    ensures NodeCount(fb) <= |Nodes(ls)|
    ensures Accepts(rootA, sizeA, LogRoot(ls[..fb]), NodeCount(fb), proof) <==>
            && 0 <= sizeA && Complete(sizeA) && LeafFloor(sizeA) <= fb
            && rootA == LogRoot(ls[..LeafFloor(sizeA)])
            && proof == HonestConsistency(Nodes(ls), LeafFloor(sizeA), fb)
  {
    hide NodeCount, LeafFloor, Complete, HonestConsistency, Accepts, LogRoot, Nodes;
    HonestFromGrown(ls, 0, fb);
    ConsistencyExact(ls[..fb], rootA, sizeA, proof);
    if 0 <= sizeA && LeafFloor(sizeA) <= fb {
      HonestFromGrown(ls, LeafFloor(sizeA), fb);
      assert ls[..fb][..LeafFloor(sizeA)] == ls[..LeafFloor(sizeA)];
    }
  }

  /** What `ProveConsistency` returns over a log's array, at any sizes it accepts, verifies against their roots. */
  lemma ProvedIsAccepted(ls: seq<Hash>, sizeA: nat, sizeB: nat)
    requires sizeA <= sizeB < MAX_MMR_SIZE && Complete(sizeA) && Complete(sizeB) && sizeB <= |Nodes(ls)|
    ensures LeafFloor(sizeA) <= LeafFloor(sizeB) <= |ls| && NodeCount(LeafFloor(sizeB)) <= |Nodes(ls)|
    ensures Accepts(LogRoot(ls[..LeafFloor(sizeA)]), sizeA, LogRoot(ls[..LeafFloor(sizeB)]), sizeB,
                    HonestConsistency(Nodes(ls), LeafFloor(sizeA), LeafFloor(sizeB)))
  {
    hide NodeCount, LeafFloor, Complete, HonestConsistency, Accepts, LogRoot, Nodes;
    FloorWithin(ls, sizeB);
    FloorOrder(sizeA, sizeB);
    ConsistencyExactAt(ls, LeafFloor(sizeB), LogRoot(ls[..LeafFloor(sizeA)]), sizeA,
                       HonestConsistency(Nodes(ls), LeafFloor(sizeA), LeafFloor(sizeB)));
  }
}
