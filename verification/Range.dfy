// Range proofs: every leaf of a range takes part in the hash chain.

module Range {
  import opened Wrappers
  import opened Powers
  import opened Positions
  import opened Forest
  import opened Accumulators
  import opened Append
  import opened Digests
  import opened CorePositions

  datatype RangeProof = RangeProof(
    v: int, kind: string, size: int, fromIndex: int, toIndex: int, witnesses: seq<WireHash>)

  /** The subtree at `pos` has no leaf in `lo..hi`. */
  predicate Outside(pos: nat, lo: nat, hi: nat) {
    LeafFloor(pos) < lo || FirstLeaf(pos) > hi
  }

  /** All its leaves are in `lo..hi`. */
  predicate Inside(pos: nat, lo: nat, hi: nat) {
    lo <= FirstLeaf(pos) && LeafFloor(pos) <= hi
  }

  /** A subtree the range cuts through, or covers above leaf level, has two children. */
  lemma Halves(pos: nat)
    ensures FirstLeaf(pos) <= LeafFloor(pos)
    ensures Height(pos) == 0 ==> FirstLeaf(pos) == LeafFloor(pos) && NodeCount(FirstLeaf(pos)) == pos
    ensures Height(pos) > 0 ==>
              var l := pos - Pow2(Height(pos));
              && 0 <= l < pos && Height(l) == Height(pos) - 1 && Height(pos - 1) == Height(pos) - 1
              && FirstLeaf(l) == FirstLeaf(pos) && LeafFloor(l) + 1 == FirstLeaf(pos - 1)
              && LeafFloor(pos - 1) == LeafFloor(pos)
  {
    hide NodeCount, LeafFloor, Height, FirstLeaf;
    if Height(pos) > 0 {
      Children(pos);
    }
  }

  /** The hashes of the maximal subtrees outside the range, in walking order. */
  function Siblings(ns: seq<Hash>, pos: nat, lo: nat, hi: nat): seq<Hash>
    requires pos < |ns|
    decreases pos
  {
    hide NodeCount, LeafFloor, Height, FirstLeaf;
    Halves(pos);
    if Outside(pos, lo, hi) then [ns[pos]]
    else if Inside(pos, lo, hi) then []
    else Siblings(ns, pos - Pow2(Height(pos)), lo, hi) + Siblings(ns, pos - 1, lo, hi)
  }

  /** Rebuild the hash at `pos` from the bodies of the range and witnesses; what is left of the witnesses. */
  function Rebuild(pos: nat, lo: nat, hi: nat, bodies: seq<Hash>, ws: seq<Hash>): (r: Option<(Hash, seq<Hash>)>)
    requires |bodies| == hi - lo + 1
    decreases pos
  {
    hide NodeCount, LeafFloor, Height, FirstLeaf;
    Halves(pos);
    if Outside(pos, lo, hi) then
      if ws == [] then None else Some((ws[0], ws[1..]))
    else if Height(pos) == 0 then Some((Leaf(bodies[FirstLeaf(pos) - lo]), ws))
    else
      match Rebuild(pos - Pow2(Height(pos)), lo, hi, bodies, ws)
      case None => None
      case Some((left, rest)) =>
        match Rebuild(pos - 1, lo, hi, bodies, rest)
        case None => None
        case Some((right, rest')) => Some((Interior(pos, left, right), rest'))
  }

  /** The bodies of the range are the log's, as far as leaves `from` to `to` go. */
  ghost predicate Agree(all: seq<Hash>, lo: nat, hi: nat, bodies: seq<Hash>, from: nat, to: int)
    requires |bodies| == hi - lo + 1 && hi < |all|
  {
    forall k: nat | from <= k <= to && lo <= k <= hi :: bodies[k - lo] == all[k]
  }

  /**
    A subtree is rebuilt to the log's own hash exactly when the range's bodies
    under it are the log's and the witnesses used are the true siblings.
  */
  lemma {:induction false} RebuildExact(all: seq<Hash>, pos: nat, lo: nat, hi: nat, bodies: seq<Hash>,
                                        ws: seq<Hash>, rest: seq<Hash>)
    requires |bodies| == hi - lo + 1 && hi < |all|
    requires pos < |Nodes(LeafHashes(all))|
    ensures Rebuild(pos, lo, hi, bodies, ws) == Some((Nodes(LeafHashes(all))[pos], rest)) <==>
            && Agree(all, lo, hi, bodies, FirstLeaf(pos), LeafFloor(pos))
            && ws == Siblings(Nodes(LeafHashes(all)), pos, lo, hi) + rest
    decreases pos
  {
    hide NodeCount, LeafFloor, Height, FirstLeaf, Nodes, LeafHashes, Rebuild, Siblings, Agree;
    var ns := Nodes(LeafHashes(all));
    ForestIsMmr(LeafHashes(all));
    Halves(pos);
    if Outside(pos, lo, hi) || Height(pos) == 0 {
      RebuildBase(all, pos, lo, hi, bodies, ws, rest);
    } else {
      var l, r := pos - Pow2(Height(pos)), pos - 1;
      assert NodeRule(ns, pos);
      CoveredSiblings(ns, pos, lo, hi);
      RebuildStep(pos, lo, hi, bodies, ws, ns[l], ns[r], rest);
      BothHalves(all, pos, lo, hi, bodies, ws, rest);
      AgreeSplit(all, lo, hi, bodies, FirstLeaf(pos), FirstLeaf(r), LeafFloor(pos));
    }
  }

  lemma RebuildBase(all: seq<Hash>, pos: nat, lo: nat, hi: nat, bodies: seq<Hash>, ws: seq<Hash>, rest: seq<Hash>)
    requires |bodies| == hi - lo + 1 && hi < |all|
    requires pos < |Nodes(LeafHashes(all))| && (Outside(pos, lo, hi) || Height(pos) == 0)
    requires IsMmr(Nodes(LeafHashes(all)), LeafHashes(all))
    ensures Rebuild(pos, lo, hi, bodies, ws) == Some((Nodes(LeafHashes(all))[pos], rest)) <==>
            && Agree(all, lo, hi, bodies, FirstLeaf(pos), LeafFloor(pos))
            && ws == Siblings(Nodes(LeafHashes(all)), pos, lo, hi) + rest
  {
    hide NodeCount, LeafFloor, Height, FirstLeaf, Nodes, LeafHashes;
    Halves(pos);
    if Outside(pos, lo, hi) {
      assert ws != [] ==> ws == [ws[0]] + ws[1..];
      assert ([Nodes(LeafHashes(all))[pos]] + rest)[1..] == rest;
    } else {
      var k := FirstLeaf(pos);
      assert NodeCount(k) == pos;
      assert LeafHashes(all)[k] == Leaf(all[k]);
      assert Siblings(Nodes(LeafHashes(all)), pos, lo, hi) + rest == rest;
      assert Agree(all, lo, hi, bodies, k, k) <==> bodies[k - lo] == all[k];
    }
  }

  lemma RebuildStep(pos: nat, lo: nat, hi: nat, bodies: seq<Hash>, ws: seq<Hash>,
                    left: Hash, right: Hash, rest: seq<Hash>)
    requires |bodies| == hi - lo + 1 && !Outside(pos, lo, hi) && Height(pos) > 0
    ensures pos >= Pow2(Height(pos)) && pos > 0
    ensures Rebuild(pos, lo, hi, bodies, ws) == Some((Interior(pos, left, right), rest)) <==>
            exists mid :: && Rebuild(pos - Pow2(Height(pos)), lo, hi, bodies, ws) == Some((left, mid))
                          && Rebuild(pos - 1, lo, hi, bodies, mid) == Some((right, rest))
  {
    hide NodeCount, LeafFloor, Height, FirstLeaf;
    Halves(pos);
  }

  lemma AgreeSplit(all: seq<Hash>, lo: nat, hi: nat, bodies: seq<Hash>, a: nat, m: nat, b: int)
    requires |bodies| == hi - lo + 1 && hi < |all| && a <= m <= b + 1
    ensures Agree(all, lo, hi, bodies, a, b) <==>
            Agree(all, lo, hi, bodies, a, m - 1) && Agree(all, lo, hi, bodies, m, b)
  {
  }

  /** The prover's shortcut: a covered subtree contributes what its halves would. */
  lemma CoveredSiblings(ns: seq<Hash>, pos: nat, lo: nat, hi: nat)
    requires pos < |ns| && Height(pos) > 0 && !Outside(pos, lo, hi)
    ensures pos >= Pow2(Height(pos))
    ensures Siblings(ns, pos, lo, hi) ==
            Siblings(ns, pos - Pow2(Height(pos)), lo, hi) + Siblings(ns, pos - 1, lo, hi)
  {
    hide NodeCount, LeafFloor, Height, FirstLeaf, Pow2;
    Halves(pos);
    Halves(pos - Pow2(Height(pos)));
    Halves(pos - 1);
  }

  /** The step from the halves to the whole. */
  lemma {:induction false} BothHalves(all: seq<Hash>, pos: nat, lo: nat, hi: nat, bodies: seq<Hash>,
                                      ws: seq<Hash>, rest: seq<Hash>)
    requires |bodies| == hi - lo + 1 && hi < |all|
    requires pos < |Nodes(LeafHashes(all))| && Height(pos) > 0
    requires pos >= Pow2(Height(pos))
    ensures var ns := Nodes(LeafHashes(all)); var l := pos - Pow2(Height(pos));
            (exists mid :: && Rebuild(l, lo, hi, bodies, ws) == Some((ns[l], mid))
                           && Rebuild(pos - 1, lo, hi, bodies, mid) == Some((ns[pos - 1], rest))) <==>
            && Agree(all, lo, hi, bodies, FirstLeaf(l), LeafFloor(l))
            && Agree(all, lo, hi, bodies, FirstLeaf(pos - 1), LeafFloor(pos - 1))
            && ws == Siblings(ns, l, lo, hi) + Siblings(ns, pos - 1, lo, hi) + rest
    decreases pos, 0
  {
    hide NodeCount, LeafFloor, Height, FirstLeaf, Nodes, LeafHashes, Rebuild, Siblings;
    Pow2Above(Height(pos));
    var ns := Nodes(LeafHashes(all));
    var l, r := pos - Pow2(Height(pos)), pos - 1;
    forall mid: seq<Hash>
      ensures Rebuild(l, lo, hi, bodies, ws) == Some((ns[l], mid)) <==>
              && Agree(all, lo, hi, bodies, FirstLeaf(l), LeafFloor(l))
              && ws == Siblings(ns, l, lo, hi) + mid
      ensures Rebuild(r, lo, hi, bodies, mid) == Some((ns[r], rest)) <==>
              && Agree(all, lo, hi, bodies, FirstLeaf(r), LeafFloor(r))
              && mid == Siblings(ns, r, lo, hi) + rest
    {
      RebuildExact(all, l, lo, hi, bodies, ws, mid);
      RebuildExact(all, r, lo, hi, bodies, mid, rest);
    }
    var mid := Siblings(ns, r, lo, hi) + rest;
    assert Siblings(ns, l, lo, hi) + mid == Siblings(ns, l, lo, hi) + Siblings(ns, r, lo, hi) + rest;
  }

  // ---- all mountains ------------------------------------------------------------

  /** First leaf of mountain `i`, or the leaf count after the last. */
  function Start(f: nat, i: nat): nat
    requires i <= |Mountains(f)|
  {
    if i == |Mountains(f)| then f else FirstLeaf(Mountains(f)[i].peak)
  }

  /** Mountains tile the leaves. */
  lemma MountainLeaves(f: nat, i: nat)
    requires i <= |Mountains(f)|
    ensures Start(f, 0) == 0
    ensures i < |Mountains(f)| ==>
              && Start(f, i + 1) == LeafFloor(Mountains(f)[i].peak) + 1
              && Start(f, i + 1) == Start(f, i) + Pow2(Height(Mountains(f)[i].peak))
    ensures i < |Mountains(f)| ==> Mountains(f)[i].peak < NodeCount(f)
  {
    hide NodeCount, LeafFloor, Height, FirstLeaf, Mountains;
    var ms := Mountains(f);
    NodeCountSplit(0, 0);
    if |ms| > 0 {
      MountainFacts(f, 0);
      NodeCountInjective(FirstLeaf(ms[0].peak), 0);
    } else if f > 0 {
      NodeCountMonotone(0, f);
      SomeMountain(f);
    }
    if i < |ms| {
      MountainFacts(f, i);
      var p := ms[i].peak;
      HeightClosed(p + 1);
      AfterPeak(p);
      if i + 1 < |ms| {
        MountainFacts(f, i + 1);
        NodeCountInjective(FirstLeaf(ms[i + 1].peak), LeafFloor(p) + 1);
      } else {
        NodeCountInjective(f, LeafFloor(p) + 1);
      }
    }
  }

  lemma NodeCountInjective(a: nat, b: nat)
    requires NodeCount(a) == NodeCount(b)
    ensures a == b
  {
    hide NodeCount;
    if a < b {
      NodeCountMonotone(a, b);
    } else if b < a {
      NodeCountMonotone(b, a);
    }
  }

  /** The leaf after a peak is the next leaf. */
  lemma AfterPeak(p: nat)
    requires Height(p + 1) == 0
    ensures NodeCount(LeafFloor(p) + 1) == p + 1
  {
    hide NodeCount, Height;
    HeightClosed(p + 1);
  }

  function AllSiblings(ns: seq<Hash>, f: nat, i: nat, lo: nat, hi: nat): seq<Hash>
    requires NodeCount(f) <= |ns| && i <= |Mountains(f)|
    decreases |Mountains(f)| - i
  {
    hide NodeCount, Mountains, Siblings;
    MountainLeaves(f, i);
    if i == |Mountains(f)| then []
    else Siblings(ns, Mountains(f)[i].peak, lo, hi) + AllSiblings(ns, f, i + 1, lo, hi)
  }

  function RebuildAll(f: nat, i: nat, lo: nat, hi: nat, bodies: seq<Hash>, ws: seq<Hash>)
    : (r: Option<(seq<Hash>, seq<Hash>)>)
    requires |bodies| == hi - lo + 1 && i <= |Mountains(f)|
    ensures r.Some? ==> |r.value.0| == |Mountains(f)| - i
    decreases |Mountains(f)| - i
  {
    hide Mountains, Rebuild;
    if i == |Mountains(f)| then Some(([], ws))
    else
      match Rebuild(Mountains(f)[i].peak, lo, hi, bodies, ws)
      case None => None
      case Some((peak, rest)) =>
        match RebuildAll(f, i + 1, lo, hi, bodies, rest)
        case None => None
        case Some((peaks, rest')) => Some(([peak] + peaks, rest'))
  }

  lemma {:induction false} RebuildAllExact(all: seq<Hash>, i: nat, lo: nat, hi: nat, bodies: seq<Hash>,
                                           ws: seq<Hash>, rest: seq<Hash>)
    requires |bodies| == hi - lo + 1 && hi < |all| && i <= |Mountains(|all|)|
    ensures NodeCount(|all|) == |Nodes(LeafHashes(all))|
    ensures RebuildAll(|all|, i, lo, hi, bodies, ws) == Some((Accumulator(LeafHashes(all))[i..], rest)) <==>
            && Agree(all, lo, hi, bodies, Start(|all|, i), |all| - 1)
            && ws == AllSiblings(Nodes(LeafHashes(all)), |all|, i, lo, hi) + rest
    decreases |Mountains(|all|)| - i
  {
    hide NodeCount, LeafFloor, Height, FirstLeaf, Nodes, LeafHashes, Mountains, Rebuild, Siblings, Agree, Start,
      Accumulator, RebuildAll, AllSiblings;
    var ls := LeafHashes(all);
    ForestIsMmr(ls);
    var f := |all|;
    var acc := Accumulator(ls);
    RestOf(ls, i, lo, hi);
    if i == |Mountains(f)| {
      NoneLeft(all, lo, hi, bodies);
      RebuildNone(f, lo, hi, bodies, ws);
      assert acc[i..] == [] && AllSiblings(Nodes(ls), f, i, lo, hi) + rest == rest;
    } else {
      var p := Mountains(f)[i].peak;
      MountainLeaves(f, i);
      MountainLeaves(f, i + 1);
      StartBound(f, i + 1);
      AgreeSplit(all, lo, hi, bodies, Start(f, i), Start(f, i + 1), f - 1);
      forall mid: seq<Hash>
        ensures Rebuild(p, lo, hi, bodies, ws) == Some((Nodes(ls)[p], mid)) <==>
                Agree(all, lo, hi, bodies, Start(f, i), LeafFloor(p)) && ws == Siblings(Nodes(ls), p, lo, hi) + mid
        ensures RebuildAll(f, i + 1, lo, hi, bodies, mid) == Some((acc[i + 1..], rest)) <==>
                && Agree(all, lo, hi, bodies, Start(f, i + 1), f - 1)
                && mid == AllSiblings(Nodes(ls), f, i + 1, lo, hi) + rest
      {
        RebuildExact(all, p, lo, hi, bodies, ws, mid);
        RebuildAllExact(all, i + 1, lo, hi, bodies, mid, rest);
      }
      RebuildAllStep(f, i, lo, hi, bodies, ws, Nodes(ls)[p], acc[i + 1..], rest);
      var mid := AllSiblings(Nodes(ls), f, i + 1, lo, hi) + rest;
      assert AllSiblings(Nodes(ls), f, i, lo, hi) + rest == Siblings(Nodes(ls), p, lo, hi) + mid;
    }
  }

  /** What is left of the accumulator and of the siblings from mountain `i` on. */
  lemma RestOf(ls: seq<Hash>, i: nat, lo: nat, hi: nat)
    requires i <= |Mountains(|ls|)|
    ensures NodeCount(|ls|) == |Nodes(ls)|
    ensures i == |Mountains(|ls|)| ==> AllSiblings(Nodes(ls), |ls|, i, lo, hi) == [] && Start(|ls|, i) == |ls|
    ensures i < |Mountains(|ls|)| ==>
              var p := Mountains(|ls|)[i].peak;
              && p < |Nodes(ls)| && Accumulator(ls)[i..] == [Nodes(ls)[p]] + Accumulator(ls)[i + 1..]
              && AllSiblings(Nodes(ls), |ls|, i, lo, hi) ==
                 Siblings(Nodes(ls), p, lo, hi) + AllSiblings(Nodes(ls), |ls|, i + 1, lo, hi)
  {
    hide NodeCount, LeafFloor, Height, FirstLeaf, Nodes, Mountains, Siblings;
    ForestIsMmr(ls);
    if i < |Mountains(|ls|)| {
      MountainFacts(|ls|, i);
    }
  }

  lemma RebuildNone(f: nat, lo: nat, hi: nat, bodies: seq<Hash>, ws: seq<Hash>)
    requires |bodies| == hi - lo + 1
    ensures RebuildAll(f, |Mountains(f)|, lo, hi, bodies, ws) == Some(([], ws))
  {
    hide Mountains;
  }

  lemma RebuildAllStep(f: nat, i: nat, lo: nat, hi: nat, bodies: seq<Hash>, ws: seq<Hash>,
                       x: Hash, xs: seq<Hash>, rest: seq<Hash>)
    requires |bodies| == hi - lo + 1 && i < |Mountains(f)|
    ensures RebuildAll(f, i, lo, hi, bodies, ws) == Some(([x] + xs, rest)) <==>
            exists mid :: && Rebuild(Mountains(f)[i].peak, lo, hi, bodies, ws) == Some((x, mid))
                          && RebuildAll(f, i + 1, lo, hi, bodies, mid) == Some((xs, rest))
  {
    hide Mountains, Rebuild;
    assert forall y: Hash, ys: seq<Hash> :: [y] + ys == [x] + xs ==> ([y] + ys)[0] == y && ([y] + ys)[1..] == ys;
    assert ([x] + xs)[0] == x && ([x] + xs)[1..] == xs;
  }

  lemma NoneLeft(all: seq<Hash>, lo: nat, hi: nat, bodies: seq<Hash>)
    requires |bodies| == hi - lo + 1 && hi < |all|
    ensures Agree(all, lo, hi, bodies, |all|, |all| - 1)
  {
  }

  lemma {:induction false} StartBound(f: nat, i: nat)
    requires i <= |Mountains(f)|
    ensures Start(f, i) <= f
    decreases |Mountains(f)| - i
  {
    hide NodeCount, LeafFloor, Height, FirstLeaf, Mountains;
    if i < |Mountains(f)| {
      MountainLeaves(f, i);
      StartBound(f, i + 1);
    }
  }

  // ---- the algorithms -------------------------------------------------------------

  /** The list the prover's walk appends to. */
  class Output {
    var items: seq<Hash>

    constructor ()
      ensures items == []
    {
      items := [];
    }
  }

  /** The verifier's place in the witness list. */
  class Cursor {
    var index: nat

    constructor ()
      ensures index == 0
    {
      index := 0;
    }
  }

  method RangeWitnesses(reader: NodeStore, pos: nat, height: nat, leafStart: nat, lo: nat, hi: nat, out: Output)
    requires pos < |reader.nodes| && height == Height(pos) && leafStart == FirstLeaf(pos)
    modifies out
    ensures out.items == old(out.items) + Siblings(reader.nodes, pos, lo, hi)
    decreases height
  {
    hide NodeCount, LeafFloor, Height, FirstLeaf;
    Halves(pos);
    var leafEnd := leafStart + Pow2(height) - 1;
    if leafEnd < lo || leafStart > hi {
      out.items := out.items + [reader.nodes[pos]];
      return;
    }
    if leafStart >= lo && leafEnd <= hi {
      return;
    }
    var half := Pow2(height - 1);
    RangeWitnesses(reader, pos - Pow2(height), height - 1, leafStart, lo, hi, out);
    RangeWitnesses(reader, pos - 1, height - 1, leafStart + half, lo, hi, out);
  }

  /** The prover of the first `f` leaves. */
  function HonestRange(ns: seq<Hash>, f: nat, lo: nat, hi: nat): RangeProof
    requires NodeCount(f) <= |ns|
  {
    RangeProof(1, "range", NodeCount(f), lo, hi, ToWire(AllSiblings(ns, f, 0, lo, hi)))
  }

  method ProveRange(reader: NodeStore, fromIndex: int, toIndex: int, size: int) returns (r: Result<RangeProof, string>)
    ensures r.Ok? <==>
            && 0 <= fromIndex <= toIndex && 0 <= size < MAX_MMR_SIZE && Complete(size)
            && toIndex < LeafFloor(size) && size <= |reader.nodes|
    ensures r.Ok? ==> NodeCount(LeafFloor(size)) <= |reader.nodes|
    ensures r.Ok? ==> r.value == HonestRange(reader.nodes, LeafFloor(size), fromIndex, toIndex)
  {
    hide NodeCount, LeafFloor, Complete, Mountains, Height, FirstLeaf, Siblings;
    if toIndex < fromIndex {
      return Err("invalid range");
    }
    if fromIndex < 0 {
      return Err("from_index must be >= 0");
    }
    var lc := LeafCount(size);
    if lc.Err? {
      return Err(lc.error);
    }
    if toIndex >= lc.value {
      return Err("to_index out of range");
    }
    if |reader.nodes| < size {
      return Err("reader size is smaller than requested size");
    }
    var f := lc.value;
    var pks := PeakPositions(size);
    var out := new Output();
    var leafStart := 0;
    MountainLeaves(f, 0);
    for i := 0 to |pks.value|
      invariant leafStart == Start(f, i)
      invariant out.items + AllSiblings(reader.nodes, f, i, fromIndex, toIndex)
                == AllSiblings(reader.nodes, f, 0, fromIndex, toIndex)
    {
      MountainLeaves(f, i);
      var h := HeightAt(pks.value[i]);
      RangeWitnesses(reader, pks.value[i], h, leafStart, fromIndex, toIndex, out);
      leafStart := leafStart + Pow2(h);
    }
    return Ok(RangeProof(1, "range", size, fromIndex, toIndex, ToWire(out.items)));
  }

  method ReconstructRangeSubtree(pos: nat, height: nat, leafStart: nat, lo: nat, hi: nat,
                                 bodies: seq<Hash>, ws: seq<Hash>, cursor: Cursor) returns (r: Option<Hash>)
    requires |bodies| == hi - lo + 1 && height == Height(pos) && leafStart == FirstLeaf(pos)
    requires cursor.index <= |ws|
    modifies cursor
    ensures cursor.index <= |ws|
    ensures match Rebuild(pos, lo, hi, bodies, ws[old(cursor.index)..])
            case None => r.None?
            case Some((hash, rest)) => r == Some(hash) && ws[cursor.index..] == rest
    decreases height
  {
    hide NodeCount, LeafFloor, Height, FirstLeaf;
    Halves(pos);
    var leafEnd := leafStart + Pow2(height) - 1;
    if leafEnd < lo || leafStart > hi {
      if cursor.index >= |ws| {
        return None;
      }
      var w := ws[cursor.index];
      cursor.index := cursor.index + 1;
      return Some(w);
    }
    if height == 0 {
      return Some(Leaf(bodies[leafStart - lo]));
    }
    var half := Pow2(height - 1);
    var left := ReconstructRangeSubtree(pos - Pow2(height), height - 1, leafStart, lo, hi, bodies, ws, cursor);
    if left.None? {
      return None;
    }
    var right := ReconstructRangeSubtree(pos - 1, height - 1, leafStart + half, lo, hi, bodies, ws, cursor);
    if right.None? {
      return None;
    }
    return Some(Interior(pos, left.value, right.value));
  }

  /** What the verifier accepts. */
  ghost predicate Accepts(root: Hash, size: int, fromIndex: int, toIndex: int, bodies: seq<Hash>, proof: RangeProof) {
    && proof.v == 1 && proof.kind == "range"
    && proof.size == size && proof.fromIndex == fromIndex && proof.toIndex == toIndex
    && 0 <= size < MAX_MMR_SIZE && Complete(size)
    && 0 <= fromIndex <= toIndex < LeafFloor(size)
    && |bodies| == toIndex - fromIndex + 1
    && Parse(proof.witnesses).Some?
    && match RebuildAll(LeafFloor(size), 0, fromIndex, toIndex, bodies, Parse(proof.witnesses).value)
       case None => false
       case Some((peaks, rest)) => rest == [] && BagPeaks(peaks) == root
  }

  /** What the verifier has rebuilt, followed by what it has still to rebuild. */
  function Prepend(peaks: seq<Hash>, r: Option<(seq<Hash>, seq<Hash>)>): Option<(seq<Hash>, seq<Hash>)> {
    match r
    case None => None
    case Some((more, rest)) => Some((peaks + more, rest))
  }

  lemma PrependNone(r: Option<(seq<Hash>, seq<Hash>)>)
    ensures Prepend([], r) == r
  {
    if r.Some? {
      assert [] + r.value.0 == r.value.0;
    }
  }

  lemma PrependOne(peaks: seq<Hash>, peak: Hash, r: Option<(seq<Hash>, seq<Hash>)>)
    ensures Prepend(peaks + [peak], r) == Prepend(peaks, Prepend([peak], r))
  {
    if r.Some? {
      assert peaks + [peak] + r.value.0 == peaks + ([peak] + r.value.0);
    }
  }

  /** Whatever the root: only a complete size below 2^50, a range within it, and a proof made out for them. */
  lemma AcceptedArguments(root: Hash, size: int, fromIndex: int, toIndex: int, bodies: seq<Hash>, proof: RangeProof)
    requires Accepts(root, size, fromIndex, toIndex, bodies, proof)
    ensures proof.v == 1 && proof.kind == "range" && proof.size == size
    ensures proof.fromIndex == fromIndex && proof.toIndex == toIndex && |bodies| == toIndex - fromIndex + 1
    ensures size < 0x4_0000_0000_0000
    ensures exists f: nat :: NodeCount(f) == size && 0 <= fromIndex <= toIndex < f
  {
    hide NodeCount, LeafFloor, Complete, Mountains, Parse, BagPeaks;
    CompleteCount(size);
    assert NodeCount(LeafFloor(size)) == size;
  }

  method VerifyRange(root: Hash, size: int, fromIndex: int, toIndex: int, bodies: seq<Hash>, proof: RangeProof)
    returns (ok: bool)
    ensures ok <==> Accepts(root, size, fromIndex, toIndex, bodies, proof)
  {
    hide NodeCount, LeafFloor, Complete, Mountains, Height, FirstLeaf, Rebuild, BagPeaks;
    if proof.v != 1 || proof.kind != "range" {
      return false;
    }
    if proof.size != size || proof.fromIndex != fromIndex || proof.toIndex != toIndex {
      return false;
    }
    if size < 0 || size >= MAX_MMR_SIZE || fromIndex < 0 || toIndex < fromIndex {
      return false;
    }
    if |bodies| != toIndex - fromIndex + 1 {
      return false;
    }
    var lc := LeafCount(size);
    if lc.Err? || toIndex >= lc.value {
      return false;
    }
    var parsed := Parse(proof.witnesses);
    if parsed.None? {
      return false;
    }
    var f, ws := lc.value, parsed.value;
    var pks := PeakPositions(size);
    var cursor := new Cursor();
    var leafStart := 0;
    var peaks: seq<Hash> := [];
    ghost var goal := RebuildAll(f, 0, fromIndex, toIndex, bodies, ws);
    PrependNone(goal);
    MountainLeaves(f, 0);
    for i := 0 to |pks.value|
      invariant leafStart == Start(f, i) && cursor.index <= |ws|
      invariant Prepend(peaks, RebuildAll(f, i, fromIndex, toIndex, bodies, ws[cursor.index..])) == goal
    {
      MountainLeaves(f, i);
      ghost var before := peaks;
      var h := HeightAt(pks.value[i]);
      var peak := ReconstructRangeSubtree(pks.value[i], h, leafStart, fromIndex, toIndex, bodies, ws, cursor);
      if peak.None? {
        return false;
      }
      PrependOne(before, peak.value, RebuildAll(f, i + 1, fromIndex, toIndex, bodies, ws[cursor.index..]));
      peaks := peaks + [peak.value];
      leafStart := leafStart + Pow2(h);
    }
    assert peaks + [] == peaks;
    if cursor.index != |ws| {
      return false;
    }
    var computed := RootFromPeaks(peaks);
    return computed == root;
  }

  /**
    Exactness: against the root of a log at its size the verifier accepts
    exactly the log's own bodies for the range, with exactly one proof, the
    honest one, and so with every witness consumed.
  */
  lemma RangeExact(all: seq<Hash>, fromIndex: int, toIndex: int, bodies: seq<Hash>, proof: RangeProof)
    requires NodeCount(|all|) < MAX_MMR_SIZE
    ensures NodeCount(|all|) == |Nodes(LeafHashes(all))|
    ensures Accepts(LogRoot(LeafHashes(all)), NodeCount(|all|), fromIndex, toIndex, bodies, proof) <==>
            && 0 <= fromIndex <= toIndex < |all|
            && bodies == all[fromIndex..toIndex + 1]
            && proof == HonestRange(Nodes(LeafHashes(all)), |all|, fromIndex, toIndex)
  {
    hide NodeCount, LeafFloor, Mountains, Nodes, LeafHashes, BagPeaks, RebuildAll, AllSiblings;
    var ls := LeafHashes(all);
    ForestIsMmr(ls);
    LeafFloorOfCount(|all|);
    if 0 <= fromIndex <= toIndex < |all| {
      var lo: nat, hi: nat := fromIndex, toIndex;
      MountainLeaves(|all|, 0);
      if |bodies| == hi - lo + 1 {
        AgreeIsSlice(all, lo, hi, bodies);
        if Parse(proof.witnesses).Some? {
          var ws := Parse(proof.witnesses).value;
          RebuildAllExact(all, 0, lo, hi, bodies, ws, []);
          var acc := Accumulator(ls);
          assert acc[0..] == acc;
          assert AllSiblings(Nodes(ls), |all|, 0, lo, hi) + [] == AllSiblings(Nodes(ls), |all|, 0, lo, hi);
          match RebuildAll(|all|, 0, lo, hi, bodies, ws) {
            case Some((peaks, rest)) =>
              if BagPeaks(peaks) == BagPeaks(acc) {
                BagInjective(peaks, acc);
              }
            case None =>
          }
        }
      }
      WireRoundTrip(proof.witnesses, AllSiblings(Nodes(ls), |all|, 0, lo, hi));
    }
  }

  lemma AgreeIsSlice(all: seq<Hash>, lo: nat, hi: nat, bodies: seq<Hash>)
    requires |bodies| == hi - lo + 1 && lo <= hi < |all|
    ensures Agree(all, lo, hi, bodies, 0, |all| - 1) <==> bodies == all[lo..hi + 1]
  {
    if Agree(all, lo, hi, bodies, 0, |all| - 1) {
      forall i | 0 <= i < |bodies|
        ensures bodies[i] == all[lo..hi + 1][i]
      {
        assert bodies[lo + i - lo] == all[lo + i];
      }
    }
  }

  lemma {:induction false} SubtreeOfPrefix(ns: seq<Hash>, n: nat, pos: nat, lo: nat, hi: nat)
    requires pos < n <= |ns|
    ensures Siblings(ns, pos, lo, hi) == Siblings(ns[..n], pos, lo, hi)
    decreases pos
  {
    hide NodeCount, LeafFloor, Height, FirstLeaf;
    Halves(pos);
    if !Outside(pos, lo, hi) && !Inside(pos, lo, hi) {
      SubtreeOfPrefix(ns, n, pos - Pow2(Height(pos)), lo, hi);
      SubtreeOfPrefix(ns, n, pos - 1, lo, hi);
    }
  }

  lemma {:induction false} SiblingsOfPrefix(ns: seq<Hash>, f: nat, i: nat, lo: nat, hi: nat)
    requires NodeCount(f) <= |ns| && i <= |Mountains(f)|
    ensures AllSiblings(ns, f, i, lo, hi) == AllSiblings(ns[..NodeCount(f)], f, i, lo, hi)
    decreases |Mountains(f)| - i
  {
    hide NodeCount, LeafFloor, Height, FirstLeaf, Mountains, Siblings;
    if i < |Mountains(f)| {
      MountainFacts(f, i);
      MountainLeaves(f, i);
      SubtreeOfPrefix(ns, NodeCount(f), Mountains(f)[i].peak, lo, hi);
      SiblingsOfPrefix(ns, f, i + 1, lo, hi);
    }
  }

  /** A proof read from a grown array is the one read at its own size: nodes are write-once. */
  lemma HonestFromGrown(all: seq<Hash>, f: nat, lo: nat, hi: nat)
    requires f <= |all|
    ensures NodeCount(f) == |Nodes(LeafHashes(all[..f]))| <= |Nodes(LeafHashes(all))|
    ensures HonestRange(Nodes(LeafHashes(all)), f, lo, hi) == HonestRange(Nodes(LeafHashes(all[..f])), f, lo, hi)
  {
    hide NodeCount, Nodes, AllSiblings;
    var ls := LeafHashes(all);
    assert LeafHashes(all[..f]) == ls[..f];
    ForestPrefix(ls, f);
    ForestIsMmr(ls[..f]);
    SiblingsOfPrefix(Nodes(ls), f, 0, lo, hi);
  }

  /** Exactness at every earlier size, with the proof read from the array however far it has grown since. */
  lemma RangeExactAt(all: seq<Hash>, f: nat, fromIndex: int, toIndex: int, bodies: seq<Hash>, proof: RangeProof)
    requires f <= |all| && NodeCount(f) < MAX_MMR_SIZE
    ensures NodeCount(f) <= |Nodes(LeafHashes(all))|
    ensures Accepts(LogRoot(LeafHashes(all[..f])), NodeCount(f), fromIndex, toIndex, bodies, proof) <==>
            && 0 <= fromIndex <= toIndex < f
            && bodies == all[fromIndex..toIndex + 1]
            && proof == HonestRange(Nodes(LeafHashes(all)), f, fromIndex, toIndex)
  {
    hide NodeCount, LeafFloor, HonestRange, Accepts, LogRoot, Nodes;
    HonestFromGrown(all, f, 0, 0);
    RangeExact(all[..f], fromIndex, toIndex, bodies, proof);
    if 0 <= fromIndex <= toIndex < f {
      HonestFromGrown(all, f, fromIndex, toIndex);
      assert all[..f][fromIndex..toIndex + 1] == all[fromIndex..toIndex + 1];
    }
  }
}
