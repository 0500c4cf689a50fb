// Segment rotation: each closed segment's manifest, which proves its records
// against the log's MMR, and the verifier that needs only bytes and manifest.

module MmrLedger {
  import opened Wrappers
  import opened Positions
  import opened Digests
  import opened Forest
  import opened AppendSpec
  import opened Append
  import opened Accumulators
  import opened CorePositions
  import Range
  import opened LedgerSpec

  /** The index's range proof: by log seq, with the size fixed to the range's end. */
  datatype RangeProof = RangeProof(
    fromSeq: int, toSeq: int, size: int, fromIndex: int, toIndex: int, witnesses: seq<WireHash>)

  /** What `verify_range` of the index accepts. */
  ghost predicate Accepts(root: Hash, fromSeq: int, toSeq: int, bodies: seq<Hash>, proof: RangeProof) {
    && proof.fromSeq == fromSeq && proof.toSeq == toSeq && 1 <= fromSeq <= toSeq
    && 0 <= proof.size < MAX_MMR_SIZE && Complete(proof.size) && LeafFloor(proof.size) == toSeq
    && Range.Accepts(root, proof.size, fromSeq - 1, toSeq - 1, bodies,
                     Range.RangeProof(1, "range", proof.size, proof.fromIndex, proof.toIndex, proof.witnesses))
  }

  method VerifyRange(root: Hash, fromSeq: int, toSeq: int, bodies: seq<Hash>, proof: RangeProof) returns (ok: bool)
    ensures ok <==> Accepts(root, fromSeq, toSeq, bodies, proof)
  {
    hide Complete, LeafFloor, NodeCount, Range.Accepts;
    if proof.fromSeq != fromSeq || proof.toSeq != toSeq || fromSeq < 1 || toSeq < fromSeq {
      return false;
    }
    var leaves := LeafCount(proof.size);
    if leaves.Err? || leaves.value != toSeq {
      return false;
    }
    ok := Range.VerifyRange(root, proof.size, fromSeq - 1, toSeq - 1, bodies,
                            Range.RangeProof(1, "range", proof.size, proof.fromIndex, proof.toIndex, proof.witnesses));
  }

  /** The proof an honest index makes for records `from` to `to` of a log with these ids. */
  function HonestProof(ids: seq<Hash>, from: nat, to: nat): RangeProof
    requires 1 <= from <= to <= |ids|
  {
    hide NodeCount, Nodes;
    ForestSizeOf(ids[..to]);
    var p := Range.HonestRange(Nodes(LeafHashes(ids[..to])), to, from - 1, to - 1);
    RangeProof(from, to, NodeCount(to), from - 1, to - 1, p.witnesses)
  }

  lemma ForestSizeOf(ids: seq<Hash>)
    ensures |Nodes(LeafHashes(ids))| == NodeCount(|ids|)
  {
    hide NodeCount, Nodes;
    ForestIsMmr(LeafHashes(ids));
  }

  /**
    Exactness: against the root of the first `to` ids, only exactly the ids
    `from` to `to` are accepted, with exactly the honest proof.
  */
  lemma ProofExact(ids: seq<Hash>, to: nat, fromSeq: int, bodies: seq<Hash>, proof: RangeProof)
    requires 1 <= to <= |ids| && NodeCount(to) < MAX_MMR_SIZE
    ensures Accepts(LogRoot(LeafHashes(ids[..to])), fromSeq, to, bodies, proof) && proof.size == NodeCount(to) <==>
            1 <= fromSeq <= to && bodies == ids[fromSeq - 1..to] && proof == HonestProof(ids, fromSeq, to)
  {
    hide Complete, LeafFloor, NodeCount, Range.Accepts, Range.HonestRange, Nodes, LogRoot;
    LeafFloorOfCount(to);
    CompleteIff(NodeCount(to));
    ForestSizeOf(ids[..to]);
    if 1 <= fromSeq <= to {
      assert ids[..to][fromSeq - 1..to] == ids[fromSeq - 1..to];
      Range.RangeExact(ids[..to], fromSeq - 1, to - 1, bodies,
                       Range.RangeProof(1, "range", proof.size, proof.fromIndex, proof.toIndex, proof.witnesses));
      HonestIs(ids, fromSeq, to);
    }
  }

  lemma HonestIs(ids: seq<Hash>, from: nat, to: nat)
    requires 1 <= from <= to <= |ids|
    ensures NodeCount(to) <= |Nodes(LeafHashes(ids[..to]))|
    ensures var p := HonestProof(ids, from, to);
            Range.HonestRange(Nodes(LeafHashes(ids[..to])), to, from - 1, to - 1) ==
            Range.RangeProof(1, "range", p.size, p.fromIndex, p.toIndex, p.witnesses)
  {
    hide NodeCount, Nodes;
    ForestSizeOf(ids[..to]);
  }

  /** The ids of index rows, in seq order. */
  function IdsOf(rows: seq<Row>): (ids: seq<Hash>)
    ensures |ids| == |rows| && forall i :: 0 <= i < |ids| ==> ids[i] == rows[i].id
  {
    seq(|rows|, i requires 0 <= i < |rows| => rows[i].id)
  }

  /** The MMR over a ledger's record ids. */
  class MmrIndex {
    const nodes: NodeStore
    var bodies: seq<Hash>

    constructor ()
      ensures fresh(nodes) && Valid() && bodies == []
    {
      nodes := new NodeStore();
      bodies := [];
      new;
      assert LeafHashes([]) == [];
      ForestSizeOf([]);
      NoNodes();
    }

    ghost predicate Valid()
      reads this, nodes
    {
      nodes.nodes == Nodes(LeafHashes(bodies))
    }

    /** Fold records not yet indexed into the MMR; a gap or a full MMR is an error, and leaves it as far as it got. */
    method Sync(rows: seq<Row>) returns (r: Result<nat, string>)
      requires Valid()
      modifies this, nodes
      ensures Valid() && old(bodies) <= bodies
      ensures r.Ok? ==> |bodies| == |old(bodies)| + r.value
      ensures Numbered(rows) && old(bodies) <= IdsOf(rows) ==>
                && bodies <= IdsOf(rows) && (r.Ok? ==> bodies == IdsOf(rows))
                && (NodeCount(|rows|) < MAX_MMR_SIZE ==> r.Ok?)
    {
      hide NodeCount, LeafFloor, Nodes, Climb;
      var added := 0;
      for i := 0 to |rows|
        invariant Valid() && old(bodies) <= bodies && |bodies| == |old(bodies)| + added
        invariant Numbered(rows) && old(bodies) <= IdsOf(rows) ==> bodies <= IdsOf(rows) && |bodies| >= i
      {
        if rows[i].seqNo <= |bodies| {
          continue;
        }
        if rows[i].seqNo != |bodies| + 1 {
          return Err("record is out of order");
        }
        ForestSizeOf(bodies);
        LeafFloorOfCount(|bodies|);
        AppendIsForest(LeafHashes(bodies), Leaf(rows[i].id));
        assert LeafHashes(bodies) + [Leaf(rows[i].id)] == LeafHashes(bodies + [rows[i].id]);
        if |bodies| <= |rows| {
          NodeCountMonotone(|bodies|, |rows|);
        }
        var leaf := AddLeaf(nodes, Leaf(rows[i].id));
        if leaf.Err? {
          return Err(leaf.error);
        }
        bodies := bodies + [rows[i].id];
        added := added + 1;
      }
      return Ok(added);
    }

    /** The bagged root at the current size. */
    method Root() returns (r: Result<Hash, string>)
      requires Valid()
      ensures r.Ok? <==> NodeCount(|bodies|) < MAX_MMR_SIZE
      ensures r.Ok? ==> r.value == LogRoot(LeafHashes(bodies))
    {
      hide NodeCount, LeafFloor, Nodes, BagPeaks;
      ForestSizeOf(bodies);
      LeafFloorOfCount(|bodies|);
      var positions := PeakPositions(|nodes.nodes|);
      if positions.Err? {
        return Err(positions.error);
      }
      assert positions.value == PeaksOf(|bodies|);
      var root := RootFromPeaks(At(nodes.nodes, positions.value));
      return Ok(root);
    }

    /** Against the MMR as it stood when `toSeq` was appended. */
    method ProveRange(fromSeq: int, toSeq: int) returns (r: Result<RangeProof, string>)
      requires Valid()
      ensures r.Ok? <==> 1 <= fromSeq <= toSeq <= |bodies| && NodeCount(toSeq) < MAX_MMR_SIZE
      ensures r.Ok? ==> r.value == HonestProof(bodies, fromSeq, toSeq)
    {
      hide NodeCount, LeafFloor, Nodes, Range.AllSiblings;
      if fromSeq < 1 || toSeq < fromSeq {
        return Err("invalid range");
      }
      var size := NodeCount(toSeq);
      LeafFloorOfCount(toSeq);
      ForestSizeOf(bodies);
      if toSeq <= |bodies| {
        NodeCountMonotone(toSeq, |bodies|);
        ForestSizeOf(bodies[..toSeq]);
        Range.HonestFromGrown(bodies, toSeq, fromSeq - 1, toSeq - 1);
      } else {
        NodeCountMonotone(|bodies|, toSeq);
      }
      var proof := Range.ProveRange(nodes, fromSeq - 1, toSeq - 1, size);
      if proof.Err? {
        return Err(proof.error);
      }
      return Ok(RangeProof(fromSeq, toSeq, size, proof.value.fromIndex, proof.value.toIndex, proof.value.witnesses));
    }
  }

  lemma NoNodes()
    ensures Nodes([]) == []
  {
  }
}

module Segments {
  import opened Wrappers
  import opened Bytes
  import opened Lines
  import opened TextLines
  import opened Powers
  import opened Positions
  import opened Digests
  import opened Forest
  import opened Accumulators
  import opened CorePositions
  import opened LedgerSpec
  import opened MmrLedger
  import opened Unicode
  import Ledger
  import Range

  /** A closed segment's record; `digest` is the hash of its bytes, which stands for the bytes themselves. */
  datatype Manifest = Manifest(
    firstSeq: int, lastSeq: int, checkpointRoot: Hash, mmrSize: int,
    byteCount: nat, recordCount: nat, digest: seq<byte>, proof: RangeProof)

  function LineIds<R>(k: Codec<R>, lines: seq<seq<byte>>): (ids: seq<Hash>)
    requires AllLoad(k, lines)
    ensures |ids| == |lines| && forall i :: 0 <= i < |ids| ==> ids[i] == IdOf(k, lines[i])
  {
    seq(|lines|, i requires 0 <= i < |lines| => IdOf(k, lines[i]))
  }

  function SegmentIds<R>(k: Codec<R>, data: seq<byte>): seq<Hash>
    requires AllLoad(k, Whole(data))
  {
    LineIds(k, Whole(data))
  }

  /** All ids in segment order, repeated ones included. */
  function AllIds<R>(k: Codec<R>, segments: seq<seq<byte>>): seq<Hash>
    requires forall i | 0 <= i < |segments| :: AllLoad(k, Whole(segments[i]))
  {
    if segments == [] then []
    else AllIds(k, segments[..|segments| - 1]) + SegmentIds(k, segments[|segments| - 1])
  }

  predicate Distinct(ids: seq<Hash>) {
    forall i, j | 0 <= i < j < |ids| :: ids[i] != ids[j]
  }

  // ---- without duplicates, the index is the list of all lines -----------------------------

  lemma {:induction false} ExtendAll<R>(k: Codec<R>, lines: seq<seq<byte>>, segment: nat, offset: nat, rows: seq<Row>)
    requires AllLoad(k, lines) && Distinct(IdsOf(rows) + LineIds(k, lines))
    ensures var all := Extend(k, lines, segment, offset, rows);
            && IdsOf(all) == IdsOf(rows) + LineIds(k, lines) && rows <= all
            && forall i | |rows| <= i < |all| :: all[i].segment == segment
    decreases |lines|
  {
    hide IdOf;
    if lines == [] {
      assert IdsOf(rows) + LineIds(k, lines) == IdsOf(rows);
    } else {
      var id := IdOf(k, lines[0]);
      var ids := IdsOf(rows) + LineIds(k, lines);
      NotKnown(rows, LineIds(k, lines));
      var next := rows + [Row(|rows| + 1, id, segment, offset)];
      assert IdsOf(next) + LineIds(k, lines[1..]) == ids;
      ExtendAll(k, lines[1..], segment, offset + |lines[0]| + 1, next);
    }
  }

  lemma NotKnown(rows: seq<Row>, ids: seq<Hash>)
    requires ids != [] && Distinct(IdsOf(rows) + ids)
    ensures !Known(rows, ids[0])
  {
    var all := IdsOf(rows) + ids;
    forall i | 0 <= i < |rows|
      ensures rows[i].id != ids[0]
    {
      assert all[i] == rows[i].id && all[|rows|] == ids[0];
    }
  }

  lemma {:induction false} PlainIdeal<R>(k: Codec<R>, segments: seq<seq<byte>>)
    requires Loadable(k, segments) && Distinct(AllIds(k, segments))
    ensures IdsOf(Ideal(k, segments)) == AllIds(k, segments)
    decreases |segments|
  {
    hide Whole, Extend;
    if segments != [] {
      var n := |segments| - 1;
      DistinctPrefix(AllIds(k, segments[..n]), SegmentIds(k, segments[n]));
      PlainIdeal(k, segments[..n]);
      ExtendAll(k, Whole(segments[n]), n, 0, Ideal(k, segments[..n]));
    }
  }

  lemma DistinctPrefix(a: seq<Hash>, b: seq<Hash>)
    requires Distinct(a + b)
    ensures Distinct(a)
  {
    forall i, j | 0 <= i < j < |a|
      ensures a[i] != a[j]
    {
      assert (a + b)[i] == a[i] && (a + b)[j] == a[j];
    }
  }

  /** The rows of the last segment are the last rows. */
  lemma LastRows<R>(k: Codec<R>, segments: seq<seq<byte>>)
    requires segments != [] && Loadable(k, segments) && Distinct(AllIds(k, segments))
    ensures var n := |segments| - 1; var base := |AllIds(k, segments[..n])|; var rows := Ideal(k, segments);
            && |rows| == |AllIds(k, segments)| >= base
            && forall i | 0 <= i < |rows| :: rows[i].segment == n <==> i >= base
  {
    hide Whole, Extend;
    var n := |segments| - 1;
    PlainIdeal(k, segments);
    DistinctPrefix(AllIds(k, segments[..n]), SegmentIds(k, segments[n]));
    PlainIdeal(k, segments[..n]);
    IdealSegments(k, segments[..n]);
    ExtendAll(k, Whole(segments[n]), n, 0, Ideal(k, segments[..n]));
  }

  lemma {:induction false} AllIdsPrefix<R>(k: Codec<R>, segments: seq<seq<byte>>, n: nat)
    requires Loadable(k, segments) && n <= |segments|
    ensures AllIds(k, segments[..n]) <= AllIds(k, segments)
    decreases |segments|
  {
    hide Whole, SegmentIds;
    var m := |segments| - 1;
    if n == |segments| {
      assert segments[..n] == segments;
    } else {
      assert segments[..m][..n] == segments[..n];
      AllIdsPrefix(k, segments[..m], n);
    }
  }

  // ---- manifests tile the log ------------------------------------------------------------------

  /** Manifest `i` covers exactly the records of segment `i`, and proves them at the size where they end. */
  ghost predicate ManifestOk<R>(k: Codec<R>, segments: seq<seq<byte>>, i: nat, m: Manifest)
    requires Loadable(k, segments) && i < |segments|
  {
    var ids := AllIds(k, segments[..i + 1]);
    && m.firstSeq == |AllIds(k, segments[..i])| + 1 <= m.lastSeq == |ids|
    && m.mmrSize == NodeCount(|ids|) < MAX_MMR_SIZE
    && m.checkpointRoot == LogRoot(LeafHashes(ids))
    && m.byteCount == |segments[i]| && m.recordCount == |Whole(segments[i])| && m.digest == segments[i]
    && m.proof == HonestProof(ids, m.firstSeq, m.lastSeq)
  }

  ghost predicate Tiled<R>(k: Codec<R>, segments: seq<seq<byte>>, manifests: seq<Manifest>) {
    && Loadable(k, segments) && |segments| == |manifests| + 1
    && Distinct(AllIds(k, segments))
    && forall i | 0 <= i < |manifests| :: ManifestOk(k, segments, i, manifests[i])
  }

  /** Manifests depend only on the closed segments before them. */
  lemma TiledSame<R>(k: Codec<R>, segments: seq<seq<byte>>, more: seq<seq<byte>>, manifests: seq<Manifest>)
    requires Tiled(k, segments, manifests) && Loadable(k, more) && |more| == |segments|
    requires more[..|manifests|] == segments[..|manifests|] && Distinct(AllIds(k, more))
    ensures Tiled(k, more, manifests)
  {
    hide AllIds, HonestProof, NodeCount, LogRoot, Whole;
    forall i | 0 <= i < |manifests|
      ensures ManifestOk(k, more, i, manifests[i])
    {
      assert ManifestOk(k, segments, i, manifests[i]);
      assert more[..i + 1] == more[..|manifests|][..i + 1] == segments[..i + 1];
      assert more[..i] == more[..|manifests|][..i] == segments[..i];
      assert more[i] == more[..|manifests|][i] == segments[i];
    }
  }

  /** Recovery changes no whole line, and so no id. */
  lemma CutSame<R>(k: Codec<R>, segments: seq<seq<byte>>)
    requires ClosedWhole(segments) && Loadable(k, segments)
    ensures Loadable(k, Cut(segments)) && AllIds(k, Cut(segments)) == AllIds(k, segments)
  {
    hide Whole, Torn, Cut;
    CutIsWhole(k, segments);
  }

  /** An append adds its id at the end, or none. */
  lemma AppendTiles<R(!new)>(k: Codec<R>, s: Store, record: R, outcome: Outcome, manifests: seq<Manifest>)
    requires Faithful(k) && InSync(k, s) && !s.needsRecover && Possible(k, record, outcome)
    requires Tiled(k, s.segments, manifests)
    ensures var t := Appended(k, s, record, outcome).0;
            Loadable(k, t.segments) && Tiled(k, t.segments, manifests)
  {
    hide Whole, Torn, Extend, Known, Ideal, Faithful, AllIds, ManifestOk, Cut;
    if !Known(s.rows, k.idOf(record)) {
      var t := Appended(k, s, record, outcome).0;
      var n := |s.segments| - 1;
      AppendKeeps(k, s, record, outcome);
      RecoverableLoads(k, t);
      assert t.segments[..n] == s.segments[..n];
      match outcome {
        case Done(looked) =>
          MoreIds(k, s, record);
        case Broken(written, indexed) =>
          BrokenLeaves(k, s, record, written, indexed);
          CutSame(k, t.segments);
          if written == |k.dump(record)| + 1 {
            MoreIds(k, s, record);
          }
      }
      TiledSame(k, s.segments, t.segments, manifests);
    }
  }

  lemma RecoverableLoads<R>(k: Codec<R>, s: Store)
    ensures Recoverable(k, s) || InSync(k, s) ==> ClosedWhole(s.segments) && Loadable(k, s.segments)
  {
  }

  lemma MoreIds<R(!new)>(k: Codec<R>, s: Store, record: R)
    requires Faithful(k) && InSync(k, s) && !s.needsRecover && !Known(s.rows, k.idOf(record))
    requires Distinct(AllIds(k, s.segments))
    ensures var t := Appended(k, s, record, Done(true)).0;
            && Loadable(k, t.segments) && t.segments == Appended(k, s, record, Done(false)).0.segments
            && AllIds(k, t.segments) == AllIds(k, s.segments) + [k.idOf(record)]
            && Distinct(AllIds(k, t.segments))
  {
    hide Whole, Torn, Extend, Ideal, Faithful, IdOf, AllIds, Distinct, Known;
    LineFacts(k, record);
    var line := k.dump(record);
    var n := |s.segments| - 1;
    IdealMore(k, s.segments, line);
    AllIdsMore(k, s.segments, line);
    PlainIdeal(k, s.segments);
    var ids := AllIds(k, s.segments);
    forall i | 0 <= i < |ids|
      ensures ids[i] != k.idOf(record)
    {
      NotThere(s.rows, k.idOf(record), i);
    }
    DistinctSnoc(ids, k.idOf(record));
  }

  lemma NotThere(rows: seq<Row>, id: Hash, i: nat)
    requires !Known(rows, id) && i < |rows|
    ensures IdsOf(rows)[i] != id
  {
  }

  lemma DistinctSnoc(ids: seq<Hash>, id: Hash)
    requires Distinct(ids) && forall i | 0 <= i < |ids| :: ids[i] != id
    ensures Distinct(ids + [id])
  {
  }

  lemma AllIdsMore<R>(k: Codec<R>, segments: seq<seq<byte>>, line: seq<byte>)
    requires segments != [] && Loadable(k, segments) && Torn(segments[|segments| - 1]) == []
    requires NEWLINE !in line && k.load(line).Some?
    ensures var n := |segments| - 1;
            var more := segments[..n] + [segments[n] + (line + [NEWLINE])];
            Loadable(k, more) && AllIds(k, more) == AllIds(k, segments) + [IdOf(k, line)]
  {
    hide Whole, Torn, IdOf;
    var n := |segments| - 1;
    WholeMore(segments[n], line);
    var more := segments[..n] + [segments[n] + (line + [NEWLINE])];
    assert more[..n] == segments[..n];
    assert SegmentIds(k, more[n]) == SegmentIds(k, segments[n]) + [IdOf(k, line)];
  }

  // ---- rotation ---------------------------------------------------------------------------------

  /** Closing a non-empty active segment adds its manifest and opens an empty one. */
  function ClosingManifest<R>(k: Codec<R>, segments: seq<seq<byte>>): Manifest
    requires segments != [] && Loadable(k, segments) && SegmentIds(k, segments[|segments| - 1]) != []
  {
    var n := |segments| - 1;
    var ids, first := AllIds(k, segments), |AllIds(k, segments[..n])| + 1;
    Manifest(first, |ids|, LogRoot(LeafHashes(ids)), NodeCount(|ids|),
             |segments[n]|, |Whole(segments[n])|, segments[n], HonestProof(ids, first, |ids|))
  }

  lemma EmptySegment()
    ensures Whole([]) == [] && Torn([]) == []
  {
  }

  /** Rotation keeps the tiling: the new manifest starts right after the last one ended. */
  lemma RotateTiles<R>(k: Codec<R>, segments: seq<seq<byte>>, manifests: seq<Manifest>)
    requires Tiled(k, segments, manifests) && SegmentIds(k, segments[|segments| - 1]) != []
    requires NodeCount(|AllIds(k, segments)|) < MAX_MMR_SIZE
    ensures Tiled(k, segments + [[]], manifests + [ClosingManifest(k, segments)])
  {
    hide Whole, Torn, HonestProof, NodeCount, LogRoot, AllLoad;
    EmptySegment();
    AllLoadNone(k);
    var n := |segments| - 1;
    var more, all := segments + [[]], manifests + [ClosingManifest(k, segments)];
    assert more[..n + 1] == segments;
    assert AllIds(k, more) == AllIds(k, segments) by {
      assert SegmentIds(k, []) == [];
    }
    forall i | 0 <= i < |all|
      ensures ManifestOk(k, more, i, all[i])
    {
      assert more[..i + 1] == segments[..i + 1] && more[..i] == segments[..i];
      if i < n {
        assert ManifestOk(k, segments, i, manifests[i]);
      } else {
        assert segments[..n + 1] == segments;
      }
    }
  }

  lemma AllLoadNone<R>(k: Codec<R>)
    ensures AllLoad(k, [])
  {
  }

  /** Rotation adds no record, so files and indexes stay in step. */
  lemma RotateInSync<R>(k: Codec<R>, s: Store)
    requires InSync(k, s)
    ensures InSync(k, s.(segments := s.segments + [[]]))
  {
    hide Whole, Torn, AllLoad, Partial, Full;
    EmptySegment();
    AllLoadNone(k);
    var n := |s.segments|;
    var more := s.segments + [[]];
    assert more[..n] == s.segments;
    assert more[n] == [] && forall i | 0 <= i < n :: more[i] == s.segments[i];
    ExtendNoLines(k, n, s.rows);
  }

  lemma ExtendNoLines<R>(k: Codec<R>, segment: nat, rows: seq<Row>)
    ensures AllLoad(k, []) && Extend(k, [], segment, 0, rows) == rows
  {
  }

  /** Closed segments tile seqs 1 to the last closed one, without gap or overlap. */
  lemma SegmentsTile<R>(k: Codec<R>, segments: seq<seq<byte>>, manifests: seq<Manifest>, i: nat)
    requires Tiled(k, segments, manifests) && i < |manifests|
    ensures manifests[i].firstSeq == if i == 0 then 1 else manifests[i - 1].lastSeq + 1
    ensures manifests[i].firstSeq <= manifests[i].lastSeq
    ensures manifests[i].mmrSize == NodeCount(manifests[i].lastSeq)
  {
    hide Whole, HonestProof, NodeCount, LogRoot, AllLoad;
    assert ManifestOk(k, segments, i, manifests[i]);
    if i > 0 {
      assert ManifestOk(k, segments, i - 1, manifests[i - 1]);
    } else {
      assert segments[..0] == [];
    }
  }

  // ---- whole runs ------------------------------------------------------------------------------

  /** `saved`: how many closed segments the store manifest on disk lists; the next one is active after a restart. */
  datatype Managed = Managed(store: Store, manifests: seq<Manifest>, saved: nat)

  /**
    How a rotation that is due ends: the store manifest is saved; it is not,
    although this process goes on with the new segment; or an earlier step
    fails or the process dies, and the old segment stays active.
  */
  datatype Rotation = Saved | Unsaved | NotReached

  ghost predicate SoundManaged<R>(k: Codec<R>, m: Managed) {
    && Sound(k, m.store) && Tiled(k, m.store.segments, m.manifests) && m.saved <= |m.manifests|
  }

  /** A step of the store, and a rotation when a finished append filled the active segment. */
  function ManagedStep<R>(k: Codec<R>, maxBytes: nat, m: Managed, e: Event<R>, rotation: Rotation): (t: Option<Managed>)
    requires m.store.segments != [] && (e.AppendEvent? ==> Possible(k, e.record, e.outcome))
  {
    var t := m.(store := Step(k, m.store, e));
    if e.AppendEvent? && Appended(k, m.store, e.record, e.outcome).1.Ok? then Some(Rotated(k, maxBytes, t, rotation))
    else if e.Restart? then Reopened(t)
    else Some(t)
  }

  /**
    A restart knows the segments that the store manifest on disk lists.  A new one
    that is not listed is forgotten while it is empty; `None` when it is not.
  */
  function Reopened(m: Managed): Option<Managed> {
    if m.saved >= |m.manifests| then Some(m)
    else if m.saved + 1 == |m.manifests| && |m.store.segments| == m.saved + 2 && m.store.segments[m.saved + 1] == []
    then Some(Managed(m.store.(segments := m.store.segments[..m.saved + 1]), m.manifests[..m.saved], m.saved))
    else None
  }

  function Rotated<R>(k: Codec<R>, maxBytes: nat, m: Managed, rotation: Rotation): Managed {
    var segments := m.store.segments;
    if && rotation != NotReached && segments != [] && |segments[|segments| - 1]| >= maxBytes
       && (forall i | 0 <= i < |segments| :: AllLoad(k, Whole(segments[i])))
       && SegmentIds(k, segments[|segments| - 1]) != [] && NodeCount(|AllIds(k, segments)|) < MAX_MMR_SIZE
    then Managed(m.store.(segments := segments + [[]]), m.manifests + [ClosingManifest(k, segments)],
                 if rotation == Saved then |m.manifests| + 1 else m.saved)
    else m
  }

  /** Appends with rotation, crashes, restarts and recoveries all keep the tiling. */
  lemma ManagedKeeps<R(!new)>(k: Codec<R>, maxBytes: nat, m: Managed, e: Event<R>, rotation: Rotation)
    requires Faithful(k) && SoundManaged(k, m) && m.store.segments != []
    requires e.AppendEvent? ==> Possible(k, e.record, e.outcome)
    ensures var t := ManagedStep(k, maxBytes, m, e, rotation);
            t.Some? ==> SoundManaged(k, t.value) && t.value.store.segments != []
  {
    hide InSync, Recoverable, Tiled, Appended, Recovered, Interrupted, Possible, Faithful, ClosingManifest, Rotated,
      Reopened;
    StepKeeps(k, m.store, e);
    match e
    case AppendEvent(record, outcome) =>
      if m.store.needsRecover {
        RefusedAppend(k, m.store, record, outcome);
      } else {
        AppendTiles(k, m.store, record, outcome, m.manifests);
        if Appended(k, m.store, record, outcome).1.Ok? {
          FinishedAppend(k, m.store, record, outcome);
          RotatedKeeps(k, maxBytes, m.(store := Step(k, m.store, e)), rotation);
        }
      }
    case RecoverEvent(disk) => RecoverTiles(k, m, disk);
    case RecoverBroken(disk, progress) => InterruptedTiles(k, m, disk, progress);
    case Restart => ReopenedKeeps(k, m.(store := Step(k, m.store, e)));
  }

  /**
    A finished append rotates exactly when its line makes the active segment large enough, and the
    MMR takes the records.
  */
  lemma RotatesExactly<R(!new)>(k: Codec<R>, maxBytes: nat, m: Managed, record: R, looked: bool, rotation: Rotation)
    requires Faithful(k) && SoundManaged(k, m) && !m.store.needsRecover && !Known(m.store.rows, k.idOf(record))
    ensures m.store.segments != []
    ensures var t := ManagedStep(k, maxBytes, m, AppendEvent(record, Done(looked)), rotation);
            var n := |m.store.segments| - 1;
            var rotates := rotation != NotReached && |m.store.segments[n]| + |k.dump(record)| + 1 >= maxBytes
                           && NodeCount(|m.store.rows| + 1) < MAX_MMR_SIZE;
            && t.Some?
            && |t.value.manifests| == |m.manifests| + (if rotates then 1 else 0)
            && |t.value.store.segments| == n + 1 + (if rotates then 1 else 0)
            && t.value.saved == if rotates && rotation == Saved then |m.manifests| + 1 else m.saved
  {
    hide Whole, Torn, Extend, Ideal, Faithful, AllIds, SegmentIds, ManifestOk, Known, NodeCount, ClosingManifest,
      Distinct, Partial, Full;
    InSyncNonEmpty(k, m.store);
    var s, n := m.store, |m.store.segments| - 1;
    var t := Appended(k, s, record, Done(looked)).0;
    AppendTiles(k, s, record, Done(looked), m.manifests);
    MoreIds(k, s, record);
    PlainIdeal(k, s.segments);
    LineFacts(k, record);
    AllIdsMore(k, s.segments, k.dump(record));
    AllIdsSplit(k, t.segments, n);
    assert t.segments[..n + 1] == t.segments && t.segments[..n] == s.segments[..n];
    AllIdsPrefix(k, s.segments, n);
  }

  /** A segment that is not listed, and empty, can be forgotten. */
  lemma ReopenedKeeps<R>(k: Codec<R>, m: Managed)
    requires Recoverable(k, m.store) && m.store.needsRecover && Tiled(k, m.store.segments, m.manifests)
    requires m.saved <= |m.manifests|
    ensures var t := Reopened(m); t.Some? ==> SoundManaged(k, t.value) && t.value.store.segments != []
  {
    hide Whole, Torn, Extend, Partial, AllIds, Distinct, ManifestOk, Ideal, AllLoad;
    var t := Reopened(m);
    if t.Some? && t.value != m {
      var all, n := m.store.segments, m.saved;
      var done: nat :| IndexedTo(k, m.store, done);
      EmptySegment();
      NoRows(k, n + 1, done, Ideal(k, all[..n + 1]));
      var kept := all[..n + 1];
      IdealLast(k, kept);
      assert kept[..n] == all[..n];
      var lines := Whole(kept[n]);
      assert lines[..|lines|] == lines;
      assert IndexedTo(k, t.value.store, |lines|);
      TiledShort(k, all, m.manifests);
    }
  }

  lemma NoRows<R>(k: Codec<R>, segment: nat, done: nat, rows: seq<Row>)
    requires done <= 0
    ensures Whole([])[..done] == [] && AllLoad(k, []) && Extend(k, [], segment, 0, rows) == rows
  {
  }

  lemma TiledShort<R>(k: Codec<R>, segments: seq<seq<byte>>, manifests: seq<Manifest>)
    requires Tiled(k, segments, manifests) && |manifests| > 0
    ensures var n := |manifests| - 1; Tiled(k, segments[..n + 1], manifests[..n])
  {
    hide Whole, AllLoad, AllIds, HonestProof, NodeCount, LogRoot;
    var n := |manifests| - 1;
    var kept := segments[..n + 1];
    AllIdsPrefix(k, segments, n + 1);
    var ids := AllIds(k, segments);
    assert ids == AllIds(k, kept) + ids[|AllIds(k, kept)|..];
    DistinctPrefix(AllIds(k, kept), ids[|AllIds(k, kept)|..]);
    forall i | 0 <= i < n
      ensures ManifestOk(k, kept, i, manifests[..n][i])
    {
      assert ManifestOk(k, segments, i, manifests[i]);
      assert kept[..i + 1] == segments[..i + 1] && kept[..i] == segments[..i];
    }
  }

  lemma FinishedAppend<R>(k: Codec<R>, s: Store, record: R, outcome: Outcome)
    requires s.segments != [] && Possible(k, record, outcome) && Appended(k, s, record, outcome).1.Ok?
    ensures !Appended(k, s, record, outcome).0.needsRecover
  {
  }

  lemma RotatedKeeps<R>(k: Codec<R>, maxBytes: nat, m: Managed, rotation: Rotation)
    requires InSync(k, m.store) && !m.store.needsRecover && Tiled(k, m.store.segments, m.manifests)
    requires m.saved <= |m.manifests|
    ensures var t := Rotated(k, maxBytes, m, rotation);
            && t.saved <= |t.manifests|
            && InSync(k, t.store) && !t.store.needsRecover
            && Tiled(k, t.store.segments, t.manifests) && t.store.segments != []
  {
    hide InSync, Tiled, ClosingManifest, SegmentIds, AllIds, NodeCount, AllLoad, Whole;
    InSyncNonEmpty(k, m.store);
    if Rotated(k, maxBytes, m, rotation) != m {
      RotateTiles(k, m.store.segments, m.manifests);
      RotateInSync(k, m.store);
    }
  }

  lemma InSyncNonEmpty<R>(k: Codec<R>, s: Store)
    requires InSync(k, s)
    ensures s.segments != []
  {
  }

  lemma RecoverTiles<R>(k: Codec<R>, m: Managed, disk: LookupDisk)
    requires Sound(k, m.store) && Tiled(k, m.store.segments, m.manifests) && m.store.segments != []
    ensures Recovered(k, m.store, disk).1.Ok? && Tiled(k, Recovered(k, m.store, disk).0.segments, m.manifests)
  {
    hide InSync, Recoverable, Recovered, AllIds, ManifestOk, Distinct, Cut;
    if !m.store.needsRecover {
      InSyncRecoverable(k, m.store);
    }
    RecoverReconciles(k, m.store, disk);
    RecoverableLoads(k, m.store);
    CutSame(k, m.store.segments);
    CutIsWhole(k, m.store.segments);
    var n := |m.store.segments| - 1;
    assert Cut(m.store.segments)[..n] == m.store.segments[..n];
    TiledSame(k, m.store.segments, Cut(m.store.segments), m.manifests);
  }

  /** A recovery that breaks off changes no whole line either. */
  lemma InterruptedTiles<R>(k: Codec<R>, m: Managed, disk: LookupDisk, progress: Progress)
    requires Sound(k, m.store) && Tiled(k, m.store.segments, m.manifests) && m.store.segments != []
    ensures Tiled(k, Interrupted(k, m.store, disk, progress).segments, m.manifests)
  {
    hide InSync, Recoverable, Recovered, Interrupted, AllIds, ManifestOk, Distinct, Cut;
    if !m.store.needsRecover {
      InSyncRecoverable(k, m.store);
    }
    var to := InterruptedIs(k, m.store, disk, progress);
    RecoverTiles(k, m, disk);
    RecoverReconciles(k, m.store, disk);
  }

  type ManagedRun<R> = seq<(Event<R>, Rotation)>

  predicate PossibleRun<R>(k: Codec<R>, events: ManagedRun<R>) {
    forall i | 0 <= i < |events| ::
      var e := events[i].0; e.AppendEvent? ==> Possible(k, e.record, e.outcome)
  }

  const EMPTY := Managed(Store([[]], [], [], true, false), [], 0)

  /** A run of the store; `None` once a restart has forgotten a segment with records. */
  function RunManaged<R>(k: Codec<R>, maxBytes: nat, events: ManagedRun<R>): (m: Option<Managed>)
    requires PossibleRun(k, events)
    ensures m.Some? ==> m.value.store.segments != []
  {
    if events == [] then Some(EMPTY)
    else
      var n := |events| - 1;
      match RunManaged(k, maxBytes, events[..n])
      case None => None
      case Some(m) =>
        var t := ManagedStep(k, maxBytes, m, events[n].0, events[n].1);
        if t.Some? && t.value.store.segments == [] then None else t
  }

  /** After every run, manifests tile the log, and the store is in step with its index or recoverable. */
  lemma {:induction false} RunTiles<R(!new)>(k: Codec<R>, maxBytes: nat, events: ManagedRun<R>)
    requires Faithful(k) && PossibleRun(k, events)
    ensures RunManaged(k, maxBytes, events).Some? ==> SoundManaged(k, RunManaged(k, maxBytes, events).value)
    decreases |events|
  {
    hide SoundManaged, ManagedStep, Possible, Faithful;
    if events == [] {
      EmptyManaged(k);
    } else {
      var n := |events| - 1;
      assert events[n] in events;
      RunTiles(k, maxBytes, events[..n]);
      var m := RunManaged(k, maxBytes, events[..n]);
      if m.Some? {
        ManagedKeeps(k, maxBytes, m.value, events[n].0, events[n].1);
      }
    }
  }

  /** While every store manifest is saved, or no restart happens, no segment is forgotten. */
  lemma {:induction false} NeverAstray<R(!new)>(k: Codec<R>, maxBytes: nat, events: ManagedRun<R>)
    requires Faithful(k) && PossibleRun(k, events)
    requires (forall e <- events :: e.1 != Unsaved) || (forall e <- events :: !e.0.Restart?)
    ensures var m := RunManaged(k, maxBytes, events);
            m.Some? && ((forall e <- events :: e.1 != Unsaved) ==> m.value.saved == |m.value.manifests|)
    decreases |events|
  {
    hide SoundManaged, Possible, Faithful, Step, Appended, ClosingManifest, AllIds, SegmentIds, AllLoad, NodeCount;
    if events != [] {
      var n := |events| - 1;
      assert events[n] in events;
      NeverAstray(k, maxBytes, events[..n]);
      RunTiles(k, maxBytes, events[..n]);
      var m := RunManaged(k, maxBytes, events[..n]);
      ManagedKeeps(k, maxBytes, m.value, events[n].0, events[n].1);
    }
  }

  /** A restart forgets records exactly when a segment that the store manifest on disk does not list holds bytes. */
  lemma RestartStrays<R(!new)>(k: Codec<R>, maxBytes: nat, m: Managed, rotation: Rotation)
    requires SoundManaged(k, m)
    ensures m.store.segments != []
    ensures ManagedStep(k, maxBytes, m, Restart, rotation).None? <==>
            exists i | m.saved < i < |m.store.segments| :: m.store.segments[i] != []
  {
    hide Sound, Whole, AllIds, HonestProof, NodeCount, LogRoot, AllLoad, Distinct;
    var all := m.store.segments;
    forall i: nat | i < |m.manifests|
      ensures all[i] != []
    {
      assert ManifestOk(k, all, i, m.manifests[i]);
      AllIdsSplit(k, all, i);
      EmptySegment();
    }
    if m.saved + 1 < |m.manifests| {
      assert all[m.saved + 1] != [];
    }
  }

  lemma EmptyManaged<R>(k: Codec<R>)
    ensures SoundManaged(k, EMPTY)
  {
    Ledger.EmptyInSync(k);
    assert AllIds(k, [[]]) == [];
  }

  // ---- verifying a segment from its bytes and manifest alone -------------------------------------

  /** The text lines of a segment that are not blank. */
  function RecordLines(data: seq<byte>): seq<seq<byte>> {
    NonBlank(SplitLines(data))
  }

  /** What `verify_segment` accepts. */
  ghost predicate SegmentAccepts<R>(k: Codec<R>, data: seq<byte>, m: Manifest) {
    var lines := RecordLines(data);
    && m.digest == data && Utf8(data) && |lines| == m.recordCount && m.lastSeq - m.firstSeq + 1 == m.recordCount
    && AllLoad(k, lines)
    && MmrLedger.Accepts(m.checkpointRoot, m.firstSeq, m.lastSeq, LineIds(k, lines), m.proof)
  }

  method VerifySegment<R>(k: Codec<R>, data: seq<byte>, m: Manifest) returns (ok: bool)
    ensures ok <==> SegmentAccepts(k, data, m)
  {
    hide MmrLedger.Accepts, RecordLines, Utf8;
    if data != m.digest || !Utf8(data) {
      return false;
    }
    var lines := RecordLines(data);
    if |lines| != m.recordCount || m.lastSeq - m.firstSeq + 1 != m.recordCount {
      return false;
    }
    var bodies: seq<Hash> := [];
    for i := 0 to |lines|
      invariant AllLoad(k, lines[..i]) && bodies == LineIds(k, lines[..i])
    {
      var record := k.load(lines[i]);
      if record.None? {
        return false;
      }
      assert LineIds(k, lines[..i + 1]) == LineIds(k, lines[..i]) + [k.idOf(record.value)];
      bodies := bodies + [k.idOf(record.value)];
    }
    assert lines[..|lines|] == lines;
    ok := MmrLedger.VerifyRange(m.checkpointRoot, m.firstSeq, m.lastSeq, bodies, m.proof);
  }

  lemma {:induction false} AllIdsSplit<R>(k: Codec<R>, segments: seq<seq<byte>>, i: nat)
    requires Loadable(k, segments) && i < |segments|
    ensures AllIds(k, segments[..i + 1]) == AllIds(k, segments[..i]) + SegmentIds(k, segments[i])
  {
    hide Whole, SegmentIds;
    assert segments[..i + 1][..i] == segments[..i];
  }

  /** Every line of every segment is plain text. */
  ghost predicate AllPlain(segments: seq<seq<byte>>) {
    forall i, j | 0 <= i < |segments| && 0 <= j < |Whole(segments[i])| :: Plain(Whole(segments[i])[j])
  }

  /** Every closed segment of plain lines verifies against its manifest. */
  lemma ClosedVerifies<R>(k: Codec<R>, segments: seq<seq<byte>>, manifests: seq<Manifest>, i: nat)
    requires Tiled(k, segments, manifests) && i < |manifests| && ClosedWhole(segments)
    requires forall j | 0 <= j < |Whole(segments[i])| :: Plain(Whole(segments[i])[j])
    ensures SegmentAccepts(k, segments[i], manifests[i])
  {
    hide Whole, Torn, HonestProof, NodeCount, LogRoot, AllIds, MmrLedger.Accepts, LineIds, Plain, Utf8, SplitLines,
      NonBlank;
    var m, data := manifests[i], segments[i];
    assert ManifestOk(k, segments, i, m);
    AllIdsSplit(k, segments, i);
    FileIsLines(data);
    assert Unlines(Whole(data)) + [] == Unlines(Whole(data));
    PlainLines(Whole(data));
    var ids := AllIds(k, segments[..i + 1]);
    var bodies := SegmentIds(k, data);
    assert ids[..|ids|] == ids;
    assert bodies == ids[m.firstSeq - 1..m.lastSeq];
    ProofExact(ids, |ids|, m.firstSeq, bodies, m.proof);
  }

  // ---- lines stay plain --------------------------------------------------------------------------

  lemma PlainAppend<R(!new)>(k: Codec<R>, s: Store, record: R, outcome: Outcome)
    requires Faithful(k) && InSync(k, s) && !s.needsRecover && Possible(k, record, outcome)
    requires AllPlain(s.segments) && Plain(k.dump(record))
    ensures AllPlain(Appended(k, s, record, outcome).0.segments)
  {
    hide Torn, Whole, Ideal, Partial, Full, Known, AllLoad, Plain;
    var t := Appended(k, s, record, outcome).0;
    var n, line := |s.segments| - 1, k.dump(record);
    LineFacts(k, record);
    WholeMore(s.segments[n], line);
    if outcome.Broken? && outcome.written < |line| + 1 {
      assert (line + [NEWLINE])[..outcome.written] == line[..outcome.written];
      WholePart(s.segments[n], line[..outcome.written]);
    } else if outcome.Broken? {
      assert (line + [NEWLINE])[..outcome.written] == line + [NEWLINE];
    }
    forall i, j | 0 <= i < |t.segments| && 0 <= j < |Whole(t.segments[i])|
      ensures Plain(Whole(t.segments[i])[j])
    {
      if i < n {
        assert t.segments[i] == s.segments[i];
      }
    }
  }

  lemma PlainCut(segments: seq<seq<byte>>)
    requires segments != [] && AllPlain(segments)
    ensures AllPlain(Cut(segments))
  {
    hide Torn, Whole, Plain, Unlines;
    var n := |segments| - 1;
    FileIsLines(segments[n]);
    LinesOfFile(Whole(segments[n]), []);
    assert Unlines(Whole(segments[n])) + [] == Unlines(Whole(segments[n]));
    assert forall i | 0 <= i < n :: Cut(segments)[i] == segments[i];
  }

  lemma PlainRotated<R>(k: Codec<R>, maxBytes: nat, m: Managed, rotation: Rotation)
    requires AllPlain(m.store.segments)
    ensures AllPlain(Rotated(k, maxBytes, m, rotation).store.segments)
  {
    hide Whole, Plain, SegmentIds, AllIds, NodeCount, ClosingManifest, AllLoad;
    EmptySegment();
  }

  lemma {:induction false} RunPlain<R(!new)>(k: Codec<R>, maxBytes: nat, events: ManagedRun<R>)
    requires Faithful(k) && (forall r :: Plain(k.dump(r))) && PossibleRun(k, events)
    ensures var m := RunManaged(k, maxBytes, events); m.Some? ==> AllPlain(m.value.store.segments)
    decreases |events|
  {
    hide AllPlain, Possible, Faithful, ManagedStep, Plain;
    if events == [] {
      NothingPlain();
    } else {
      var n := |events| - 1;
      assert events[n] in events;
      RunPlain(k, maxBytes, events[..n]);
      RunTiles(k, maxBytes, events[..n]);
      var m := RunManaged(k, maxBytes, events[..n]);
      if m.Some? {
        PlainStep(k, maxBytes, m.value, events[n].0, events[n].1);
      }
    }
  }

  lemma PlainStep<R(!new)>(k: Codec<R>, maxBytes: nat, m: Managed, e: Event<R>, rotation: Rotation)
    requires Faithful(k) && (forall r :: Plain(k.dump(r))) && SoundManaged(k, m) && AllPlain(m.store.segments)
    requires m.store.segments != [] && (e.AppendEvent? ==> Possible(k, e.record, e.outcome))
    ensures var t := ManagedStep(k, maxBytes, m, e, rotation); t.Some? ==> AllPlain(t.value.store.segments)
  {
    hide AllPlain, Possible, Faithful, InSync, Recoverable, Tiled, Appended, Recovered, Interrupted, Rotated, Cut,
      Plain;
    if !m.store.needsRecover {
      InSyncRecoverable(k, m.store);
    }
    match e
    case AppendEvent(record, outcome) =>
      if m.store.needsRecover {
        RefusedAppend(k, m.store, record, outcome);
      } else {
        PlainAppend(k, m.store, record, outcome);
      }
      PlainRotated(k, maxBytes, m.(store := Step(k, m.store, e)), rotation);
    case RecoverEvent(disk) =>
      RecoverReconciles(k, m.store, disk);
      PlainCut(m.store.segments);
    case RecoverBroken(disk, progress) =>
      var to := InterruptedIs(k, m.store, disk, progress);
      PlainCut(m.store.segments);
    case Restart => PlainPrefix(m.store.segments);
  }

  lemma PlainPrefix(segments: seq<seq<byte>>)
    requires AllPlain(segments)
    ensures forall n: nat | n <= |segments| :: AllPlain(segments[..n])
  {
    hide Whole, Plain;
  }

  lemma NothingPlain()
    ensures AllPlain([[]])
  {
    EmptySegment();
  }

  /** After every run over records written as plain text, each closed segment verifies from its bytes and manifest. */
  lemma RunVerifies<R(!new)>(k: Codec<R>, maxBytes: nat, events: ManagedRun<R>, i: nat)
    requires Faithful(k) && (forall r :: Plain(k.dump(r))) && PossibleRun(k, events)
    requires RunManaged(k, maxBytes, events).Some? && i < |RunManaged(k, maxBytes, events).value.manifests|
    ensures var m := RunManaged(k, maxBytes, events).value;
            && |m.manifests| < |m.store.segments|
            && forall data :: SegmentAccepts(k, data, m.manifests[i]) <==> data == m.store.segments[i]
  {
    hide RunManaged, Faithful, PossibleRun, Plain, SegmentAccepts, ManifestOk, Whole, Torn, AllLoad;
    RunTiles(k, maxBytes, events);
    RunPlain(k, maxBytes, events);
    var m := RunManaged(k, maxBytes, events).value;
    RecoverableLoads(k, m.store);
    forall data
      ensures SegmentAccepts(k, data, m.manifests[i]) <==> data == m.store.segments[i]
    {
      ClosedExact(k, m.store.segments, m.manifests, i, data);
    }
  }

  // ---- what an accepted segment says ------------------------------------------------------------

  /** Against an honest root at the range's end, an accepted segment holds exactly the log's ids of its seq range. */
  lemma AcceptedIsExact<R>(k: Codec<R>, ids: seq<Hash>, data: seq<byte>, m: Manifest)
    requires SegmentAccepts(k, data, m)
    requires 1 <= m.lastSeq <= |ids| && NodeCount(m.lastSeq) < MAX_MMR_SIZE
    requires m.checkpointRoot == LogRoot(LeafHashes(ids[..m.lastSeq]))
    ensures 1 <= m.firstSeq <= m.lastSeq && LineIds(k, RecordLines(data)) == ids[m.firstSeq - 1..m.lastSeq]
    ensures m.proof == HonestProof(ids, m.firstSeq, m.lastSeq)
  {
    hide HonestProof, NodeCount, LogRoot, RecordLines, LineIds, LeafFloor, Complete;
    AcceptedSize(m.checkpointRoot, m.firstSeq, m.lastSeq, LineIds(k, RecordLines(data)), m.proof);
    ProofExact(ids, m.lastSeq, m.firstSeq, LineIds(k, RecordLines(data)), m.proof);
  }

  /**
    Exactness: against an honest root at the range's end, accepted are exactly the
    sealed bytes, when they are text of as many records as the manifest says, under
    exactly the log's ids of its seq range, with exactly the honest proof.
  */
  lemma SegmentExact<R>(k: Codec<R>, ids: seq<Hash>, data: seq<byte>, m: Manifest)
    requires 1 <= m.lastSeq <= |ids| && NodeCount(m.lastSeq) < MAX_MMR_SIZE
    requires m.checkpointRoot == LogRoot(LeafHashes(ids[..m.lastSeq]))
    ensures SegmentAccepts(k, data, m) <==>
            && 1 <= m.firstSeq <= m.lastSeq && m.recordCount == m.lastSeq - m.firstSeq + 1
            && data == m.digest && (exists cs :: AllScalars(cs) && data == EncodeScalars(cs))
            && |RecordLines(data)| == m.recordCount
            && (forall i | 0 <= i < m.recordCount ::
                  var record := k.load(RecordLines(data)[i]);
                  record.Some? && k.idOf(record.value) == ids[m.firstSeq - 1 + i])
            && m.proof == HonestProof(ids, m.firstSeq, m.lastSeq)
  {
    hide HonestProof, NodeCount, LogRoot, RecordLines, LeafFloor, Complete, Utf8, AllScalars, EncodeScalars,
      MmrLedger.Accepts;
    Utf8Exact(data);
    var lines := RecordLines(data);
    if 1 <= m.firstSeq <= m.lastSeq {
      var want := ids[m.firstSeq - 1..m.lastSeq];
      HonestSize(ids, m.firstSeq, m.lastSeq);
      if AllLoad(k, lines) {
        ProofExact(ids, m.lastSeq, m.firstSeq, LineIds(k, lines), m.proof);
        if MmrLedger.Accepts(m.checkpointRoot, m.firstSeq, m.lastSeq, LineIds(k, lines), m.proof) {
          AcceptedSize(m.checkpointRoot, m.firstSeq, m.lastSeq, LineIds(k, lines), m.proof);
        }
        if && |lines| == |want|
           && forall i | 0 <= i < |lines| :: k.load(lines[i]).Some? && IdOf(k, lines[i]) == want[i] {
          assert LineIds(k, lines) == want;
        }
      }
    } else if && AllLoad(k, lines)
              && MmrLedger.Accepts(m.checkpointRoot, m.firstSeq, m.lastSeq, LineIds(k, lines), m.proof) {
      AcceptedSize(m.checkpointRoot, m.firstSeq, m.lastSeq, LineIds(k, lines), m.proof);
    }
  }

  lemma HonestSize(ids: seq<Hash>, from: nat, to: nat)
    requires 1 <= from <= to <= |ids|
    ensures HonestProof(ids, from, to).size == NodeCount(to)
  {
    hide NodeCount;
  }

  /** A closed segment's manifest is accepted with the segment's own bytes, and with no others. */
  lemma ClosedExact<R>(k: Codec<R>, segments: seq<seq<byte>>, manifests: seq<Manifest>, i: nat, data: seq<byte>)
    requires Tiled(k, segments, manifests) && i < |manifests| && ClosedWhole(segments)
    requires forall j | 0 <= j < |Whole(segments[i])| :: Plain(Whole(segments[i])[j])
    ensures SegmentAccepts(k, data, manifests[i]) <==> data == segments[i]
  {
    hide Whole, Torn, HonestProof, NodeCount, LogRoot, AllIds, MmrLedger.Accepts, LineIds, Plain, Utf8, RecordLines;
    ClosedVerifies(k, segments, manifests, i);
    assert ManifestOk(k, segments, i, manifests[i]);
  }

  lemma AcceptedSize(root: Hash, fromSeq: int, toSeq: int, bodies: seq<Hash>, proof: RangeProof)
    requires MmrLedger.Accepts(root, fromSeq, toSeq, bodies, proof)
    ensures 1 <= fromSeq <= toSeq && proof.size == NodeCount(toSeq)
  {
    hide NodeCount, LeafFloor;
  }

  /**
    The sizes an accepted manifest states.  Its records are proven at the size
    where the range ends, which is the proof's; the manifest's own size is that
    one exactly when it equals the proof's.  A caller can compare the two
    beforehand; the verifier itself does not.
  */
  lemma AcceptedSizes<R>(k: Codec<R>, data: seq<byte>, m: Manifest)
    requires SegmentAccepts(k, data, m)
    ensures 1 <= m.lastSeq && m.proof.size == NodeCount(m.lastSeq)
    ensures BoundAtItsSize(k, data, m) <==> m.mmrSize == m.proof.size
  {
    hide NodeCount, LeafFloor, RecordLines, LineIds, Range.Accepts;
    SizeOfRange(m.checkpointRoot, m, LineIds(k, RecordLines(data)));
    AcceptedSize(m.checkpointRoot, m.firstSeq, m.lastSeq, LineIds(k, RecordLines(data)), m.proof);
  }

  /** The range check is at the size its proof names. */
  lemma SizeOfRange(root: Hash, m: Manifest, bodies: seq<Hash>)
    requires Range.Accepts(root, m.proof.size, m.firstSeq - 1, m.lastSeq - 1, bodies,
                           Range.RangeProof(1, "range", m.proof.size, m.proof.fromIndex, m.proof.toIndex,
                             m.proof.witnesses))
    ensures m.mmrSize == m.proof.size ==>
              Range.Accepts(root, m.mmrSize, m.firstSeq - 1, m.lastSeq - 1, bodies,
                            Range.RangeProof(1, "range", m.mmrSize, m.proof.fromIndex, m.proof.toIndex,
                              m.proof.witnesses))
  {
  }

  /** The promise: the records are bound to the MMR at the manifest's own size, under its root. */
  ghost predicate BoundAtItsSize<R>(k: Codec<R>, data: seq<byte>, m: Manifest) {
    && AllLoad(k, RecordLines(data))
    && m.mmrSize >= 0 && Complete(m.mmrSize) && LeafFloor(m.mmrSize) == m.lastSeq
    && Range.Accepts(m.checkpointRoot, m.mmrSize, m.firstSeq - 1, m.lastSeq - 1, LineIds(k, RecordLines(data)),
                     Range.RangeProof(1, "range", m.mmrSize, m.proof.fromIndex, m.proof.toIndex, m.proof.witnesses))
  }

  /** The verdict does not depend on either field. */
  lemma SizesUnchecked<R>(k: Codec<R>, data: seq<byte>, m: Manifest, mmrSize: int, byteCount: nat)
    ensures SegmentAccepts(k, data, m) <==> SegmentAccepts(k, data, m.(mmrSize := mmrSize, byteCount := byteCount))
  {
  }

  /** For example: the segment of one plain record has an accepted manifest with both sizes wrong. */
  lemma WrongSizesAccepted<R(!new)>(k: Codec<R>, record: R) returns (wrong: Manifest)
    requires Faithful(k) && Plain(k.dump(record))
    ensures var data := k.dump(record) + [NEWLINE];
            SegmentAccepts(k, data, wrong) && !BoundAtItsSize(k, data, wrong) && wrong.byteCount != |data|
  {
    hide Plain, SegmentAccepts, BoundAtItsSize, Faithful;
    var m := OneManifest(k, record);
    WrongSizes(k, k.dump(record) + [NEWLINE], m);
    wrong := m.(mmrSize := m.mmrSize + 1, byteCount := m.byteCount + 1);
  }

  lemma OneManifest<R(!new)>(k: Codec<R>, record: R) returns (m: Manifest)
    requires Faithful(k) && Plain(k.dump(record))
    ensures var data := k.dump(record) + [NEWLINE];
            SegmentAccepts(k, data, m) && m.mmrSize == m.proof.size && m.byteCount == |data|
  {
    hide Torn, Whole, Tiled, AllIds, SegmentIds, Faithful, AllLoad, Plain, SegmentAccepts, ClosingManifest;
    OneClosed(k, record);
    OneSizes(k, record);
    m := ClosingManifest(k, [k.dump(record) + [NEWLINE]]);
  }

  /** Any accepted manifest with true sizes stays accepted with wrong ones. */
  lemma WrongSizes<R>(k: Codec<R>, data: seq<byte>, m: Manifest)
    requires SegmentAccepts(k, data, m) && m.mmrSize == m.proof.size && m.byteCount == |data|
    ensures var wrong := m.(mmrSize := m.mmrSize + 1, byteCount := m.byteCount + 1);
            SegmentAccepts(k, data, wrong) && !BoundAtItsSize(k, data, wrong) && wrong.byteCount != |data|
  {
    hide BoundAtItsSize, SegmentAccepts, NodeCount;
    SizesUnchecked(k, data, m, m.mmrSize + 1, m.byteCount + 1);
    AcceptedSizes(k, data, m.(mmrSize := m.mmrSize + 1, byteCount := m.byteCount + 1));
  }

  lemma OneLoads<R(!new)>(k: Codec<R>, record: R)
    requires Faithful(k)
    ensures var line := k.dump(record); var data := line + [NEWLINE];
            && Whole(data) == [line] && AllLoad(k, Whole(data)) && Torn(data) == []
            && Tiled(k, [data], []) && SegmentIds(k, data) == AllIds(k, [data]) == [IdOf(k, line)]
  {
    hide Torn, Whole, IdOf, Tiled, AllIds, SegmentIds, Faithful;
    var line := k.dump(record);
    LineFacts(k, record);
    EmptySegment();
    WholeMore([], line);
    assert [] + (line + [NEWLINE]) == line + [NEWLINE] && [] + [line] == [line];
    OneSegment(k, line + [NEWLINE], line);
  }

  lemma OneSizes<R(!new)>(k: Codec<R>, record: R)
    requires Faithful(k)
    ensures var data := k.dump(record) + [NEWLINE];
            && AllLoad(k, Whole(data)) && SegmentIds(k, data) != []
            && var m := ClosingManifest(k, [data]);
               m.mmrSize == m.proof.size && m.byteCount == |data|
  {
    hide Torn, Whole, IdOf, Tiled, AllIds, SegmentIds, Faithful, AllLoad, LogRoot, NodeCount;
    OneLoads(k, record);
  }

  /** A segment of one plain record, closed, verifies. */
  lemma OneClosed<R(!new)>(k: Codec<R>, record: R)
    requires Faithful(k) && Plain(k.dump(record))
    ensures var data := k.dump(record) + [NEWLINE];
            && Whole(data) == [k.dump(record)] && AllLoad(k, Whole(data)) && SegmentIds(k, data) != []
            && SegmentAccepts(k, data, ClosingManifest(k, [data]))
  {
    hide Torn, Whole, IdOf, Tiled, AllIds, SegmentIds, Faithful, AllLoad, Plain, SegmentAccepts, ClosingManifest,
      NodeCount;
    var data := k.dump(record) + [NEWLINE];
    OneLoads(k, record);
    NodeCountSmall();
    RotateTiles(k, [data], []);
    var m := ClosingManifest(k, [data]);
    assert [] + [m] == [m];
    ClosedVerifies(k, [data] + [[]], [m], 0);
  }

  lemma OneSegment<R>(k: Codec<R>, data: seq<byte>, line: seq<byte>)
    requires Whole(data) == [line] && k.load(line).Some? && Torn(data) == []
    ensures Tiled(k, [data], []) && AllIds(k, [data]) == [IdOf(k, line)] && SegmentIds(k, data) == [IdOf(k, line)]
  {
    hide Torn, Whole, IdOf;
    assert [data][..0] == [];
    assert AllIds(k, []) == [];
    assert SegmentIds(k, data) == [IdOf(k, line)];
    assert [] + SegmentIds(k, data) == SegmentIds(k, data);
  }

  lemma NodeCountSmall()
    ensures NodeCount(1) == 1
  {
    hide NodeCount;
    assert Pow2(0) == 1;
    NodeCountSplit(0, 0);
  }

  // ---- the span of a segment, and a segment that a restart has forgotten ---------------------------

  /** Smallest and largest seq among a segment's rows, and their number. */
  datatype Span = Span(first: int, last: int, count: nat)

  function SpanOf(rows: seq<Row>, segment: nat): Span {
    if rows == [] then Span(0, 0, 0)
    else
      var s, row := SpanOf(rows[..|rows| - 1], segment), rows[|rows| - 1];
      if row.segment != segment then s
      else Span(if s.count == 0 || row.seqNo < s.first then row.seqNo else s.first,
                if s.count == 0 || row.seqNo > s.last then row.seqNo else s.last,
                s.count + 1)
  }

  lemma {:induction false} SpanCount(rows: seq<Row>, segment: nat)
    ensures SpanOf(rows, segment).count == |set i: nat | i < |rows| && rows[i].segment == segment|
    decreases |rows|
  {
    var mine := set i: nat | i < |rows| && rows[i].segment == segment;
    if rows == [] {
      assert mine == {};
    } else {
      var n := |rows| - 1;
      var before := rows[..n];
      SpanCount(before, segment);
      var theirs := set i: nat | i < |before| && before[i].segment == segment;
      if rows[n].segment == segment {
        assert n !in theirs && mine == theirs + {n};
      } else {
        assert mine == theirs;
      }
    }
  }

  /** Smallest and largest are those of some rows of the segment, and bound all of them. */
  lemma {:induction false} SpanBounds(rows: seq<Row>, segment: nat)
    ensures var s := SpanOf(rows, segment);
            && (s.count == 0 <==> forall i | 0 <= i < |rows| :: rows[i].segment != segment)
            && (forall i | 0 <= i < |rows| && rows[i].segment == segment :: s.first <= rows[i].seqNo <= s.last)
            && (s.count > 0 ==>
                  && (exists i :: 0 <= i < |rows| && rows[i].segment == segment && rows[i].seqNo == s.first)
                  && exists i :: 0 <= i < |rows| && rows[i].segment == segment && rows[i].seqNo == s.last)
    decreases |rows|
  {
    if rows != [] {
      var n := |rows| - 1;
      var before := rows[..n];
      SpanBounds(before, segment);
      var b, s := SpanOf(before, segment), SpanOf(rows, segment);
      if b.count > 0 {
        var i :| 0 <= i < |before| && before[i].segment == segment && before[i].seqNo == b.first;
        var j :| 0 <= j < |before| && before[j].segment == segment && before[j].seqNo == b.last;
        assert rows[i].segment == segment && rows[i].seqNo == b.first;
        assert rows[j].segment == segment && rows[j].seqNo == b.last;
      }
      if rows[n].segment == segment {
        assert b.count > 0 ==> rows[n].seqNo == s.first || s.first == b.first;
        assert b.count > 0 ==> rows[n].seqNo == s.last || s.last == b.last;
      }
      forall i | 0 <= i < |rows| && rows[i].segment == segment
        ensures s.first <= rows[i].seqNo <= s.last
      {
        if i < n {
          assert before[i].segment == segment;
        }
      }
    }
  }

  /** The rows from one on. */
  lemma {:induction false} SpanFrom(rows: seq<Row>, segment: nat, base: nat)
    requires Numbered(rows) && base <= |rows|
    requires forall i | 0 <= i < |rows| :: rows[i].segment == segment <==> i >= base
    ensures var s := SpanOf(rows, segment);
            s.count == |rows| - base && (s.count > 0 ==> s.first == base + 1 && s.last == |rows|)
    decreases |rows|
  {
    if |rows| > base {
      SpanFrom(rows[..|rows| - 1], segment, base);
    } else if rows != [] {
      SpanFrom(rows[..|rows| - 1], segment, base - 1);
    }
  }

  /** A segment's rows are as many as its span is wide exactly when no other segment's row lies between them. */
  lemma {:induction false} SpanWidth(rows: seq<Row>, segment: nat)
    requires Numbered(rows)
    ensures var s := SpanOf(rows, segment);
            && (forall i | 0 <= i < |rows| && rows[i].segment == segment :: s.first <= i + 1 <= s.last)
            && (s.count == 0 <==> forall i | 0 <= i < |rows| :: rows[i].segment != segment)
            && (s.count > 0 ==>
                  && 1 <= s.first <= s.last <= |rows| && s.count <= s.last - s.first + 1
                  && (s.count == s.last - s.first + 1 <==>
                      forall i | s.first <= i + 1 <= s.last :: rows[i].segment == segment))
    decreases |rows|
  {
    if rows != [] {
      var n := |rows| - 1;
      SpanWidth(rows[..n], segment);
      var before, s := SpanOf(rows[..n], segment), SpanOf(rows, segment);
      if before.count > 0 && rows[n].segment == segment {
        assert s.first == before.first && s.last == n + 1;
        assert s.count == s.last - s.first + 1 ==> before.last == n;
        if forall i | s.first <= i + 1 <= s.last :: rows[i].segment == segment {
          assert n > 0 && rows[n - 1].segment == segment;
          assert rows[..n][n - 1].segment == segment;
          assert before.last == n;
        }
      }
    }
  }

  /** A verifier accepts a manifest that states a segment's span only if no other segment's row lies inside it. */
  lemma AcceptedIsContiguous<R>(k: Codec<R>, rows: seq<Row>, segment: nat, data: seq<byte>, m: Manifest)
    requires Numbered(rows) && SegmentAccepts(k, data, m)
    requires Span(m.firstSeq, m.lastSeq, m.recordCount) == SpanOf(rows, segment)
    ensures 1 <= m.firstSeq && m.lastSeq <= |rows|
    ensures forall i | m.firstSeq <= i + 1 <= m.lastSeq :: rows[i].segment == segment
  {
    hide RecordLines, LineIds, NodeCount, LeafFloor;
    AcceptedSize(m.checkpointRoot, m.firstSeq, m.lastSeq, LineIds(k, RecordLines(data)), m.proof);
    SpanWidth(rows, segment);
  }

  /**
    What a forgotten segment costs.  A rotation whose store manifest was not saved,
    a record in the new segment, a restart, and one more record in the segment
    that is active again: whatever rows `later` are added, no manifest that closes
    that segment is accepted.
  */
  lemma AstrayUnverifiable<R>(
    k: Codec<R>, m: Managed, record: R, looked: bool, later: seq<Row>, data: seq<byte>, manifest: Manifest)
    requires SoundManaged(k, m) && InSync(k, m.store) && m.saved + 1 == |m.manifests|
    requires m.store.segments[m.saved + 1] != [] && !Known(m.store.rows, k.idOf(record))
    ensures var listed := m.store.(segments := m.store.segments[..m.saved + 1], needsRecover := false);
            Appended(k, listed, record, Done(looked)).0.rows <= later && Numbered(later)
            && Span(manifest.firstSeq, manifest.lastSeq, manifest.recordCount) == SpanOf(later, m.saved) ==>
              !SegmentAccepts(k, data, manifest)
  {
    hide InSync, AllIds, HonestProof, NodeCount, LogRoot, Distinct, Known, SegmentAccepts, Whole, Torn, ManifestOk,
      SpanOf;
    var listed := m.store.(segments := m.store.segments[..m.saved + 1], needsRecover := false);
    var rows := Appended(k, listed, record, Done(looked)).0.rows;
    var n := |m.store.rows|;
    var i := LastTwo(k, m);
    assert rows[n].segment == m.saved && rows[i].segment == m.saved && rows[n - 1].segment != m.saved;
    if && rows <= later && Numbered(later) && SegmentAccepts(k, data, manifest)
       && Span(manifest.firstSeq, manifest.lastSeq, manifest.recordCount) == SpanOf(later, m.saved) {
      assert later[n] == rows[n] && later[i] == rows[i] && later[n - 1] == rows[n - 1];
      SpanWidth(later, m.saved);
      AcceptedIsContiguous(k, later, m.saved, data, manifest);
    }
  }

  /** Such a run: one record that fills its segment, a failed save, one more record, and a restart. */
  lemma StrayRun<R(!new)>(k: Codec<R>, maxBytes: nat, a: R, b: R)
    requires Faithful(k) && k.idOf(a) != k.idOf(b) && maxBytes <= |k.dump(a)| + 1
    ensures var run := [(AppendEvent(a, Done(true)), Unsaved), (AppendEvent(b, Done(true)), NotReached)];
            && PossibleRun(k, run) && PossibleRun(k, run + [(Restart, NotReached)])
            && RunManaged(k, maxBytes, run + [(Restart, NotReached)]).None?
            && RunManaged(k, maxBytes, run).Some?
            && var m := RunManaged(k, maxBytes, run).value;
               && SoundManaged(k, m) && InSync(k, m.store) && m.saved + 1 == |m.manifests|
               && m.store.segments[m.saved + 1] != []
  {
    hide Sound, Tiled, InSync, Faithful, ManagedStep, SoundManaged;
    var e1, e2 := (AppendEvent(a, Done(true)), Unsaved), (AppendEvent(b, Done(true)), NotReached);
    var e3: (Event<R>, Rotation) := (Restart, NotReached);
    var run: ManagedRun<R> := [e1, e2];
    FirstFills(k, maxBytes, a);
    var m1 := ManagedStep(k, maxBytes, EMPTY, e1.0, Unsaved).value;
    RunSnoc(k, maxBytes, [], e1);
    SecondStays(k, maxBytes, m1, a, b);
    var m2 := ManagedStep(k, maxBytes, m1, e2.0, NotReached).value;
    assert [] + [e1] == [e1] && [e1] + [e2] == run;
    RunSnoc(k, maxBytes, [e1], e2);
    RunTiles(k, maxBytes, run);
    RestartStrays(k, maxBytes, m2, NotReached);
    RunSnoc(k, maxBytes, run, e3);
  }

  lemma RunSnoc<R>(k: Codec<R>, maxBytes: nat, events: ManagedRun<R>, e: (Event<R>, Rotation))
    requires PossibleRun(k, events) && (e.0.AppendEvent? ==> Possible(k, e.0.record, e.0.outcome))
    ensures PossibleRun(k, events + [e])
    ensures RunManaged(k, maxBytes, []) == Some(EMPTY)
    ensures var m := RunManaged(k, maxBytes, events);
            m.Some? ==>
              var t := ManagedStep(k, maxBytes, m.value, e.0, e.1);
              && (t.Some? && t.value.store.segments != [] ==> RunManaged(k, maxBytes, events + [e]) == t)
              && (t.None? ==> RunManaged(k, maxBytes, events + [e]).None?)
  {
    hide ManagedStep, Possible;
    assert (events + [e])[..|events|] == events;
  }

  lemma FirstFills<R(!new)>(k: Codec<R>, maxBytes: nat, a: R)
    requires Faithful(k) && maxBytes <= |k.dump(a)| + 1
    ensures var t := ManagedStep(k, maxBytes, EMPTY, AppendEvent(a, Done(true)), Unsaved);
            && t.Some? && t.value.saved == 0 && |t.value.manifests| == 1 && |t.value.store.segments| == 2
            && SoundManaged(k, t.value) && InSync(k, t.value.store) && !t.value.store.needsRecover
            && t.value.store.rows == [Row(1, k.idOf(a), 0, 0)]
  {
    hide Whole, Torn, Extend, Faithful, InSync, Tiled, AllIds, SegmentIds, AllLoad, NodeCount, ClosingManifest;
    EmptyManaged(k);
    LineFacts(k, a);
    ManagedKeeps(k, maxBytes, EMPTY, AppendEvent(a, Done(true)), Unsaved);
    var line := k.dump(a);
    NodeCountSmall();
    NoIds(k);
    AllIdsMore(k, [[]], line);
    var t := Appended(k, EMPTY.store, a, Done(true)).0;
    var active: seq<byte> := [];
    assert active + (line + [NEWLINE]) == line + [NEWLINE];
    assert t.segments == [active + (line + [NEWLINE])];
    assert t.segments == EMPTY.store.segments[..0] + [EMPTY.store.segments[0] + (line + [NEWLINE])];
    assert t.segments[..0] == [];
    AllIdsSplit(k, t.segments, 0);
    assert t.segments[..1] == t.segments;
    AppendKeeps(k, EMPTY.store, a, Done(true));
    RotateInSync(k, t);
  }

  lemma NoIds<R>(k: Codec<R>)
    ensures Torn([]) == [] && Loadable(k, [[]]) && AllIds(k, []) == [] && AllIds(k, [[]]) == []
  {
    EmptySegment();
  }

  lemma SecondStays<R(!new)>(k: Codec<R>, maxBytes: nat, m: Managed, a: R, b: R)
    requires Faithful(k) && SoundManaged(k, m) && InSync(k, m.store) && !m.store.needsRecover
    requires |m.store.segments| == 2 && m.store.rows == [Row(1, k.idOf(a), 0, 0)] && k.idOf(a) != k.idOf(b)
    ensures var t := ManagedStep(k, maxBytes, m, AppendEvent(b, Done(true)), NotReached);
            && t.Some? && t.value.saved == m.saved && t.value.manifests == m.manifests
            && |t.value.store.segments| == 2 && t.value.store.segments[1] != [] && InSync(k, t.value.store)
  {
    hide Sound, Tiled, InSync, Faithful;
    AppendKeeps(k, m.store, b, Done(true));
  }

  /** The last row is in the last segment if that holds a record, and some row is in the one before it. */
  lemma LastTwo<R>(k: Codec<R>, m: Managed) returns (i: nat)
    requires SoundManaged(k, m) && InSync(k, m.store) && m.saved + 1 == |m.manifests|
    requires m.store.segments[m.saved + 1] != []
    ensures Numbered(m.store.rows) && i < |m.store.rows| && m.store.rows[i].segment == m.saved
    ensures m.store.rows[|m.store.rows| - 1].segment == m.saved + 1
  {
    hide AllIds, HonestProof, NodeCount, LogRoot, Whole, Torn, Extend, Partial, Full, Unlines, AllLoad, Distinct;
    var all, g := m.store.segments, m.saved;
    var last := g + 1;
    FileIsLines(all[last]);
    NoUnlines();
    assert all[..last + 1] == all;
    AllIdsSplit(k, all, last);
    assert ManifestOk(k, all, g, m.manifests[g]);
    LastRows(k, all);
    IdealSegments(k, all);
    var before := all[..last];
    AllIdsPrefix(k, all, last);
    var ids := AllIds(k, all);
    assert ids == AllIds(k, before) + ids[|AllIds(k, before)|..];
    DistinctPrefix(AllIds(k, before), ids[|AllIds(k, before)|..]);
    LastRows(k, before);
    assert before[..g] == all[..g] && before[..g + 1] == all[..g + 1];
    i := |AllIds(k, before)| - 1;
    ExtendKeeps(k, Whole(all[last]), last, 0, Ideal(k, before));
    IdealLast(k, all);
  }

  /** The rows of the active segment: the last ones, as many as it has records. */
  lemma ActiveSpan<R>(k: Codec<R>, s: Store)
    requires InSync(k, s) && Distinct(AllIds(k, s.segments))
    ensures Loadable(k, s.segments) && s.segments != [] && Numbered(s.rows) && IdsOf(s.rows) == AllIds(k, s.segments)
    ensures var n := |s.segments| - 1; var ids := SegmentIds(k, s.segments[n]); var span := SpanOf(s.rows, n);
            && |s.rows| == |AllIds(k, s.segments[..n])| + |ids| && |s.rows| == |AllIds(k, s.segments)|
            && |ids| == |Whole(s.segments[n])| == span.count
            && (span.count > 0 ==> span.first == |AllIds(k, s.segments[..n])| + 1 && span.last == |s.rows|)
  {
    hide Whole, Torn, Ideal, Partial, Full, SpanOf;
    var n := |s.segments| - 1;
    LastRows(k, s.segments);
    PlainIdeal(k, s.segments);
    IdealSegments(k, s.segments);
    AllIdsSplit(k, s.segments, n);
    assert s.segments[..n + 1] == s.segments;
    SpanFrom(s.rows, n, |AllIds(k, s.segments[..n])|);
  }

  // ---- the rotating store -------------------------------------------------------------------------

  class SegmentedLedger<R> {
    const store: Ledger.LedgerStore<R>
    const mmr: MmrIndex
    var manifests: seq<Manifest>

    constructor (codec: Codec<R>)
      ensures fresh(store) && fresh(mmr) && fresh(mmr.nodes) && store.codec == codec
      ensures manifests == [] && mmr.Valid() && mmr.bodies == [] && store.Contents() == Store([[]], [], [], true, false)
    {
      store := new Ledger.LedgerStore(codec);
      mmr := new MmrIndex();
      manifests := [];
    }

    /** First and last seq and number of the rows of a segment. */
    method SegmentSpan(segment: nat) returns (first: int, last: int, count: nat)
      ensures Span(first, last, count) == SpanOf(store.rows, segment)
    {
      first, last, count := 0, 0, 0;
      for i := 0 to |store.rows|
        invariant Span(first, last, count) == SpanOf(store.rows[..i], segment)
      {
        assert store.rows[..i + 1][..i] == store.rows[..i];
        if store.rows[i].segment == segment {
          if count == 0 || store.rows[i].seqNo < first {
            first := store.rows[i].seqNo;
          }
          if count == 0 || store.rows[i].seqNo > last {
            last := store.rows[i].seqNo;
          }
          count := count + 1;
        }
      }
      assert store.rows[..|store.rows|] == store.rows;
    }

    /** Close the active segment under a forced checkpoint, write its manifest, and open a new one. */
    method RotateSegment() returns (r: Result<Manifest, string>)
      requires InSync(store.codec, store.Contents()) && Distinct(AllIds(store.codec, store.segments))
      requires mmr.Valid() && mmr.bodies <= IdsOf(store.rows)
      modifies this, store, mmr, mmr.nodes
      ensures var segments := old(store.segments);
              && (r.Ok? <==>
                  SegmentIds(store.codec, segments[|segments| - 1]) != [] && NodeCount(|store.rows|) < MAX_MMR_SIZE)
              && (r.Ok? ==>
                    && r.value == ClosingManifest(store.codec, segments)
                    && store.Contents() == old(store.Contents()).(segments := segments + [[]])
                    && manifests == old(manifests) + [r.value])
              && mmr.Valid() && mmr.bodies <= IdsOf(store.rows)
              && (r.Err? ==> store.Contents() == old(store.Contents()) && manifests == old(manifests))
    {
      hide Whole, Torn, AllIds, NodeCount, LogRoot, Nodes, Ideal, Partial, Full, AllLoad, InSync, Distinct, SpanOf,
        SegmentIds, Numbered, Loadable;
      ActiveSpan(store.codec, store.Contents());
      var segments := store.segments;
      var name := |segments| - 1;
      var first, last, count := SegmentSpan(name);
      if count == 0 {
        return Err("segment has no records");
      }
      var synced := mmr.Sync(store.rows);
      if synced.Err? {
        return Err(synced.error);
      }
      var root := mmr.Root();
      if root.Err? {
        return Err(root.error);
      }
      var proof := mmr.ProveRange(first, last);
      ForestSizeOf(mmr.bodies);
      if proof.Err? || proof.value.size != |mmr.nodes.nodes| {
        return Err("checkpoint does not close at this segment's boundary");
      }
      var data := segments[name];
      var manifest := Manifest(first, last, root.value, |mmr.nodes.nodes|, |data|, count, data, proof.value);
      manifests := manifests + [manifest];
      store.segments := segments + [[]];
      return Ok(manifest);
    }
  }
}
