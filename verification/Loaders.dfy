// The Go runner's loader beside the Python one: where they agree, and the exact
// states that one of them refuses.

module Loaders {
  import opened Wrappers
  import opened Powers
  import opened Positions
  import opened Digests
  import opened Forest
  import opened Append
  import opened Accumulators
  import opened CorePositions
  import opened Consistency
  import opened Engine
  import opened Statements
  import opened RunnerSpec
  import opened RunnerSystem

  const MAX_GO_SIZE := 0x8000_0000_0000_0000  // 2^63

  /** Go's consistency check takes both sizes from the proof, up to a larger limit. */
  ghost predicate GoConsistent(rootA: Hash, rootB: Hash, proof: ConsistencyProof) {
    && proof.v == 1 && proof.kind == "consistency"
    && 0 <= proof.sizeA <= proof.sizeB < MAX_GO_SIZE && Complete(proof.sizeA) && Complete(proof.sizeB)
    && LeafFloor(proof.sizeA) <= LeafFloor(proof.sizeB)
    && Parse(proof.oldPeaks).Some? && Parse(proof.newPeaks).Some? && ParseAll(proof.witnesses).Some?
    && BagPeaks(Parse(proof.oldPeaks).value) == rootA && BagPeaks(Parse(proof.newPeaks).value) == rootB
    && PeaksProven(LeafFloor(proof.sizeA), LeafFloor(proof.sizeB),
                   Parse(proof.oldPeaks).value, ParseAll(proof.witnesses).value, Parse(proof.newPeaks).value)
  }

  /** What Go demands of the predecessor a statement names. */
  predicate GoPredecessor(s: Statement) {
    && 0 <= s.prevSize < s.size
    && if s.prevSize == 0 then s.proof.None? && (s.prevPeaks.None? || s.prevPeaks.value == [])
       else s.prevPeaks.Some? && s.prevPeaks.value != []
  }

  /** What Go's `ParseRecord` and `VerifySignature` accept. */
  ghost predicate GoVerifies(s: Statement) {
    && s.signer == s.keyId && s.logId != "" && s.size <= MAX_PORTABLE_INTEGER && s.peaks != []
    && GoPredecessor(s)
    && (s.prevSize > 0 ==>
          s.proof.Some? && GoConsistent(BagPeaks(s.prevPeaks.value), BagPeaks(s.peaks), s.proof.value))
  }

  ghost predicate GoCheckpointLoads(c: Config, v: State, k: CheckpointState<Statement>) {
    && 0 <= k.size <= v.size && k.size < MAX_GO_SIZE && Complete(k.size)
    && LeafFloor(k.size) == k.indexedSeq <= v.indexedSeq
    && v.size == |v.nodes|
    && (CompleteCount(k.size);
        k.peaks == At(v.nodes, PeaksOf(LeafFloor(k.size))))
    && GoVerifies(k.bytes)
    && k.bytes.logId == c.logId && k.bytes.keyId == c.keyId
    && k.bytes.size == k.size && k.bytes.peaks == k.peaks
  }

  /** Go's loader restores the tree, and so checks every interior node. */
  ghost predicate GoLoads(c: Config, v: State) {
    && v.size == |v.nodes| < MAX_GO_SIZE && Complete(|v.nodes|)
    && v.nodes == Nodes(LeafNodes(v.nodes)) && LeafFloor(|v.nodes|) == v.indexedSeq
    && (v.checkpoint.Some? ==> GoCheckpointLoads(c, v, v.checkpoint.value))
  }

  /** A complete array is restored exactly when its interior nodes hash their children. */
  lemma RestoredIffLinked(ns: seq<Hash>)
    requires Complete(|ns|)
    ensures ns == Nodes(LeafNodes(ns)) <==> Linked(ns)
  {
    hide NodeCount, LeafFloor, Nodes, NodeRule;
    CompleteCount(|ns|);
    MmrIffForest(ns, LeafNodes(ns));
  }

  /** The sizes in a statement's proof are those that it claims. */
  ghost predicate ProofSizesAgree(s: Statement) {
    s.prevSize > 0 && s.proof != None ==> s.proof.value.sizeA == s.prevSize && s.proof.value.sizeB == s.size
  }

  /**
    The two verifiers, on statements that claim a size and peaks.  Go also wants a
    smaller predecessor, named with its peaks unless it is the empty log, which
    comes without peaks and proof; Python also wants the proof's sizes to be the
    claimed ones.  That is the whole difference.
  */
  lemma VerifiersCompare(s: Statement)
    requires s.size < MAX_MMR_SIZE && s.peaks != []
    ensures Verifies(s) && 0 <= s.prevSize && s.prevSize < s.size
            && (s.prevSize == 0 ==> s.proof == None && (s.prevPeaks == None || s.prevPeaks == Some([])))
            && (s.prevSize > 0 ==> s.prevPeaks != None && s.prevPeaks != Some([])) <==>
            GoVerifies(s) && ProofSizesAgree(s)
  {
    hide Complete, LeafFloor, NodeCount, BagPeaks, PeaksProven, Parse, ParseAll;
  }

  lemma SomePeaks(size: nat)
    requires Complete(size) && size > 0
    ensures |PeaksOf(LeafFloor(size))| > 0
  {
    hide NodeCount, LeafFloor, Mountains;
    CompleteCount(size);
    SomeMountain(LeafFloor(size));
  }

  /** A stored statement's predecessor is smaller, and named in full. */
  ghost predicate PredecessorNamed(v: State) {
    v.checkpoint != None ==>
      var s := v.checkpoint.value.bytes;
      && 0 <= s.prevSize && s.prevSize < s.size
      && (s.prevSize == 0 ==> s.proof == None && (s.prevPeaks == None || s.prevPeaks == Some([])))
      && (s.prevSize > 0 ==> s.prevPeaks != None && s.prevPeaks != Some([]))
  }

  /**
    The two loaders.  The Go loader also wants interior nodes to hash their
    children and the stored statement's predecessor to be smaller and named in
    full; the Python loader also wants the statement's proof to have the claimed
    sizes.  Below 2^50 nodes that is the whole difference.
  */
  lemma LoadersCompare(c: Config, v: State)
    requires v.size < MAX_MMR_SIZE
    ensures Loads(c, v) && PredecessorNamed(v)
            && (forall p: nat :: p < |v.nodes| && Height(p) > 0 ==> HashesChildren(v.nodes, p)) <==>
            GoLoads(c, v) && (v.checkpoint != None ==> ProofSizesAgree(v.checkpoint.value.bytes))
  {
    hide Complete, LeafFloor, NodeCount, Nodes, NodeRule, Verifies, GoVerifies, Mountains, Height;
    LinkedMeans(v.nodes);
    if Complete(|v.nodes|) {
      RestoredIffLinked(v.nodes);
    }
    if v.checkpoint.Some? {
      var k := v.checkpoint.value;
      if k.bytes.size <= 0 {
        NoPredecessor(k.bytes);
      } else if k.size > 0 && Complete(k.size) {
        SomePeaks(k.size);
        if k.bytes.peaks == k.peaks && k.bytes.size == k.size < MAX_MMR_SIZE && k.peaks != [] {
          VerifiersCompare(k.bytes);
        }
      }
    }
  }

  lemma LinkedMeans(ns: seq<Hash>)
    ensures Linked(ns) <==> forall p: nat :: p < |ns| && Height(p) > 0 ==> HashesChildren(ns, p)
  {
    hide Height, Pow2;
    forall p: nat | p < |ns|
      ensures NodeRule(ns, p) <==> (Height(p) > 0 ==> HashesChildren(ns, p))
    {
      if Height(p) > 0 {
        Children(p);
      }
    }
  }

  /** The node at `p` is the interior hash of the node before it and the one `2^height` before. */
  ghost predicate HashesChildren(ns: seq<Hash>, p: nat) {
    && Pow2(Height(p)) <= p < |ns|
    && ns[p].Interior? && ns[p].position == p && ns[p].left == ns[p - Pow2(Height(p))] && ns[p].right == ns[p - 1]
  }

  lemma NamedMeans(v: State)
    ensures (v.checkpoint.Some? ==> GoPredecessor(v.checkpoint.value.bytes)) <==> PredecessorNamed(v)
  {
  }

  lemma NoPredecessor(s: Statement)
    requires s.size <= 0
    ensures !GoPredecessor(s) && !GoVerifies(s)
  {
  }

  /** True nodes are restored. */
  lemma TrueIsLinked(c: Config, entries: seq<Entry>, v: State)
    requires TrueState(c, entries, v)
    ensures Linked(v.nodes) && Complete(|v.nodes|) && v.nodes == Nodes(LeafNodes(v.nodes))
  {
    hide NodeCount, LeafFloor, Nodes, NodeRule, TrueCheckpoint, Leaves;
    var ls := Leaves(entries, v.indexedSeq);
    NodesSize(ls);
    ForestIsMmr(ls);
    RestoredIffLinked(v.nodes);
  }

  lemma SucceedsNamesGo(
    c: Config, entries: seq<Entry>, previous: Option<CheckpointState<Statement>>, k: CheckpointState<Statement>)
    requires Succeeds(previous, k) && TrueCheckpoint(c, entries, k)
    requires previous.Some? ==> TrueCheckpoint(c, entries, previous.value)
    ensures GoPredecessor(k.bytes)
  {
    hide NodeCount, Accepts, BagPeaks, Verifies, Leaves, Mountains, Accumulator;
    CheckpointSize(c, entries, k);
    if previous.Some? {
      CheckpointSize(c, entries, previous.value);
      SomeMountain(previous.value.indexedSeq);
    }
  }

  /** After every run of runners and deliveries, within the size limit, both loaders accept the store. */
  lemma RunLoads(c: Config, events: seq<Event>)
    requires ValidConfig(c) && Run(c, events).state.size < MAX_MMR_SIZE
    ensures Loads(c, Run(c, events).state) && GoLoads(c, Run(c, events).state)
  {
    hide Complete, LeafFloor, NodeCount, Nodes, Linked, TrueState, ValidState, RowsOk, ViewOk, TaskOk, OneChain,
      Loads, GoLoads, Succeeds, TrueCheckpoint, GoPredecessor, PredecessorNamed, Run;
    NamedMeans(Run(c, events).state);
    LinkedMeans(Run(c, events).state.nodes);
    RunKeeps(c, events);
    var s := Run(c, events);
    TrueStateLoads(c, s.entries, s.state);
    TrueIsLinked(c, s.entries, s.state);
    if s.history != [] {
      var n := |s.history| - 1;
      ChainAt(c, s.entries, s.history, n);
      if n > 0 {
        ChainAt(c, s.entries, s.history, n - 1);
        assert Latest(s.history[..n]) == Some(s.history[n - 1]);
      } else {
        assert Latest(s.history[..n]).None?;
      }
      SucceedsNamesGo(c, s.entries, Latest(s.history[..n]), s.history[n]);
    }
    LoadersCompare(c, s.state);
  }

  /** For example: two leaves under a node that is not their parent. */
  lemma UnlinkedLoads(c: Config)
    ensures var v: State := CllState(3, [Raw(1), Raw(2), Raw(3)], 2, None, None, []);
            Loads(c, v) && !GoLoads(c, v)
  {
    hide NodeCount, LeafFloor, Nodes, Height, NodeRule;
    ThreeNodes();
    var v: State := CllState(3, [Raw(1), Raw(2), Raw(3)], 2, None, None, []);
    RestoredIffLinked(v.nodes);
    NotLinked(v.nodes);
  }

  lemma ThreeNodes()
    ensures NodeCount(2) == 3 && LeafFloor(3) == 2 && Height(2) == 1
  {
    hide NodeCount, LeafFloor, Height;
    assert Pow2(0) == 1 && Pow2(1) == 2;
    NodeCountSplit(0, 0);
    NodeCountSplit(1, 0);
    LeafFloorOfCount(2);
    LeafFloorUnique(2, 1);
    HeightClosed(2);
  }

  lemma NotLinked(ns: seq<Hash>)
    requires |ns| == 3 && ns[2].Raw?
    ensures !Linked(ns)
  {
    hide NodeCount, LeafFloor, Height;
    ThreeNodes();
    assert !NodeRule(ns, 2);
  }
}
