// The checkpoint runner: indexes the entry log into the MMR, signs a
// checkpoint when the cadence is due, and queues one row per witness.

/** Checkpoint statements: the signed bytes, as the claims they carry. */
module Statements {
  import opened Wrappers
  import opened Positions
  import opened Forest
  import opened CorePositions
  import opened Digests
  import opened Accumulators
  import opened Consistency

  /** `signer` is whose key made the signature; roots are bagged from the peaks. */
  datatype Statement = Statement(
    logId: string, keyId: string, signer: string, issuedAt: int,
    size: int, peaks: seq<Hash>, prevSize: int, prevPeaks: Option<seq<Hash>>,
    proof: Option<ConsistencyProof>)

  /** What `verify_checkpoint_cose_offline` accepts. */
  ghost predicate Verifies(s: Statement) {
    && s.signer == s.keyId && s.logId != "" && s.size >= 0 && s.prevSize >= 0
    && match s.proof
       case None => s.prevSize == 0
       case Some(proof) =>
         s.prevPeaks.Some? && Accepts(BagPeaks(s.prevPeaks.value), s.prevSize, BagPeaks(s.peaks), s.size, proof)
  }

  /**
    Against a log of which the statement names the size and root: it verifies exactly
    when its key signed it, it names the log, and it either claims no predecessor and
    carries no proof, or claims a prefix of the log and carries the one honest proof.
  */
  lemma StatementExact(ls: seq<Hash>, s: Statement)
    requires s.size == NodeCount(|ls|) < MAX_MMR_SIZE && BagPeaks(s.peaks) == LogRoot(ls)
    ensures NodeCount(|ls|) <= |Nodes(ls)|
    ensures Verifies(s) <==>
            && s.signer == s.keyId && s.logId != ""
            && ((s.proof == None && s.prevSize == 0)
                || exists f: nat ::
                     && f <= |ls| && s.prevSize == NodeCount(f)
                     && s.prevPeaks != None && BagPeaks(s.prevPeaks.value) == LogRoot(ls[..f])
                     && s.proof == Some(HonestConsistency(Nodes(ls), f, |ls|)))
  {
    hide NodeCount, LeafFloor, BagPeaks, LogRoot, Nodes, HonestConsistency, Accepts, Complete;
    ForestIsMmr(ls);
    if s.proof.Some? && s.prevPeaks.Some? {
      ConsistencyExact(ls, BagPeaks(s.prevPeaks.value), s.prevSize, s.proof.value);
    }
    if s.prevSize >= 0 {
      CompleteIff(s.prevSize);
      CompleteCount(s.prevSize);
    }
    forall f: nat | f <= |ls| && s.prevSize == NodeCount(f)
      ensures Complete(s.prevSize) && LeafFloor(s.prevSize) == f
    {
      LeafFloorOfCount(f);
      CompleteIff(s.prevSize);
    }
  }

  method VerifyStatement(s: Statement) returns (ok: bool)
    ensures ok <==> Verifies(s)
  {
    hide Accepts, BagPeaks;
    if s.signer != s.keyId || s.logId == "" || s.size < 0 || s.prevSize < 0 {
      return false;
    }
    if s.proof.None? {
      return s.prevSize == 0;
    }
    if s.prevPeaks.None? {
      return false;
    }
    var rootA := RootFromPeaks(s.prevPeaks.value);
    var rootB := RootFromPeaks(s.peaks);
    ok := VerifyConsistency(rootA, s.prevSize, rootB, s.size, s.proof.value);
  }
}

module RunnerSpec {
  import opened Wrappers
  import opened Positions
  import opened Digests
  import opened Forest
  import opened AppendSpec
  import opened Accumulators
  import opened CorePositions
  import opened Consistency
  import opened Engine
  import opened Statements

  datatype Config = Config(
    logId: string, keyId: string, witnessIds: seq<string>,
    cadenceEntries: nat, cadenceAge: int, scanLimit: nat)

  predicate ValidConfig(c: Config) {
    && c.logId != "" && c.cadenceEntries >= 1 && c.cadenceAge > 0
    && 1 <= c.scanLimit <= MAX_SCAN_LIMIT
    && forall i, j | 0 <= i < j < |c.witnessIds| :: c.witnessIds[i] != c.witnessIds[j]
  }

  type State = CllState<Statement>
  type Row = WitnessState<Statement>

  /** How many entries the latest checkpoint covers. */
  function Checkpointed(v: State): int {
    if v.checkpoint.Some? then v.checkpoint.value.indexedSeq else 0
  }

  /** Entries are uncheckpointed, and they are many or the oldest has waited. */
  predicate Due(c: Config, now: int, firstPending: Option<int>, uncheckpointed: int) {
    && firstPending.Some? && uncheckpointed > 0
    && (uncheckpointed >= c.cadenceEntries || now - firstPending.value >= c.cadenceAge)
  }

  /** The node array after indexing a batch, unless its sequence or a size is wrong. */
  function AddEntries(ns: seq<Hash>, indexed: int, batch: seq<Entry>): Result<seq<Hash>, Error>
    decreases batch
  {
    hide NodeCount, LeafFloor;
    if batch == [] then Ok(ns)
    else if batch[0].seqNo != indexed + 1 || |ns| >= MAX_MMR_SIZE || !Complete(|ns|) then Err(Corrupt)
    else AddEntries(Climb(ns + [Leaf(batch[0].value)]), indexed + 1, batch[1..])
  }

  predicate CanCheckpoint(ns: seq<Hash>, checkpoint: Option<CheckpointState<Statement>>) {
    && |ns| < MAX_MMR_SIZE && Complete(|ns|)
    && (checkpoint.Some? ==> 0 < checkpoint.value.size <= |ns| && Complete(checkpoint.value.size))
  }

  /** A checkpoint can be signed over a complete array, after an earlier non-empty one if there is one. */
  lemma CanSignExact(ns: seq<Hash>, checkpoint: Option<CheckpointState<Statement>>)
    ensures CanCheckpoint(ns, checkpoint) <==>
            && |ns| < 0x4_0000_0000_0000 && (exists f: nat :: NodeCount(f) == |ns|)
            && (checkpoint != None ==>
                  && 1 <= checkpoint.value.size && checkpoint.value.size <= |ns|
                  && exists g: nat :: NodeCount(g) == checkpoint.value.size)
  {
    hide NodeCount, LeafFloor, Complete;
    CompleteIff(|ns|);
    if checkpoint.Some? && checkpoint.value.size >= 0 {
      CompleteIff(checkpoint.value.size);
    }
  }

  function Sign(c: Config, now: int, ns: seq<Hash>, checkpoint: Option<CheckpointState<Statement>>): Statement
    requires CanCheckpoint(ns, checkpoint)
  {
    hide NodeCount, LeafFloor;
    CompleteCount(|ns|);
    if checkpoint.None? then
      Statement(c.logId, c.keyId, c.keyId, now, |ns|, At(ns, PeaksOf(LeafFloor(|ns|))), 0, None, None)
    else
      FloorOrder(checkpoint.value.size, |ns|);
      Statement(c.logId, c.keyId, c.keyId, now, |ns|, At(ns, PeaksOf(LeafFloor(|ns|))),
                checkpoint.value.size, Some(checkpoint.value.peaks),
                Some(HonestConsistency(ns, LeafFloor(checkpoint.value.size), LeafFloor(|ns|))))
  }

  /** A new checkpoint's delivery rows, one per witness. */
  function Queue(c: Config, now: int, size: int, statement: Statement): (rows: seq<Row>)
    ensures |rows| == |c.witnessIds|
    ensures forall i :: 0 <= i < |rows| ==>
                          rows[i] == WitnessState(c.witnessIds[i], size, statement, 0, now, None, false, None)
  {
    seq(|c.witnessIds|, i requires 0 <= i < |c.witnessIds| =>
      WitnessState(c.witnessIds[i], size, statement, 0, now, None, false, None))
  }

  /** The state one pass proposes after indexing `batch`; `None` when there is nothing to commit. */
  function Advance(c: Config, now: int, v: State, batch: seq<Entry>): Result<Option<State>, Error> {
    match AddEntries(v.nodes, v.indexedSeq, batch)
    case Err(e) => Err(e)
    case Ok(ns) =>
      var indexed := v.indexedSeq + |batch|;
      var firstPending :=
        if v.firstPendingAt.Some? || batch == [] then v.firstPendingAt else Some(batch[0].appendedAt);
      if Due(c, now, firstPending, indexed - Checkpointed(v)) then
        if !CanCheckpoint(ns, v.checkpoint) then Err(Invalid)
        else
          var statement := Sign(c, now, ns, v.checkpoint);
          Ok(Some(CllState(|ns|, ns, indexed, None,
                           Some(CheckpointState(statement, |ns|, indexed, statement.peaks)),
                           v.witnesses + Queue(c, now, |ns|, statement))))
      else if batch == [] then Ok(None)
      else Ok(Some(CllState(|ns|, ns, indexed, firstPending, v.checkpoint, v.witnesses)))
  }

  /** One pass over a log: scan at most one batch, then advance. */
  function Pass(c: Config, now: int, entries: seq<Entry>, v: State): Result<Option<State>, Error> {
    match ScanResult(entries, v.indexedSeq, c.scanLimit)
    case Err(e) => Err(e)
    case Ok(batch) => Advance(c, now, v, batch)
  }

  // ---- what a runner's state stands for ------------------------------------------------

  function Values(entries: seq<Entry>): (vs: seq<Hash>)
    ensures |vs| == |entries| && forall i :: 0 <= i < |vs| ==> vs[i] == entries[i].value
  {
    seq(|entries|, i requires 0 <= i < |entries| => entries[i].value)
  }

  /** The leaf hashes of the first `n` entries. */
  function Leaves(entries: seq<Entry>, n: nat): (ls: seq<Hash>)
    requires n <= |entries|
    ensures |ls| == n
    ensures forall i :: 0 <= i < n ==> ls[i] == Leaf(entries[i].value)
  {
    LeafHashes(Values(entries[..n]))
  }

  /** A checkpoint of the first `indexedSeq` entries, signed by this log. */
  ghost predicate TrueCheckpoint(c: Config, entries: seq<Entry>, k: CheckpointState<Statement>) {
    && 0 < k.indexedSeq <= |entries|
    && k.size == NodeCount(k.indexedSeq) < MAX_MMR_SIZE
    && k.peaks == Accumulator(Leaves(entries, k.indexedSeq))
    && k.bytes.logId == c.logId && k.bytes.keyId == c.keyId
    && k.bytes.size == k.size && k.bytes.peaks == k.peaks
    && Verifies(k.bytes)
  }

  /** The time of the first of the entries from `from` to `to`. */
  function FirstPending(entries: seq<Entry>, from: int, to: int): Option<int> {
    if 0 <= from < to <= |entries| then Some(entries[from].appendedAt) else None
  }

  /** Nodes, pending time and checkpoint are all as the entry log determines them. */
  ghost predicate TrueState(c: Config, entries: seq<Entry>, v: State) {
    && Dense(entries)
    && 0 <= v.indexedSeq <= |entries|
    && v.nodes == Nodes(Leaves(entries, v.indexedSeq)) && v.size == |v.nodes|
    && v.firstPendingAt == FirstPending(entries, Checkpointed(v), v.indexedSeq)
    && (v.checkpoint.Some? ==> TrueCheckpoint(c, entries, v.checkpoint.value) && Checkpointed(v) <= v.indexedSeq)
  }

  /** Checkpoint `k` names the one before it, and proves that it extends it. */
  ghost predicate Succeeds(previous: Option<CheckpointState<Statement>>, k: CheckpointState<Statement>) {
    match previous
    case None => k.bytes.prevSize == 0 && k.bytes.prevPeaks.None? && k.bytes.proof.None?
    case Some(p) =>
      && p.size < k.size && p.indexedSeq < k.indexedSeq
      && k.bytes.prevSize == p.size && k.bytes.prevPeaks == Some(p.peaks)
      && k.bytes.proof.Some?
      && Accepts(BagPeaks(p.peaks), p.size, BagPeaks(k.peaks), k.size, k.bytes.proof.value)
  }

  lemma LeavesPrefix(entries: seq<Entry>, n: nat, m: nat)
    requires n <= m <= |entries|
    ensures Leaves(entries, n) == Leaves(entries, m)[..n]
  {
  }

  lemma LeavesGrow(entries: seq<Entry>, more: seq<Entry>, n: nat)
    requires n <= |entries| && entries <= more
    ensures Leaves(entries, n) == Leaves(more, n)
  {
  }

  /** Entries appended later change nothing about a checkpoint or a state. */
  lemma CheckpointGrows(c: Config, entries: seq<Entry>, more: seq<Entry>, k: CheckpointState<Statement>)
    requires TrueCheckpoint(c, entries, k) && entries <= more
    ensures TrueCheckpoint(c, more, k)
  {
    hide NodeCount, Accumulator, Verifies, Leaves;
    LeavesGrow(entries, more, k.indexedSeq);
  }

  lemma StateGrows(c: Config, entries: seq<Entry>, more: seq<Entry>, v: State)
    requires TrueState(c, entries, v) && entries <= more && Dense(more)
    ensures TrueState(c, more, v)
  {
    hide NodeCount, Accumulator, Verifies, Leaves, Nodes, TrueCheckpoint;
    LeavesGrow(entries, more, v.indexedSeq);
    if v.checkpoint.Some? {
      CheckpointGrows(c, entries, more, v.checkpoint.value);
    }
  }

  // ---- one pass keeps all that --------------------------------------------------------

  lemma LeavesStep(entries: seq<Entry>, n: nat)
    requires n < |entries|
    ensures Leaves(entries, n) + [Leaf(entries[n].value)] == Leaves(entries, n + 1)
  {
  }

  lemma NodesSize(ls: seq<Hash>)
    ensures |Nodes(ls)| == NodeCount(|ls|) && Complete(|Nodes(ls)|) && LeafFloor(|Nodes(ls)|) == |ls|
  {
    hide NodeCount, LeafFloor, Nodes;
    ForestIsMmr(ls);
    LeafFloorOfCount(|ls|);
  }

  /** Indexing any batch of entries gives the forest over all entries so far. */
  lemma {:induction false} AddEntriesTrue(entries: seq<Entry>, a: nat, b: nat)
    requires Dense(entries) && a <= b <= |entries|
    ensures var r := AddEntries(Nodes(Leaves(entries, a)), a, entries[a..b]);
            && (r.Ok? ==> r.value == Nodes(Leaves(entries, b)))
            && (NodeCount(b) < MAX_MMR_SIZE ==> r.Ok?)
    decreases b - a
  {
    hide NodeCount, LeafFloor, Complete, Nodes, Climb, Leaves;
    if a < b {
      var ls := Leaves(entries, a);
      NodesSize(ls);
      AppendIsForest(ls, Leaf(entries[a].value));
      LeavesStep(entries, a);
      NodeCountMonotone(a, b);
      AddEntriesTrue(entries, a + 1, b);
      assert entries[a..b][1..] == entries[a + 1..b];
    }
  }

  /** Seqs go on where the index ends, and every entry still finds room. */
  ghost predicate Continues(batch: seq<Entry>, indexed: int, leaves: nat) {
    forall i | 0 <= i < |batch| :: batch[i].seqNo == indexed + 1 + i && NodeCount(leaves + i) < MAX_MMR_SIZE
  }

  lemma ContinuesStep(batch: seq<Entry>, indexed: int, leaves: nat)
    requires batch != []
    ensures Continues(batch, indexed, leaves) <==>
            && batch[0].seqNo == indexed + 1 && NodeCount(leaves) < MAX_MMR_SIZE
            && Continues(batch[1..], indexed + 1, leaves + 1)
  {
    hide NodeCount;
    var rest := batch[1..];
    if Continues(rest, indexed + 1, leaves + 1) {
      forall i | 0 < i < |batch|
        ensures batch[i].seqNo == indexed + 1 + i && NodeCount(leaves + i) < MAX_MMR_SIZE
      {
        assert rest[i - 1].seqNo == indexed + 1 + 1 + (i - 1) && NodeCount(leaves + 1 + (i - 1)) < MAX_MMR_SIZE;
      }
    }
    if Continues(batch, indexed, leaves) {
      assert batch[0].seqNo == indexed + 1 + 0 && NodeCount(leaves + 0) < MAX_MMR_SIZE;
      forall i | 0 <= i < |rest|
        ensures rest[i].seqNo == indexed + 1 + 1 + i && NodeCount(leaves + 1 + i) < MAX_MMR_SIZE
      {
        assert batch[i + 1].seqNo == indexed + 1 + (i + 1) && NodeCount(leaves + (i + 1)) < MAX_MMR_SIZE;
      }
    }
  }

  /** Indexing fails exactly on a batch that does not go on where the index ends, or when the array is full. */
  lemma {:induction false} AddEntriesExact(ls: seq<Hash>, indexed: int, batch: seq<Entry>)
    ensures var r := AddEntries(Nodes(ls), indexed, batch);
            && (r.Ok? <==> Continues(batch, indexed, |ls|))
            && (r.Err? ==> r.error == Corrupt)
    decreases |batch|
  {
    hide NodeCount, LeafFloor, Complete, Nodes, Climb, Continues;
    if batch == [] {
      NothingContinues(indexed, |ls|);
    } else {
      var leaf := Leaf(batch[0].value);
      NodesSize(ls);
      AppendIsForest(ls, leaf);
      AddEntriesExact(ls + [leaf], indexed + 1, batch[1..]);
      ContinuesStep(batch, indexed, |ls|);
    }
  }

  lemma NothingContinues(indexed: int, leaves: nat)
    ensures Continues([], indexed, leaves)
  {
  }

  lemma AccumulatorAt(entries: seq<Entry>, n: nat)
    requires n <= |entries|
    ensures |Nodes(Leaves(entries, n))| == NodeCount(n)
    ensures At(Nodes(Leaves(entries, n)), PeaksOf(n)) == Accumulator(Leaves(entries, n))
  {
    hide NodeCount, Nodes, Leaves, Mountains;
    NodesSize(Leaves(entries, n));
  }

  /** What the runner signs over the true nodes verifies, and succeeds the checkpoint before. */
  lemma SignedTrue(c: Config, now: int, entries: seq<Entry>, n: nat, checkpoint: Option<CheckpointState<Statement>>)
    requires ValidConfig(c) && n <= |entries|
    requires checkpoint.Some? ==> TrueCheckpoint(c, entries, checkpoint.value) && checkpoint.value.indexedSeq < n
    requires checkpoint.None? ==> 0 < n
    requires CanCheckpoint(Nodes(Leaves(entries, n)), checkpoint)
    ensures var ns := Nodes(Leaves(entries, n));
            var statement := Sign(c, now, ns, checkpoint);
            var k := CheckpointState(statement, |ns|, n, statement.peaks);
            TrueCheckpoint(c, entries, k) && Succeeds(checkpoint, k)
  {
    hide NodeCount, LeafFloor, Complete, Nodes, Leaves, Accumulator, Accepts, HonestConsistency, BagPeaks;
    var ls := Leaves(entries, n);
    var ns := Nodes(ls);
    NodesSize(ls);
    AccumulatorAt(entries, n);
    if checkpoint.Some? {
      var fa := checkpoint.value.indexedSeq;
      LeafFloorOfCount(fa);
      NodeCountMonotone(fa, n);
      LeavesPrefix(entries, fa, n);
      ConsistencyExact(ls, BagPeaks(checkpoint.value.peaks), checkpoint.value.size, HonestConsistency(ns, fa, n));
    }
  }

  /** How the checkpoint and the rows of a proposed state relate to the loaded ones. */
  ghost predicate Proposes(c: Config, now: int, v: State, next: State) {
    if next.checkpoint == v.checkpoint then next.witnesses == v.witnesses
    else
      && next.checkpoint.Some? && Succeeds(v.checkpoint, next.checkpoint.value)
      && next.checkpoint.value.indexedSeq == next.indexedSeq && next.checkpoint.value.size == next.size
      && next.witnesses == v.witnesses + Queue(c, now, next.size, next.checkpoint.value.bytes)
  }

  /** Every proposal made from a true state and a true batch is again a true state. */
  lemma AdvanceTrue(c: Config, now: int, entries: seq<Entry>, v: State, batch: seq<Entry>)
    requires ValidConfig(c) && TrueState(c, entries, v)
    requires v.indexedSeq + |batch| <= |entries| && batch == entries[v.indexedSeq..v.indexedSeq + |batch|]
    requires Advance(c, now, v, batch).Ok? && Advance(c, now, v, batch).value.Some?
    ensures var next := Advance(c, now, v, batch).value.value;
            && TrueState(c, entries, next) && Proposes(c, now, v, next)
            && next.indexedSeq == v.indexedSeq + |batch| && v.nodes <= next.nodes
  {
    hide NodeCount, LeafFloor, Complete, Nodes, Leaves, TrueCheckpoint, Succeeds, Sign, AddEntries;
    var n := v.indexedSeq + |batch|;
    AddEntriesTrue(entries, v.indexedSeq, n);
    NodesGrow(entries, v.indexedSeq, n);
    PendingStep(c, entries, v, n);
    var ns := Nodes(Leaves(entries, n));
    if v.checkpoint.Some? {
      CheckpointPositive(c, entries, v.checkpoint.value);
    }
    var firstPending :=
      if v.firstPendingAt.Some? || batch == [] then v.firstPendingAt else Some(batch[0].appendedAt);
    if Due(c, now, firstPending, n - Checkpointed(v)) {
      SignedTrue(c, now, entries, n, v.checkpoint);
    }
  }

  /**
    When a pass signs, over the entry log: entries after the first `k`, which the
    latest checkpoint covers, are indexed, and they are as many as the cadence says
    or the first of them is as old.  And what it then proposes besides the nodes.
  */
  lemma SignsExactly(c: Config, now: int, entries: seq<Entry>, v: State, batch: seq<Entry>)
    requires ValidConfig(c) && TrueState(c, entries, v)
    requires v.indexedSeq + |batch| <= |entries| && batch == entries[v.indexedSeq..v.indexedSeq + |batch|]
    requires Advance(c, now, v, batch).Ok?
    ensures var k := if v.checkpoint.Some? then v.checkpoint.value.indexedSeq else 0;
            var n := v.indexedSeq + |batch|;
            var signs := k < n && (n - k >= c.cadenceEntries || now - entries[k].appendedAt >= c.cadenceAge);
            var r := Advance(c, now, v, batch).value;
            && 0 <= k <= n
            && (r.None? <==> !signs && batch == [])
            && (r.Some? ==> r.value.indexedSeq == n && r.value.size == |r.value.nodes| == NodeCount(n))
            && (r.Some? && !signs ==> r.value.checkpoint == v.checkpoint && r.value.witnesses == v.witnesses)
            && (r.Some? && signs ==>
                  && r.value.checkpoint.Some? && r.value.checkpoint.value.indexedSeq == n
                  && var s := r.value.checkpoint.value.bytes;
                     && s.issuedAt == now && s.signer == c.keyId
                     && |r.value.witnesses| == |v.witnesses| + |c.witnessIds|
                     && v.witnesses <= r.value.witnesses
                     && forall i | 0 <= i < |c.witnessIds| ::
                          r.value.witnesses[|v.witnesses| + i] ==
                          WitnessState(c.witnessIds[i], NodeCount(n), s, 0, now, None, false, None))
  {
    hide NodeCount, LeafFloor, Complete, Nodes, Leaves, TrueCheckpoint, AddEntries, Sign, CanCheckpoint;
    var n := v.indexedSeq + |batch|;
    AddEntriesTrue(entries, v.indexedSeq, n);
    var ns := Nodes(Leaves(entries, n));
    NodesSize(Leaves(entries, n));
    PendingStep(c, entries, v, n);
    if v.checkpoint.Some? {
      CheckpointPositive(c, entries, v.checkpoint.value);
    }
    if CanCheckpoint(ns, v.checkpoint) {
      SignNames(c, now, ns, v.checkpoint);
    }
  }

  lemma SignNames(c: Config, now: int, ns: seq<Hash>, checkpoint: Option<CheckpointState<Statement>>)
    requires CanCheckpoint(ns, checkpoint)
    ensures Sign(c, now, ns, checkpoint).issuedAt == now && Sign(c, now, ns, checkpoint).signer == c.keyId
  {
    hide NodeCount, LeafFloor, Complete;
  }

  /**
    What a pass over a log makes of a state, in terms of the entries: `k` are
    covered by the latest checkpoint, and `n` are indexed after one more scan.
  */
  ghost predicate Advanced(c: Config, now: int, entries: seq<Entry>, v: State, next: Option<State>) {
    var k := if v.checkpoint.Some? then v.checkpoint.value.indexedSeq else 0;
    var n := if |entries| - v.indexedSeq <= c.scanLimit then |entries| else v.indexedSeq + c.scanLimit;
    var signs := 0 <= k < n <= |entries|
                 && (n - k >= c.cadenceEntries || now - entries[k].appendedAt >= c.cadenceAge);
    && (next.Some? <==> signs || v.indexedSeq < n)
    && (next.Some? ==>
          && next.value.indexedSeq == n
          && (!signs ==> next.value.checkpoint == v.checkpoint && next.value.witnesses == v.witnesses)
          && (signs ==>
                && next.value.checkpoint.Some? && next.value.checkpoint != v.checkpoint
                && next.value.checkpoint.value.indexedSeq == n
                && next.value.checkpoint.value.bytes.issuedAt == now
                && |next.value.witnesses| == |v.witnesses| + |c.witnessIds|))
  }

  lemma PassIsAdvanced(c: Config, now: int, entries: seq<Entry>, v: State)
    ensures ValidConfig(c) && TrueState(c, entries, v) && Pass(c, now, entries, v).Ok? ==>
              Advanced(c, now, entries, v, Pass(c, now, entries, v).value)
  {
    hide NodeCount, LeafFloor, Complete, Nodes, Leaves, TrueCheckpoint, Advance;
    if ValidConfig(c) && TrueState(c, entries, v) && Pass(c, now, entries, v).Ok? {
      var batch := ScanResult(entries, v.indexedSeq, c.scanLimit).value;
      SignsExactly(c, now, entries, v, batch);
    }
  }

  /** Everything indexed, fewer entries without a checkpoint than the cadence, and the first of them younger. */
  ghost predicate UpToDate(c: Config, now: int, entries: seq<Entry>, v: State) {
    var k := if v.checkpoint.Some? then v.checkpoint.value.indexedSeq else 0;
    && v.indexedSeq == |entries| && 0 <= k <= |entries|
    && |entries| - k < c.cadenceEntries
    && (k < |entries| ==> now - entries[k].appendedAt < c.cadenceAge)
  }

  /** Nothing left to index and nothing due: the state is up to date. */
  lemma NotDueIsUpToDate(c: Config, now: int, entries: seq<Entry>, v: State)
    requires ValidConfig(c) && TrueState(c, entries, v) && Remaining(entries, v) == 0 && !IsDue(c, now, v)
    ensures UpToDate(c, now, entries, v)
  {
    hide NodeCount, Nodes, Leaves, TrueCheckpoint;
    if v.checkpoint.Some? {
      CheckpointPositive(c, entries, v.checkpoint.value);
    }
  }

  lemma SoundIsUpToDate(c: Config, now: int, entries: seq<Entry>, v: State)
    requires ValidConfig(c) && Remaining(entries, v) == 0 && !IsDue(c, now, v)
    ensures Sound(c, entries, v) ==> UpToDate(c, now, entries, v)
  {
    hide TrueState, ValidState, RowsBelow, NodeCount, IsDue, UpToDate;
    if Sound(c, entries, v) {
      NotDueIsUpToDate(c, now, entries, v);
    }
  }

  lemma CheckpointPositive(c: Config, entries: seq<Entry>, k: CheckpointState<Statement>)
    requires TrueCheckpoint(c, entries, k)
    ensures 0 < k.indexedSeq <= |entries|
  {
  }

  lemma NodesGrow(entries: seq<Entry>, a: nat, b: nat)
    requires a <= b <= |entries|
    ensures Nodes(Leaves(entries, a)) <= Nodes(Leaves(entries, b))
  {
    hide NodeCount, LeafFloor, Nodes, Leaves;
    LeavesPrefix(entries, a, b);
    ForestPrefix(Leaves(entries, b), a);
  }

  lemma PendingStep(c: Config, entries: seq<Entry>, v: State, n: nat)
    requires TrueState(c, entries, v) && v.indexedSeq <= n <= |entries|
    ensures FirstPending(entries, Checkpointed(v), n) ==
            if v.firstPendingAt.Some? || v.indexedSeq == n then v.firstPendingAt
            else Some(entries[v.indexedSeq].appendedAt)
  {
    hide NodeCount, Nodes, Leaves, TrueCheckpoint;
    if v.checkpoint.Some? {
      CheckpointPositive(c, entries, v.checkpoint.value);
    }
  }

  // ---- what a fresh load accepts --------------------------------------------------------

  ghost predicate CheckpointLoads(c: Config, v: State, k: CheckpointState<Statement>) {
    && 0 <= k.size <= v.size && k.size < MAX_MMR_SIZE && Complete(k.size)
    && LeafFloor(k.size) == k.indexedSeq <= v.indexedSeq
    && v.size == |v.nodes|
    && (CompleteCount(k.size);
        k.peaks == At(v.nodes, PeaksOf(LeafFloor(k.size))))
    && Verifies(k.bytes)
    && k.bytes.logId == c.logId && k.bytes.keyId == c.keyId
    && k.bytes.size == k.size && k.bytes.peaks == k.peaks
  }

  ghost predicate Loads(c: Config, v: State) {
    && 0 <= v.size < MAX_MMR_SIZE && Complete(v.size)
    && v.size == |v.nodes| && LeafFloor(v.size) == v.indexedSeq
    && (v.checkpoint.Some? ==> CheckpointLoads(c, v, v.checkpoint.value))
  }

  /** A true state within the size limit loads, so a cached state is what a fresh load would return. */
  lemma TrueStateLoads(c: Config, entries: seq<Entry>, v: State)
    requires TrueState(c, entries, v) && v.size < MAX_MMR_SIZE
    ensures Loads(c, v)
  {
    hide NodeCount, LeafFloor, Complete, Nodes, Leaves, Verifies, Accumulator;
    NodesSize(Leaves(entries, v.indexedSeq));
    if v.checkpoint.Some? {
      var k := v.checkpoint.value;
      NodesSize(Leaves(entries, k.indexedSeq));
      LeavesPrefix(entries, k.indexedSeq, v.indexedSeq);
      NodeCountMonotone(k.indexedSeq, v.indexedSeq);
      EarlierAccumulator(Leaves(entries, v.indexedSeq), k.indexedSeq);
    }
  }

  // ---- commits of a single writer ---------------------------------------------------------

  /** No delivery row is for a size above the latest checkpoint's. */
  predicate RowsBelow(v: State) {
    forall row <- v.witnesses :: v.checkpoint.Some? && row.checkpointSize <= v.checkpoint.value.size
  }

  lemma QueueIsNew(c: Config, now: int, v: State, size: int, statement: Statement)
    requires ValidConfig(c) && RowsBelow(v) && DistinctKeys(v.witnesses)
    requires v.checkpoint.Some? ==> v.checkpoint.value.size < size
    ensures var rows := Queue(c, now, size, statement);
            && DistinctKeys(v.witnesses + rows)
            && RowsKeepCheckpoints(v.witnesses, v.witnesses + rows)
            && v.witnesses + NewRows(v.witnesses, v.witnesses + rows) == v.witnesses + rows
  {
    hide NewRows, FindRow;
    var rows := Queue(c, now, size, statement);
    forall row <- rows
      ensures FindRow(v.witnesses, row.Key()).None?
    {
    }
    AppendedDistinct(v.witnesses, rows);
    StoredIsFound(v.witnesses);
    NewRowsConcat(v.witnesses, v.witnesses, rows);
    NoNewRows(v.witnesses, v.witnesses);
    AllNewRows(v.witnesses, rows);
    FindOwn(v.witnesses);
  }

  lemma FindOwn(rows: seq<Row>)
    requires DistinctKeys(rows)
    ensures forall row <- rows :: FindRow(rows, row.Key()) == Some(row)
  {
    hide FindRow;
    StoredIsFound(rows);
    forall row <- rows
      ensures FindRow(rows, row.Key()) == Some(row)
    {
      var found := FindRow(rows, row.Key());
      var i :| 0 <= i < |rows| && rows[i] == row;
      var j :| 0 <= j < |rows| && rows[j] == found.value;
    }
  }

  /** What a single writer proposes, the store takes unchanged. */
  lemma ProposalCommits(c: Config, now: int, entries: seq<Entry>, v: State, next: State)
    requires ValidConfig(c) && ValidState(v) && RowsBelow(v)
    requires TrueState(c, entries, v) && TrueState(c, entries, next)
    requires Proposes(c, now, v, next) && v.nodes <= next.nodes && v.indexedSeq <= next.indexedSeq
    ensures ApplyCll(v, v.size, CheckpointBytes(v), next) == Ok(next)
    ensures ValidState(next) && RowsBelow(next)
  {
    hide NodeCount, LeafFloor, Complete, Nodes, Leaves, Verifies, Accumulator, NewRows, FindRow, RowsKeepCheckpoints,
      DistinctKeys, Accepts, BagPeaks;
    NodesSize(Leaves(entries, next.indexedSeq));
    if next.checkpoint.Some? {
      var k := next.checkpoint.value;
      NodeCountMonotone(k.indexedSeq, next.indexedSeq);
    }
    if next.checkpoint == v.checkpoint {
      SameRows(v.witnesses);
    } else {
      QueueIsNew(c, now, v, next.size, next.checkpoint.value.bytes);
    }
  }

  lemma SameRows(rows: seq<Row>)
    requires DistinctKeys(rows)
    ensures RowsKeepCheckpoints(rows, rows) && NewRows(rows, rows) == [] && rows + [] == rows
  {
    hide NewRows, FindRow;
    FindOwn(rows);
    NoNewRows(rows, rows);
  }

  // ---- catching up ----------------------------------------------------------------------------

  function Remaining(entries: seq<Entry>, v: State): nat {
    if v.indexedSeq < |entries| then |entries| - v.indexedSeq else 0
  }

  predicate IsDue(c: Config, now: int, v: State) {
    Due(c, now, v.firstPendingAt, v.indexedSeq - Checkpointed(v))
  }

  /** What a pass leaves is never due at the same time, and a pass with nothing to do finds nothing due. */
  lemma PassProgress(c: Config, now: int, entries: seq<Entry>, v: State)
    requires Pass(c, now, entries, v).Ok? && v.indexedSeq >= 0
    ensures var next := Pass(c, now, entries, v).value;
            && (next.None? ==> Remaining(entries, v) == 0 && !IsDue(c, now, v))
            && (next.Some? ==>
                  && !IsDue(c, now, next.value)
                  && (Remaining(entries, v) <= c.scanLimit ==> Remaining(entries, next.value) == 0)
                  && (Remaining(entries, v) > c.scanLimit ==> next.value.indexedSeq == v.indexedSeq + c.scanLimit)
                  && (Remaining(entries, v) == 0 ==> IsDue(c, now, v) && next.value.firstPendingAt.None?))
  {
    hide AddEntries, CanCheckpoint, Sign;
  }

  /** At most max(1, ceil(k / limit)). */
  predicate WithinBatches(commits: nat, limit: nat, k: nat) {
    commits == 0 || (commits - 1) * limit < if k == 0 then 1 else k
  }

  /** `v` is where `commits` passes over `k` unindexed entries lead. */
  ghost predicate Progressed(c: Config, now: int, entries: seq<Entry>, k: nat, commits: nat, v: State) {
    && (Remaining(entries, v) > 0 ==> Remaining(entries, v) == k - commits * c.scanLimit)
    && (Remaining(entries, v) == 0 && commits > 0 ==> WithinBatches(commits, c.scanLimit, k) && !IsDue(c, now, v))
  }

  lemma ProgressBound(c: Config, now: int, entries: seq<Entry>, k: nat, commits: nat, v: State)
    requires Progressed(c, now, entries, k, commits, v)
    ensures WithinBatches(commits, c.scanLimit, k)
  {
    hide IsDue;
    if commits > 0 && Remaining(entries, v) > 0 {
      assert (commits - 1) * c.scanLimit <= commits * c.scanLimit;
    }
  }

  lemma ProgressStart(c: Config, now: int, entries: seq<Entry>, v: State)
    ensures Progressed(c, now, entries, Remaining(entries, v), 0, v)
  {
  }

  /** Progress does not depend on the witness rows. */
  lemma ProgressOfReload(c: Config, now: int, entries: seq<Entry>, k: nat, commits: nat, v: State, rows: seq<Row>)
    requires Progressed(c, now, entries, k, commits, v)
    ensures Progressed(c, now, entries, k, commits, v.(witnesses := rows))
  {
  }

  lemma ProgressStep(c: Config, now: int, entries: seq<Entry>, k: nat, commits: nat, v: State)
    requires v.indexedSeq >= 0 && Progressed(c, now, entries, k, commits, v)
    requires Pass(c, now, entries, v).Ok? && Pass(c, now, entries, v).value.Some?
    ensures var next := Pass(c, now, entries, v).value.value;
            && Progressed(c, now, entries, k, commits + 1, next)
            && Remaining(entries, next) <= Remaining(entries, v)
            && (Remaining(entries, next) == Remaining(entries, v) ==>
                  v.firstPendingAt.Some? && next.firstPendingAt.None?)
  {
    hide Pass, IsDue;
    PassProgress(c, now, entries, v);
    DueNeedsPending(c, now, v);
    LimitPositive(c, now, entries, v);
    var next := Pass(c, now, entries, v).value.value;
    assert (commits + 1) * c.scanLimit == commits * c.scanLimit + c.scanLimit;
    assert (commits + 1 - 1) * c.scanLimit == commits * c.scanLimit;
  }

  lemma LimitPositive(c: Config, now: int, entries: seq<Entry>, v: State)
    requires Pass(c, now, entries, v).Ok?
    ensures c.scanLimit > 0
  {
    hide Advance;
  }

  lemma DueNeedsPending(c: Config, now: int, v: State)
    ensures IsDue(c, now, v) ==> v.firstPendingAt.Some?
  {
  }

  /** A log whose store holds a true state, within the size limits. */
  ghost predicate Sound(c: Config, entries: seq<Entry>, v: State) {
    && ValidState(v) && TrueState(c, entries, v) && RowsBelow(v)
    && NodeCount(|entries|) < MAX_MMR_SIZE && |entries| <= MAX_PORTABLE_INTEGER
  }

  /** On a sound log a pass cannot fail, and what it proposes commits and leaves a sound log. */
  lemma SoundPass(c: Config, now: int, entries: seq<Entry>, v: State)
    requires ValidConfig(c) && Sound(c, entries, v)
    ensures Loads(c, v)
    ensures var r := Pass(c, now, entries, v);
            r.Ok? && (r.value.Some? ==> Sound(c, entries, r.value.value)
                                        && ApplyCll(v, v.size, CheckpointBytes(v), r.value.value) == Ok(r.value.value))
  {
    hide NodeCount, LeafFloor, Complete, Nodes, Leaves, TrueCheckpoint, Succeeds, Sign, AddEntries, RowsBelow,
      ValidState, Loads, Advance, Proposes;
    NodeCountMonotone(v.indexedSeq, |entries|);
    NodesSize(Leaves(entries, v.indexedSeq));
    TrueStateLoads(c, entries, v);
    var batch := Scan(entries, v.indexedSeq, c.scanLimit);
    AdvanceOk(c, now, entries, v, batch);
    var r := Pass(c, now, entries, v);
    if r.value.Some? {
      AdvanceTrue(c, now, entries, v, batch);
      ProposalCommits(c, now, entries, v, r.value.value);
    }
  }

  lemma AdvanceOk(c: Config, now: int, entries: seq<Entry>, v: State, batch: seq<Entry>)
    requires TrueState(c, entries, v) && NodeCount(|entries|) < MAX_MMR_SIZE
    requires v.indexedSeq + |batch| <= |entries| && batch == entries[v.indexedSeq..v.indexedSeq + |batch|]
    ensures Advance(c, now, v, batch).Ok?
  {
    hide NodeCount, LeafFloor, Complete, Nodes, Leaves, Succeeds, Sign, AddEntries, Accumulator, Verifies;
    var n := v.indexedSeq + |batch|;
    NodeCountMonotone(n, |entries|);
    AddEntriesTrue(entries, v.indexedSeq, n);
    NodesSize(Leaves(entries, n));
    if v.checkpoint.Some? {
      var i := v.checkpoint.value.indexedSeq;
      NodesSize(Leaves(entries, i));
      NodeCountMonotone(i, n);
      NodeCountMonotone(0, i);
    }
  }

  /** A pass from `v` on a store holding `stored` ends with result `r`, leaving `after` stored and `v2` cached. */
  ghost predicate Passes(c: Config, now: int, entries: seq<Entry>, stored: State, v: State,
                         r: Result<bool, Error>, after: State, v2: State) {
    match Pass(c, now, entries, v)
    case Err(e) => r == Err(e) && after == stored
    case Ok(None) => r == Ok(false) && after == stored
    case Ok(Some(next)) =>
      match ApplyCll(stored, v.size, CheckpointBytes(v), next)
      case Err(e) => r == Err(e) && after == stored
      case Ok(applied) => r == Ok(true) && after == applied && v2 == next
  }

  lemma StepFacts(c: Config, now: int, entries: seq<Entry>, k: nat, commits: nat, stored: State, v: State,
                  r: Result<bool, Error>, after: State, v2: State)
    requires ValidConfig(c) && ValidState(stored) && stored == v.(witnesses := stored.witnesses)
    requires Progressed(c, now, entries, k, commits, v)
    requires Passes(c, now, entries, stored, v, r, after, v2)
    ensures r == Ok(true) ==>
              && after == v2.(witnesses := after.witnesses)
              && Progressed(c, now, entries, k, commits + 1, v2)
              && Remaining(entries, v2) <= Remaining(entries, v)
              && (Remaining(entries, v2) == Remaining(entries, v) ==>
                    v.firstPendingAt.Some? && v2.firstPendingAt.None?)
    ensures r == Ok(false) ==> after == stored && Remaining(entries, stored) == 0 && !IsDue(c, now, stored)
    ensures r.Err? ==> after == stored
    ensures v == stored && Sound(c, entries, stored) ==>
              && Loads(c, stored) && r.Ok? && Sound(c, entries, after)
              && (r.value ==> v2 == after)
  {
    hide Pass, ApplyCll, ValidState, Sound, Loads, Progressed, NewRows, Due;
    IndexedNat(stored);
    var pass := Pass(c, now, entries, v);
    if pass.Ok? {
      PassProgress(c, now, entries, v);
      if pass.value.Some? {
        ProgressStep(c, now, entries, k, commits, v);
        if r.Ok? {
          AppliedIsProposed(stored, v.size, CheckpointBytes(v), pass.value.value);
        }
      }
    }
    if v == stored && Sound(c, entries, stored) {
      SoundPass(c, now, entries, v);
    }
  }

  lemma IndexedNat(v: State)
    requires ValidState(v)
    ensures v.indexedSeq >= 0
  {
  }
}

module Runner {
  import opened Wrappers
  import opened Positions
  import opened Digests
  import opened AppendSpec
  import opened Append
  import opened Accumulators
  import opened CorePositions
  import opened Consistency
  import opened Engine
  import opened Statements
  import opened RunnerSpec

  /** What a pass works on: a stored state, with the tree of its nodes restored. */
  class Loaded {
    var state: State
    const nodes: NodeStore

    constructor (state: State, nodes: NodeStore)
      ensures this.state == state && this.nodes == nodes
    {
      this.state := state;
      this.nodes := nodes;
    }
  }

  class CheckpointRunner {
    const store: Engine<Statement>
    const config: Config

    constructor (store: Engine<Statement>, config: Config)
      requires ValidConfig(config)
      ensures this.store == store && this.config == config
    {
      this.store := store;
      this.config := config;
    }

    method Load() returns (r: Result<Loaded, Error>)
      requires store.Valid()
      ensures r.Ok? <==> Loads(config, store.state)
      ensures r.Ok? ==> fresh(r.value) && fresh(r.value.nodes)
      ensures r.Ok? ==> r.value.state == store.state && r.value.nodes.nodes == store.state.nodes
      ensures r.Err? ==> r.error == Corrupt
    {
      hide NodeCount, LeafFloor, Complete, Verifies, CheckpointLoads, ValidState;
      var state := store.state;
      var nodes := new NodeStore();
      nodes.AppendNodes(state.nodes);
      var leaves := LeafCount(state.size);
      if leaves.Err? || leaves.value != state.indexedSeq || state.size != |state.nodes| {
        return Err(Corrupt);
      }
      if state.checkpoint.Some? {
        var ok := VerifyCheckpoint(state, nodes, state.checkpoint.value);
        if !ok {
          return Err(Corrupt);
        }
      }
      var loaded := new Loaded(state, nodes);
      return Ok(loaded);
    }

    method VerifyCheckpoint(state: State, nodes: NodeStore, k: CheckpointState<Statement>) returns (ok: bool)
      requires nodes.nodes == state.nodes && state.size == |state.nodes|
      ensures ok <==> CheckpointLoads(config, state, k)
    {
      hide NodeCount, LeafFloor, Complete, Verifies, Mountains;
      var leaves := LeafCount(k.size);
      if leaves.Err? || k.size > state.size || leaves.value != k.indexedSeq || k.indexedSeq > state.indexedSeq {
        return false;
      }
      var positions := PeakPositions(k.size);
      assert positions.value == PeaksOf(LeafFloor(k.size));
      CompleteCount(k.size);
      var peaks := At(nodes.nodes, positions.value);
      if peaks != k.peaks {
        return false;
      }
      var verified := VerifyStatement(k.bytes);
      return verified && k.bytes.logId == config.logId && k.bytes.keyId == config.keyId
        && k.bytes.size == k.size && k.bytes.peaks == k.peaks;
    }

    /** Add a batch to the node store, checking that it continues the index. */
    method IndexBatch(nodes: NodeStore, indexed: int, batch: seq<Entry>) returns (r: Result<(), Error>)
      modifies nodes
      ensures match AddEntries(old(nodes.nodes), indexed, batch)
              case Err(e) => r == Err(e)
              case Ok(ns) => r.Ok? && nodes.nodes == ns
    {
      hide NodeCount, LeafFloor, Complete, Climb;
      var at := indexed;
      for i := 0 to |batch|
        invariant at == indexed + i
        invariant AddEntries(old(nodes.nodes), indexed, batch) == AddEntries(nodes.nodes, at, batch[i..])
      {
        assert batch[i..][0] == batch[i] && batch[i..][1..] == batch[i + 1..];
        if batch[i].seqNo != at + 1 {
          return Err(Corrupt);
        }
        var added := AddLeaf(nodes, Leaf(batch[i].value));
        if added.Err? {
          return Err(Corrupt);
        }
        at := batch[i].seqNo;
      }
      return Ok(());
    }

    method SignCheckpoint(now: int, nodes: NodeStore, k: Option<CheckpointState<Statement>>)
      returns (r: Result<Statement, Error>)
      ensures r.Ok? <==> CanCheckpoint(nodes.nodes, k)
      ensures r.Ok? ==> r.value == Sign(config, now, nodes.nodes, k)
      ensures r.Err? ==> r.error == Invalid
    {
      hide NodeCount, LeafFloor, Complete, Mountains, HonestConsistency;
      var size := |nodes.nodes|;
      var positions := PeakPositions(size);
      if positions.Err? {
        return Err(Invalid);
      }
      CompleteCount(size);
      assert positions.value == PeaksOf(LeafFloor(size));
      var peaks := At(nodes.nodes, positions.value);
      if k.None? {
        return Ok(Statement(config.logId, config.keyId, config.keyId, now, size, peaks, 0, None, None));
      }
      var proof := ProveConsistency(nodes, k.value.size, size);
      if proof.Err? || k.value.size == 0 {
        return Err(Invalid);
      }
      return Ok(Statement(config.logId, config.keyId, config.keyId, now, size, peaks,
                          k.value.size, Some(k.value.peaks), Some(proof.value)));
    }

    method AdvanceOnce(now: int, loaded: Loaded) returns (r: Result<bool, Error>)
      requires store.Valid() && loaded.nodes.nodes == loaded.state.nodes
      modifies store`state, loaded, loaded.nodes
      ensures store.Valid()
      ensures Passes(config, now, store.entries, old(store.state), old(loaded.state), r, store.state, loaded.state)
      ensures r == Ok(true) ==> loaded.nodes.nodes == loaded.state.nodes
      ensures ValidConfig(config) && TrueState(config, store.entries, old(loaded.state)) && r.Ok? ==>
                Advanced(config, now, store.entries, old(loaded.state), if r.value then Some(loaded.state) else None)
    {
      hide CanCheckpoint, Sign, AddEntries, ApplyCll, Scan, ValidState, TrueState, Advanced, ValidConfig;
      PassIsAdvanced(config, now, store.entries, loaded.state);
      var state := loaded.state;
      var nodes := loaded.nodes;
      var scanned := store.ScanEntries(state.indexedSeq, config.scanLimit);
      if scanned.Err? {
        return Err(scanned.error);
      }
      var entries := scanned.value;
      var firstPending := state.firstPendingAt;
      var added := IndexBatch(nodes, state.indexedSeq, entries);
      if added.Err? {
        return Err(added.error);
      }
      var indexed := state.indexedSeq + |entries|;
      if entries != [] && firstPending.None? {
        firstPending := Some(entries[0].appendedAt);
      }
      var size := |nodes.nodes|;
      var next := CllState(size, nodes.nodes, indexed, firstPending, state.checkpoint, state.witnesses);
      if Due(config, now, firstPending, indexed - Checkpointed(state)) {
        var statement := SignCheckpoint(now, nodes, state.checkpoint);
        if statement.Err? {
          return Err(statement.error);
        }
        next := CllState(size, nodes.nodes, indexed, None,
                         Some(CheckpointState(statement.value, size, indexed, statement.value.peaks)),
                         state.witnesses + Queue(config, now, size, statement.value));
      } else if entries == [] {
        return Ok(false);
      }
      var committed := store.CommitCll(state.size, CheckpointBytes(state), next);
      if committed.Err? {
        return Err(committed.error);
      }
      loaded.state := next;
      return Ok(true);
    }

    /** One pass: load, and index no more entries than one scan returns. */
    method RunOnce(now: int) returns (r: Result<bool, Error>)
      requires store.Valid()
      modifies store`state
      ensures store.Valid()
      ensures !Loads(config, old(store.state)) ==> r == Err(Corrupt) && store.state == old(store.state)
      ensures Loads(config, old(store.state)) ==>
                exists v :: Passes(config, now, store.entries, old(store.state), old(store.state), r, store.state, v)
    {
      hide Loads, Passes, ValidState;
      var loaded := Load();
      if loaded.Err? {
        return Err(loaded.error);
      }
      r := AdvanceOnce(now, loaded.value);
    }

    /**
      Repeat until nothing changes, reloading once after contention.  With no
      other writer it ends with every entry indexed and nothing due, after at
      most max(1, ceil(k / scanLimit)) commits for k unindexed entries, and on
      a sound log it never fails.  Between batches the cached state is the
      stored one up to witness rows.  `commits` and `reloads` count what it did.
    */
    method CatchUp(now: int) returns (r: Result<(), Error>, commits: nat, reloads: nat)
      requires store.Valid() && ValidConfig(config)
      modifies store`state
      ensures store.Valid()
      ensures r.Ok? ==> Remaining(store.entries, store.state) == 0 && !IsDue(config, now, store.state)
      ensures WithinBatches(commits, config.scanLimit, Remaining(store.entries, old(store.state)))
      ensures reloads <= commits + 1
      ensures Sound(config, store.entries, old(store.state)) ==>
                && r.Ok? && Sound(config, store.entries, store.state)
                && UpToDate(config, now, store.entries, store.state)
    {
      hide Loads, Passes, ValidState, Sound, Progressed, WithinBatches, NewRows, Due, TrueState, UpToDate, Advanced;
      commits, reloads := 0, 0;
      ghost var k := Remaining(store.entries, store.state);
      ProgressStart(config, now, store.entries, store.state);
      ProgressBound(config, now, store.entries, k, 0, store.state);
      ghost var sound := Sound(config, store.entries, store.state);
      if sound {
        SoundPass(config, now, store.entries, store.state);
      }
      var first := Load();
      if first.Err? {
        return Err(first.error), 0, 0;
      }
      var loaded := first.value;
      var reloaded := false;
      while true
        invariant fresh(loaded) && fresh(loaded.nodes) && loaded.nodes.nodes == loaded.state.nodes
        invariant store.Valid()
        invariant reloads <= commits + if reloaded then 1 else 0
        invariant store.state == loaded.state.(witnesses := store.state.witnesses)
        invariant sound ==> Sound(config, store.entries, store.state) && loaded.state == store.state
        invariant Progressed(config, now, store.entries, k, commits, loaded.state)
        decreases Remaining(store.entries, loaded.state),
                  if loaded.state.firstPendingAt.Some? then 1 else 0, if reloaded then 0 else 1
      {
        ghost var before, stored := loaded.state, store.state;
        ProgressBound(config, now, store.entries, k, commits, before);
        var changed := AdvanceOnce(now, loaded);
        StepFacts(config, now, store.entries, k, commits, stored, before, changed, store.state, loaded.state);
        if changed == Err(Contention) && !reloaded {
          var again := Load();
          if again.Err? {
            return Err(again.error), commits, reloads;
          }
          loaded := again.value;
          ProgressOfReload(config, now, store.entries, k, commits, before, store.state.witnesses);
          reloaded := true;
          reloads := reloads + 1;
        } else if changed.Err? {
          return Err(changed.error), commits, reloads;
        } else if !changed.value {
          SoundIsUpToDate(config, now, store.entries, store.state);
          return Ok(()), commits, reloads;
        } else {
          commits := commits + 1;
          reloaded := false;
        }
      }
    }
  }
}
