// What the transition engine accepts and refuses, in elementary terms.

module EngineExact {
  import opened Wrappers
  import opened Positions
  import opened Digests
  import opened Engine

  // ---- values -----------------------------------------------------------------------

  /** A position that fits the integers every implementation can represent. */
  ghost predicate Portable(p: Option<int>) {
    p == None || (p.value >= 0 && p.value <= 9_007_199_254_740_991)
  }

  ghost predicate RowWellFormed<C>(row: WitnessState<C>) {
    && 1 <= row.checkpointSize && row.checkpointSize <= 18_446_744_073_709_551_615
    && 0 <= row.attempts && row.attempts <= 4_294_967_295
    && (row.receipt == None || (Portable(row.receipt.value.leafIndex) && Portable(row.receipt.value.treeSize)))
  }

  ghost predicate NoTwoAlike<C(!new)>(rows: seq<WitnessState<C>>) {
    forall i, j :: 0 <= i < |rows| && 0 <= j < |rows| && i != j ==>
                     rows[i].witnessId != rows[j].witnessId || rows[i].checkpointSize != rows[j].checkpointSize
  }

  /**
    A header over `count` nodes: they are the nodes of as many leaves as are indexed, and the
    checkpoint lies within.
  */
  ghost predicate WellFormed<C(!new)>(v: CllState<C>, count: nat) {
    && v.size == count && v.indexedSeq >= 0 && NodeCount(v.indexedSeq) == count
    && (v.checkpoint == None ||
        (1 <= v.checkpoint.value.size && v.checkpoint.value.size <= count
         && 0 <= v.checkpoint.value.indexedSeq && v.checkpoint.value.indexedSeq <= v.indexedSeq))
    && (forall i :: 0 <= i < |v.witnesses| ==> RowWellFormed(v.witnesses[i]))
    && NoTwoAlike(v.witnesses)
  }

  lemma RowExact<C>(row: WitnessState<C>)
    ensures ValidRow(row) <==> RowWellFormed(row)
  {
  }

  lemma KeysExact<C(!new)>(rows: seq<WitnessState<C>>)
    ensures DistinctKeys(rows) <==> NoTwoAlike(rows)
  {
    if DistinctKeys(rows) {
      forall i, j | 0 <= i < |rows| && 0 <= j < |rows| && i != j
        ensures rows[i].witnessId != rows[j].witnessId || rows[i].checkpointSize != rows[j].checkpointSize
      {
        if i < j {
          assert rows[i].Key() != rows[j].Key();
        } else {
          assert rows[j].Key() != rows[i].Key();
        }
      }
    }
  }

  /** The header rules, spelt out. */
  lemma MetadataExact<C(!new)>(v: CllState<C>, count: nat)
    ensures ValidMetadata(v, count) <==> WellFormed(v, count)
  {
    hide NodeCount, LeafFloor, DistinctKeys, NoTwoAlike, ValidRow, RowWellFormed;
    KeysExact(v.witnesses);
    forall i | 0 <= i < |v.witnesses|
      ensures ValidRow(v.witnesses[i]) <==> RowWellFormed(v.witnesses[i])
    {
      RowExact(v.witnesses[i]);
    }
    if v.indexedSeq >= 0 && NodeCount(v.indexedSeq) == count {
      LeafFloorOfCount(v.indexedSeq);
    }
  }

  // ---- checkpoint commits -----------------------------------------------------------------

  /** The caller's idea of the stored state is out of date. */
  ghost predicate Stale<C>(current: CllState<C>, size: int, expected: Option<C>) {
    || current.size != size
    || (current.checkpoint == None && expected != None)
    || (current.checkpoint != None && expected != Some(current.checkpoint.value.bytes))
  }

  /**
    The stored checkpoint would be lost, moved back, or changed at its size; or a stored row would
    change checkpoint.
  */
  ghost predicate Conflicts<C(!new)>(current: CllState<C>, next: CllState<C>) {
    || (current.checkpoint != None && next.checkpoint == None)
    || (current.checkpoint != None && next.checkpoint != None
        && var old_, new_ := current.checkpoint.value, next.checkpoint.value;
           new_.size < old_.size || new_.indexedSeq < old_.indexedSeq || (new_.size == old_.size && new_ != old_))
    || exists i, j :: 0 <= i < |current.witnesses| && 0 <= j < |next.witnesses|
                      && current.witnesses[i].witnessId == next.witnesses[j].witnessId
                      && current.witnesses[i].checkpointSize == next.witnesses[j].checkpointSize
                      && current.witnesses[i].checkpoint != next.witnesses[j].checkpoint
  }

  lemma FoundExact<C(!new)>(stored: seq<WitnessState<C>>, key: (string, int), i: nat)
    requires DistinctKeys(stored) && i < |stored| && stored[i].Key() == key
    ensures FindRow(stored, key) == Some(stored[i])
  {
    hide FindRow;
    assert stored[i] in stored;
    var found := FindRow(stored, key);
    var j :| 0 <= j < |stored| && stored[j] == found.value;
  }

  lemma KeepExact<C(!new)>(stored: seq<WitnessState<C>>, rows: seq<WitnessState<C>>)
    requires DistinctKeys(stored)
    ensures !RowsKeepCheckpoints(stored, rows) <==>
            exists i, j :: 0 <= i < |stored| && 0 <= j < |rows|
                           && stored[i].witnessId == rows[j].witnessId
                           && stored[i].checkpointSize == rows[j].checkpointSize
                           && stored[i].checkpoint != rows[j].checkpoint
  {
    hide FindRow, DistinctKeys;
    if !RowsKeepCheckpoints(stored, rows) {
      var row :| row in rows && FindRow(stored, row.Key()).Some?
                 && FindRow(stored, row.Key()).value.checkpoint != row.checkpoint;
      var j :| 0 <= j < |rows| && rows[j] == row;
      var found := FindRow(stored, row.Key()).value;
      var i :| 0 <= i < |stored| && stored[i] == found;
      assert stored[i].Key() == rows[j].Key();
    }
    if i, j :| 0 <= i < |stored| && 0 <= j < |rows|
               && stored[i].witnessId == rows[j].witnessId
               && stored[i].checkpointSize == rows[j].checkpointSize
               && stored[i].checkpoint != rows[j].checkpoint {
      FoundExact(stored, rows[j].Key(), i);
      assert rows[j] in rows;
    }
  }

  lemma AddedExact<C(!new)>(current: CllState<C>, next: CllState<C>)
    requires DistinctKeys(current.witnesses)
    ensures var r := AddedWitnesses(current, next);
            && (r == Err(Invalid) <==> next.indexedSeq < current.indexedSeq)
            && (r.Ok? <==> next.indexedSeq >= current.indexedSeq && !Conflicts(current, next))
            && (r.Err? ==> r.error == Invalid || r.error == Contention)
  {
    hide FindRow, NewRows, RowsKeepCheckpoints, DistinctKeys;
    KeepExact(current.witnesses, next.witnesses);
  }

  /**
    `commit_cll`: exactly when it commits, and which error it reports otherwise.
    What it stores then is said by `AppliedIsProposed` and `NewRowsExact`.
  */
  lemma CommitExact<C(!new)>(current: CllState<C>, size: int, expected: Option<C>, next: CllState<C>)
    requires ValidState(current)
    ensures var r := ApplyCll(current, size, expected, next);
            var stale := Stale(current, size, expected);
            var wrong := !WellFormed(next, |next.nodes|) || next.indexedSeq < current.indexedSeq
                         || |next.nodes| < |current.nodes|
                         || exists i :: 0 <= i < |current.nodes| && next.nodes[i] != current.nodes[i];
            && (r.Ok? <==> !stale && !wrong && !Conflicts(current, next))
            && (r == Err(Invalid) <==> !stale && wrong)
            && (r == Err(Contention) <==> stale || (!wrong && Conflicts(current, next)))
  {
    hide NewRows, RowsKeepCheckpoints, AddedWitnesses, WellFormed, Conflicts, Complete, LeafFloor, ValidRow, FindRow;
    MetadataExact(next, |next.nodes|);
    AddedExact(current, next);
    SizesExact(current, next);
  }

  lemma SizesExact<C>(current: CllState<C>, next: CllState<C>)
    ensures current.nodes <= next.nodes <==>
            && |current.nodes| <= |next.nodes|
            && forall i :: 0 <= i < |current.nodes| ==> next.nodes[i] == current.nodes[i]
  {
  }

  /** The same for a delta, which must begin where the state ends. */
  lemma DeltaExact<C(!new)>(current: CllState<C>, size: int, expected: Option<C>, delta: CllState<C>)
    requires ValidState(current)
    ensures var r := ApplyCllDelta(current, size, expected, delta);
            var stale := Stale(current, size, expected);
            var wrong := !WellFormed(delta, |current.nodes| + |delta.nodes|) || delta.indexedSeq < current.indexedSeq;
            && (r.Ok? <==> !stale && !wrong && !Conflicts(current, delta))
            && (r == Err(Invalid) <==> !stale && wrong)
            && (r == Err(Contention) <==> stale || (!wrong && Conflicts(current, delta)))
            && (r.Ok? ==>
                  && r.value.nodes == current.nodes + delta.nodes && r.value.size == delta.size
                  && r.value.indexedSeq == delta.indexedSeq && r.value.firstPendingAt == delta.firstPendingAt
                  && r.value.checkpoint == delta.checkpoint
                  && r.value.witnesses == current.witnesses + NewRows(current.witnesses, delta.witnesses))
  {
    hide NewRows, RowsKeepCheckpoints, AddedWitnesses, WellFormed, Conflicts, Complete, LeafFloor, ValidRow, FindRow;
    MetadataExact(delta, |current.nodes| + |delta.nodes|);
    WellFormedSize(delta, |current.nodes| + |delta.nodes|);
    AddedExact(current, delta);
    AddedRows(current, delta);
  }

  lemma WellFormedSize<C(!new)>(v: CllState<C>, count: nat)
    ensures WellFormed(v, count) ==> v.size == count
  {
    hide NodeCount;
  }

  lemma AddedRows<C>(current: CllState<C>, next: CllState<C>)
    ensures AddedWitnesses(current, next).Ok? ==>
              AddedWitnesses(current, next).value == NewRows(current.witnesses, next.witnesses)
  {
    hide NewRows, RowsKeepCheckpoints;
  }

  // ---- witness commits ----------------------------------------------------------------------

  /** `commit_witness`: the row with the same key, attempts as expected and the same checkpoint is replaced. */
  lemma WitnessExact<C(!new)>(rows: seq<WitnessState<C>>, attempts: int, next: WitnessState<C>)
    requires DistinctKeys(rows)
    ensures var r := ApplyWitness(rows, attempts, next);
            var wrong := !RowWellFormed(next) || attempts < 0 || attempts > 4_294_967_295;
            && (r == Err(Invalid) <==> wrong)
            && (r.Ok? <==> !wrong && exists i :: Replaces(rows, attempts, next, i))
            && (r.Err? ==> r.error == Invalid || r.error == Contention)
            && (r.Ok? ==> forall i :: Replaces(rows, attempts, next, i) ==> r.value == rows[i := next])
  {
    hide FindRow, ValidRow, RowWellFormed;
    RowExact(next);
    var i := IndexOf(rows, next.Key());
    if i < |rows| && rows[i].attempts == attempts && rows[i].checkpoint == next.checkpoint {
      assert Replaces(rows, attempts, next, i);
    }
    forall j | Replaces(rows, attempts, next, j)
      ensures j == i
    {
      assert rows[j].Key() == next.Key();
    }
  }

  ghost predicate Replaces<C>(rows: seq<WitnessState<C>>, attempts: int, next: WitnessState<C>, i: int) {
    && 0 <= i < |rows| && rows[i].witnessId == next.witnessId && rows[i].checkpointSize == next.checkpointSize
    && rows[i].attempts == attempts && rows[i].checkpoint == next.checkpoint
  }

  // ---- entries ------------------------------------------------------------------------------

  /** Append: an entry with the value is returned as it is; else one is added at the end, unless the log is full. */
  lemma AppendExact(entries: seq<Entry>, value: Hash, at: int)
    ensures var r := AppendResult(entries, value, at); var after := AppendEntries(entries, value, at);
            var there := exists i :: 0 <= i < |entries| && entries[i].value == value;
            && (r == Err(Invalid) <==> !there && |entries| >= 9_007_199_254_740_991)
            && (there ==> r.Ok? && r.value.0 in entries && r.value.0.value == value && r.value.1.Idempotent?)
            && (r.Ok? && !there ==>
                  && r.value == (Entry(|entries| + 1, value, at), Inserted)
                  && after == entries + [Entry(|entries| + 1, value, at)])
            && (there || r.Err? ==> after == entries)
            && (r.Err? ==> r.error == Invalid)
  {
    hide EntryOf;
    if EntryOf(entries, value).None? {
      forall i | 0 <= i < |entries|
        ensures entries[i].value != value
      {
        assert entries[i] in entries;
      }
    }
  }

  /** Replay accepts the entry that append would make, and no other. */
  lemma NextExact(entries: seq<Entry>, entry: Entry)
    ensures IsNext(entries, entry) <==>
            && entry.seqNo == |entries| + 1 && |entries| < 9_007_199_254_740_991
            && forall i :: 0 <= i < |entries| ==> entries[i].value != entry.value
  {
    hide EntryOf;
    if EntryOf(entries, entry.value).None? {
      forall i | 0 <= i < |entries|
        ensures entries[i].value != entry.value
      {
        assert entries[i] in entries;
      }
    }
  }

  /** A scan: refused arguments, and entry by entry what comes back. */
  lemma ScanExact(entries: seq<Entry>, afterSeq: int, limit: int)
    ensures var r := ScanResult(entries, afterSeq, limit);
            && (r.Err? <==> afterSeq < 0 || afterSeq > 9_007_199_254_740_991 || limit < 1 || limit > 1000)
            && (r.Err? ==> r.error == Invalid)
            && (r.Ok? ==>
                  && |r.value| == (if afterSeq >= |entries| then 0
                                   else if |entries| - afterSeq <= limit then |entries| - afterSeq else limit)
                  && forall i :: 0 <= i < |r.value| ==> r.value[i] == entries[afterSeq + i])
  {
  }
}
