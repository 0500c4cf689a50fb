// The shared transition engine: compare-and-set on checkpoint state, witness
// rows, and the dense entry log.

module Engine {
  import opened Wrappers
  import opened Bytes
  import opened Positions
  import opened Digests

  const MAX_ATTEMPTS := 0xffff_ffff
  const MAX_PORTABLE_INTEGER := 0x1f_ffff_ffff_ffff
  const MAX_SCAN_LIMIT := 1000

  datatype Error = Invalid | Contention | Corrupt | Closed | NotFound | Io

  datatype Entry = Entry(seqNo: int, value: Hash, appendedAt: int)

  datatype Outcome = Inserted | Idempotent

  /** `C` is the type of checkpoint bytes, which the engine only compares. */
  datatype CheckpointState<C> = CheckpointState(bytes: C, size: int, indexedSeq: int, peaks: seq<Hash>)

  datatype WitnessReceipt = WitnessReceipt(
    bytes: seq<byte>, entryHash: Option<string>, entryHashScheme: Option<string>,
    leafIndex: Option<int>, treeSize: Option<int>)

  datatype WitnessState<C> = WitnessState(
    witnessId: string, checkpointSize: int, checkpoint: C, attempts: int, nextAttemptAt: int,
    receipt: Option<WitnessReceipt>, permanent: bool, lastError: Option<string>)
  {
    function Key(): (string, int) {
      (witnessId, checkpointSize)
    }
  }

  datatype CllState<C> = CllState(
    size: int, nodes: seq<Hash>, indexedSeq: int, firstPendingAt: Option<int>,
    checkpoint: Option<CheckpointState<C>>, witnesses: seq<WitnessState<C>>)

  function EmptyState<C>(): CllState<C> {
    CllState(0, [], 0, None, None, [])
  }

  // ---- value rules ---------------------------------------------------------------

  predicate ValidPosition(p: Option<int>) {
    p.Some? ==> 0 <= p.value <= MAX_PORTABLE_INTEGER
  }

  predicate ValidRow<C>(row: WitnessState<C>) {
    && 0 < row.checkpointSize < 0x1_0000_0000_0000_0000
    && 0 <= row.attempts <= MAX_ATTEMPTS
    && (row.receipt.Some? ==> ValidPosition(row.receipt.value.leafIndex) && ValidPosition(row.receipt.value.treeSize))
  }

  predicate DistinctKeys<C>(rows: seq<WitnessState<C>>) {
    forall i, j | 0 <= i < j < |rows| :: rows[i].Key() != rows[j].Key()
  }

  /** What a full state of `nodeCount` nodes obeys, and so does a delta that ends at as many. */
  predicate ValidMetadata<C>(v: CllState<C>, nodeCount: nat) {
    && v.size == nodeCount && Complete(nodeCount) && LeafFloor(nodeCount) == v.indexedSeq
    && (v.checkpoint.Some? ==>
          && 0 < v.checkpoint.value.size <= v.size
          && 0 <= v.checkpoint.value.indexedSeq <= v.indexedSeq)
    && (forall i | 0 <= i < |v.witnesses| :: ValidRow(v.witnesses[i]))
    && DistinctKeys(v.witnesses)
  }

  predicate ValidState<C>(v: CllState<C>) {
    ValidMetadata(v, |v.nodes|)
  }

  // ---- checkpoint transitions -----------------------------------------------------

  function CheckpointBytes<C>(v: CllState<C>): Option<C> {
    if v.checkpoint.Some? then Some(v.checkpoint.value.bytes) else None
  }

  predicate AsExpected<C(==)>(current: CllState<C>, expectedSize: int, expected: Option<C>) {
    current.size == expectedSize && CheckpointBytes(current) == expected
  }

  /** The stored checkpoint stays, or a larger one replaces it. */
  predicate CheckpointMoves<C(==)>(old_: Option<CheckpointState<C>>, new_: Option<CheckpointState<C>>) {
    old_.Some? ==>
      && new_.Some?
      && new_.value.size >= old_.value.size && new_.value.indexedSeq >= old_.value.indexedSeq
      && (new_.value.size == old_.value.size ==> new_ == old_)
  }

  /** The row with a key, if there is one. */
  function FindRow<C>(rows: seq<WitnessState<C>>, key: (string, int)): (r: Option<WitnessState<C>>)
    ensures r.Some? ==> r.value in rows && r.value.Key() == key
    ensures r.None? ==> forall row <- rows :: row.Key() != key
  {
    if rows == [] then None
    else if rows[0].Key() == key then Some(rows[0])
    else FindRow(rows[1..], key)
  }

  /** The rows of `rows` whose keys are not stored yet, in order. */
  function NewRows<C>(stored: seq<WitnessState<C>>, rows: seq<WitnessState<C>>): (r: seq<WitnessState<C>>)
    ensures forall row <- r :: row in rows && FindRow(stored, row.Key()).None?
  {
    if rows == [] then []
    else IfNew(stored, rows[0]) + NewRows(stored, rows[1..])
  }

  /** A row sent again names the checkpoint it was stored with. */
  predicate RowsKeepCheckpoints<C(==)>(stored: seq<WitnessState<C>>, rows: seq<WitnessState<C>>) {
    forall row <- rows ::
      var s := FindRow(stored, row.Key()); s.Some? ==> s.value.checkpoint == row.checkpoint
  }

  /** `added_witnesses`: the transition rules, and the rows a commit adds. */
  function AddedWitnesses<C(==)>(current: CllState<C>, next: CllState<C>): Result<seq<WitnessState<C>>, Error> {
    if next.indexedSeq < current.indexedSeq then Err(Invalid)
    else if !CheckpointMoves(current.checkpoint, next.checkpoint) then Err(Contention)
    else if !RowsKeepCheckpoints(current.witnesses, next.witnesses) then Err(Contention)
    else Ok(NewRows(current.witnesses, next.witnesses))
  }

  /** `commit_cll` on a state: compare, validate, then transition. */
  function ApplyCll<C(==)>(current: CllState<C>, expectedSize: int, expected: Option<C>, next: CllState<C>)
    : Result<CllState<C>, Error>
  {
    if !AsExpected(current, expectedSize, expected) then Err(Contention)
    else if !ValidState(next) then Err(Invalid)
    else if next.size < current.size || next.indexedSeq < current.indexedSeq || !(current.nodes <= next.nodes) then
      Err(Invalid)
    else
      match AddedWitnesses(current, next)
      case Err(e) => Err(e)
      case Ok(added) => Ok(next.(witnesses := current.witnesses + added))
  }

  /** A journal commit, whose nodes and witnesses hold only what it adds. */
  function ApplyCllDelta<C(==)>(current: CllState<C>, expectedSize: int, expected: Option<C>, delta: CllState<C>)
    : Result<CllState<C>, Error>
  {
    if !AsExpected(current, expectedSize, expected) then Err(Contention)
    else if delta.size != current.size + |delta.nodes| || delta.size < 0 then Err(Invalid)
    else if !ValidMetadata(delta, delta.size) then Err(Invalid)
    else
      match AddedWitnesses(current, delta)
      case Err(e) => Err(e)
      case Ok(added) =>
        Ok(delta.(nodes := current.nodes + delta.nodes, witnesses := current.witnesses + added))
  }

  /** The delta the journal writes for the mutation from `before` to `after`. */
  function DeltaSince<C>(before: CllState<C>, after: CllState<C>): CllState<C> {
    after.(nodes := if |before.nodes| <= |after.nodes| then after.nodes[|before.nodes|..] else [],
           witnesses := NewRows(before.witnesses, after.witnesses))
  }

  // ---- witness transitions --------------------------------------------------------

  /** Index of the row with a key, or the number of rows. */
  function IndexOf<C>(rows: seq<WitnessState<C>>, key: (string, int)): (i: nat)
    ensures i <= |rows|
    ensures i < |rows| ==> rows[i].Key() == key && FindRow(rows, key) == Some(rows[i])
    ensures i == |rows| ==> FindRow(rows, key).None?
    ensures forall j :: 0 <= j < i ==> rows[j].Key() != key
  {
    if rows == [] || rows[0].Key() == key then 0 else 1 + IndexOf(rows[1..], key)
  }

  /** `commit_witness`: the new rows, if attempts and checkpoint are as expected. */
  function ApplyWitness<C(==)>(rows: seq<WitnessState<C>>, expectedAttempts: int, next: WitnessState<C>)
    : Result<seq<WitnessState<C>>, Error>
  {
    if !ValidRow(next) || !(0 <= expectedAttempts <= MAX_ATTEMPTS) then Err(Invalid)
    else
      var i := IndexOf(rows, next.Key());
      if i == |rows| || rows[i].attempts != expectedAttempts || rows[i].checkpoint != next.checkpoint then
        Err(Contention)
      else Ok(rows[i := next])
  }

  // ---- what every commit keeps ------------------------------------------------------

  /** The part of `NewRows` that its first row contributes. */
  function IfNew<C>(stored: seq<WitnessState<C>>, row: WitnessState<C>): seq<WitnessState<C>> {
    if FindRow(stored, row.Key()).None? then [row] else []
  }

  lemma NewRowsStep<C>(stored: seq<WitnessState<C>>, rows: seq<WitnessState<C>>)
    requires rows != []
    ensures NewRows(stored, rows) == IfNew(stored, rows[0]) + NewRows(stored, rows[1..])
  {
    hide FindRow;
  }

  lemma {:induction false} NewRowsConcat<C>(
    stored: seq<WitnessState<C>>, a: seq<WitnessState<C>>, b: seq<WitnessState<C>>)
    ensures NewRows(stored, a + b) == NewRows(stored, a) + NewRows(stored, b)
  {
    hide NewRows, IfNew, FindRow;
    if a == [] {
      assert a + b == b;
      assert NewRows(stored, a) == [] by {
        NothingNew(stored);
      }
    } else {
      NewRowsConcat(stored, a[1..], b);
      assert (a + b)[0] == a[0] && (a + b)[1..] == a[1..] + b;
      NewRowsStep(stored, a);
      NewRowsStep(stored, a + b);
    }
  }

  lemma NothingNew<C>(stored: seq<WitnessState<C>>)
    ensures NewRows(stored, []) == []
  {
  }

  /** Positions of the rows whose keys are not stored. */
  ghost function Unstored<C>(stored: seq<WitnessState<C>>, rows: seq<WitnessState<C>>): set<nat> {
    set n: nat | n < |rows| && FindRow(stored, rows[n].Key()).None?
  }

  /** A commit adds every row with a new key, once, in the order of the proposal, and no other row. */
  lemma {:induction false} NewRowsExact<C>(stored: seq<WitnessState<C>>, rows: seq<WitnessState<C>>, n: nat)
    ensures |NewRows(stored, rows)| == |Unstored(stored, rows)|
    ensures n in Unstored(stored, rows) ==>
              && |Unstored(stored, rows[..n])| < |NewRows(stored, rows)|
              && NewRows(stored, rows)[|Unstored(stored, rows[..n])|] == rows[n]
    decreases |rows|
  {
    hide FindRow, NewRows;
    if rows == [] {
      NothingNew(stored);
      assert Unstored(stored, rows) == {};
    } else {
      var k := |rows| - 1;
      var before := rows[..k];
      assert rows == before + [rows[k]];
      NewRowsExact(stored, before, n);
      NewRowsConcat(stored, before, [rows[k]]);
      OneNew(stored, rows[k]);
      UnstoredLast(stored, rows);
      if n < k {
        assert before[..n] == rows[..n];
      }
    }
  }

  lemma OneNew<C>(stored: seq<WitnessState<C>>, row: WitnessState<C>)
    ensures NewRows(stored, [row]) == if FindRow(stored, row.Key()).None? then [row] else []
  {
    hide FindRow;
  }

  lemma UnstoredLast<C>(stored: seq<WitnessState<C>>, rows: seq<WitnessState<C>>)
    requires rows != []
    ensures var k := |rows| - 1;
            && k !in Unstored(stored, rows[..k])
            && Unstored(stored, rows) ==
               Unstored(stored, rows[..k]) + if FindRow(stored, rows[k].Key()).None? then {k} else {}
  {
    hide FindRow;
  }

  /** Rows whose keys are all stored add nothing. */
  lemma {:induction false} NoNewRows<C>(stored: seq<WitnessState<C>>, rows: seq<WitnessState<C>>)
    requires forall row <- rows :: FindRow(stored, row.Key()).Some?
    ensures NewRows(stored, rows) == []
  {
    if rows != [] {
      assert rows[0] in rows;
      forall row | row in rows[1..]
        ensures FindRow(stored, row.Key()).Some?
      {
        assert row in rows;
      }
      NoNewRows(stored, rows[1..]);
    }
  }

  /** Rows whose keys are all new are all added. */
  lemma {:induction false} AllNewRows<C>(stored: seq<WitnessState<C>>, rows: seq<WitnessState<C>>)
    requires forall row <- rows :: FindRow(stored, row.Key()).None?
    ensures NewRows(stored, rows) == rows
  {
    if rows != [] {
      assert rows[0] in rows;
      forall row | row in rows[1..]
        ensures FindRow(stored, row.Key()).None?
      {
        assert row in rows;
      }
      AllNewRows(stored, rows[1..]);
    }
  }

  lemma {:induction false} NewRowsDistinct<C>(stored: seq<WitnessState<C>>, rows: seq<WitnessState<C>>)
    requires DistinctKeys(rows)
    ensures DistinctKeys(NewRows(stored, rows))
  {
    if rows != [] {
      var rest := NewRows(stored, rows[1..]);
      NewRowsDistinct(stored, rows[1..]);
      forall j | 0 <= j < |rest|
        ensures rest[j].Key() != rows[0].Key()
      {
        assert rest[j] in rest && rest[j] in rows[1..];
      }
    }
  }

  lemma StoredIsFound<C>(stored: seq<WitnessState<C>>)
    ensures forall row <- stored :: FindRow(stored, row.Key()).Some?
  {
  }

  lemma AppendedDistinct<C>(stored: seq<WitnessState<C>>, added: seq<WitnessState<C>>)
    requires DistinctKeys(stored) && DistinctKeys(added)
    requires forall row <- added :: FindRow(stored, row.Key()).None?
    ensures DistinctKeys(stored + added)
  {
    var all := stored + added;
    forall i, j | 0 <= i < j < |all|
      ensures all[i].Key() != all[j].Key()
    {
      if i < |stored| <= j {
        assert added[j - |stored|] in added && stored[i] in stored;
      }
    }
  }

  /** A commit stores what was proposed, except that witness rows are only added to. */
  lemma AppliedIsProposed<C>(current: CllState<C>, size: int, expected: Option<C>, next: CllState<C>)
    requires ApplyCll(current, size, expected, next).Ok?
    ensures var after := ApplyCll(current, size, expected, next).value;
            && after == next.(witnesses := after.witnesses)
            && current.size == size && CheckpointBytes(current) == expected
            && after.witnesses == current.witnesses + NewRows(current.witnesses, next.witnesses)
  {
    hide ValidState, NewRows, RowsKeepCheckpoints;
  }

  /** A commit on a valid state leaves a valid state whose stored rows come first, unchanged. */
  lemma ApplyKeepsValid<C>(current: CllState<C>, size: int, expected: Option<C>, next: CllState<C>)
    requires ValidState(current) && ApplyCll(current, size, expected, next).Ok?
    ensures var after := ApplyCll(current, size, expected, next).value;
            && ValidState(after)
            && current.nodes <= after.nodes
            && current.witnesses <= after.witnesses
  {
    var added := NewRows(current.witnesses, next.witnesses);
    NewRowsDistinct(current.witnesses, next.witnesses);
    AppendedDistinct(current.witnesses, added);
    var all := current.witnesses + added;
    forall i | 0 <= i < |all|
      ensures ValidRow(all[i])
    {
      if i >= |current.witnesses| {
        assert added[i - |current.witnesses|] in added;
      }
    }
  }

  /** A replayed delta leaves a valid state too. */
  lemma DeltaKeepsValid<C>(current: CllState<C>, size: int, expected: Option<C>, delta: CllState<C>)
    requires ValidState(current) && ApplyCllDelta(current, size, expected, delta).Ok?
    ensures ValidState(ApplyCllDelta(current, size, expected, delta).value)
  {
    hide NewRows, FindRow, Complete, LeafFloor, NodeCount, RowsKeepCheckpoints, CheckpointMoves, ValidRow, DistinctKeys;
    var added := NewRows(current.witnesses, delta.witnesses);
    NewRowsDistinct(current.witnesses, delta.witnesses);
    AppendedDistinct(current.witnesses, added);
    var all := current.witnesses + added;
    forall i | 0 <= i < |all|
      ensures ValidRow(all[i])
    {
      if i >= |current.witnesses| {
        assert added[i - |current.witnesses|] in added;
      }
    }
  }

  /** The rows a delta carries are exactly the rows its commit added. */
  lemma DeltaRows<C>(stored: seq<WitnessState<C>>, rows: seq<WitnessState<C>>)
    requires DistinctKeys(rows)
    ensures var added := NewRows(stored, rows);
            && NewRows(stored, stored + added) == added
            && NewRows(stored, added) == added
            && DistinctKeys(added)
            && RowsKeepCheckpoints(stored, added)
  {
    hide NewRows, FindRow;
    var added := NewRows(stored, rows);
    StoredIsFound(stored);
    NewRowsConcat(stored, stored, added);
    NoNewRows(stored, stored);
    AllNewRows(stored, added);
    NewRowsDistinct(stored, rows);
  }

  /** Replaying the written delta reproduces the commit. */
  lemma DeltaReproduces<C>(current: CllState<C>, size: int, expected: Option<C>, next: CllState<C>)
    requires ValidState(current) && ApplyCll(current, size, expected, next).Ok?
    ensures var after := ApplyCll(current, size, expected, next).value;
            && |current.nodes| <= |after.nodes|
            && ApplyCllDelta(current, size, expected, DeltaSince(current, after)) == Ok(after)
  {
    hide NewRows, FindRow, Complete, LeafFloor, RowsKeepCheckpoints, DistinctKeys, CheckpointMoves, ValidRow, NodeCount;
    var stored := current.witnesses;
    var added := NewRows(stored, next.witnesses);
    var after := ApplyCll(current, size, expected, next).value;
    DeltaRows(stored, next.witnesses);
    var delta := DeltaSince(current, after);
    assert delta.witnesses == added;
    forall i | 0 <= i < |added|
      ensures ValidRow(added[i])
    {
      assert added[i] in added;
    }
    assert current.nodes + delta.nodes == after.nodes;
  }

  // ---- the engine object --------------------------------------------------------------

  /** In-memory entries and state; callers serialize access. */
  class Engine<C(==)> {
    var entries: seq<Entry>
    var byValue: map<Hash, nat>
    var state: CllState<C>

    ghost predicate Valid()
      reads this
    {
      && Dense(entries)
      && Indexed(entries, byValue)
      && ValidState(state)
    }

    constructor ()
      ensures Valid() && entries == [] && state == EmptyState()
    {
      entries := [];
      byValue := map[];
      state := EmptyState();
    }

    method Append(value: Hash, appendedAt: int) returns (r: Result<(Entry, Outcome), Error>)
      requires Valid()
      modifies `entries, `byValue
      ensures Valid()
      ensures r == AppendResult(old(entries), value, appendedAt)
      ensures entries == AppendEntries(old(entries), value, appendedAt)
    {
      hide ValidState, Dense, Indexed, EntryOf;
      IndexedEntry(entries, byValue, value);
      if value in byValue {
        return Ok((entries[byValue[value]], Idempotent));
      }
      var seqNo := |entries| + 1;
      if seqNo > MAX_PORTABLE_INTEGER {
        return Err(Invalid);
      }
      var entry := Entry(seqNo, value, appendedAt);
      IndexedGrows(entries, byValue, entry);
      entries := entries + [entry];
      byValue := byValue[value := seqNo - 1];
      return Ok((entry, Inserted));
    }

    /** Apply a stored entry: anything but the next dense insert is corrupt. */
    method ReplayEntry(entry: Entry) returns (r: Result<(), Error>)
      requires Valid()
      modifies `entries, `byValue
      ensures Valid()
      ensures r.Ok? <==> IsNext(old(entries), entry)
      ensures r.Ok? ==> entries == old(entries) + [entry]
      ensures r.Err? ==> r.error == Corrupt
    {
      hide ValidState, Dense, Indexed, EntryOf;
      IndexedEntry(entries, byValue, entry.value);
      var result := Append(entry.value, entry.appendedAt);
      if result.Err? || result.value.1.Idempotent? || result.value.0.seqNo != entry.seqNo
         || result.value.0.appendedAt != entry.appendedAt {
        return Err(Corrupt);
      }
      return Ok(());
    }

    method GetEntry(value: Hash) returns (r: Result<Entry, Error>)
      requires Valid()
      ensures r.Ok? ==> r.value in entries && r.value.value == value
      ensures r.Err? ==> r == Err(NotFound) && forall e <- entries :: e.value != value
    {
      if value !in byValue {
        return Err(NotFound);
      }
      return Ok(entries[byValue[value]]);
    }

    method ScanEntries(afterSeq: int, limit: int) returns (r: Result<seq<Entry>, Error>)
      requires Valid()
      ensures r == ScanResult(entries, afterSeq, limit)
    {
      if !(0 <= afterSeq <= MAX_PORTABLE_INTEGER && 1 <= limit <= MAX_SCAN_LIMIT) {
        return Err(Invalid);
      }
      return Ok(Scan(entries, afterSeq, limit));
    }

    method CommitCll(expectedSize: int, expected: Option<C>, next: CllState<C>) returns (r: Result<(), Error>)
      requires Valid()
      modifies `state
      ensures Valid()
      ensures match ApplyCll(old(state), expectedSize, expected, next)
              case Ok(after) => r.Ok? && state == after
              case Err(e) => r == Err(e) && state == old(state)
    {
      var after := ApplyCll(state, expectedSize, expected, next);
      if after.Err? {
        return Err(after.error);
      }
      ApplyKeepsValid(state, expectedSize, expected, next);
      state := after.value;
      return Ok(());
    }

    method CommitCllDelta(expectedSize: int, expected: Option<C>, delta: CllState<C>) returns (r: Result<(), Error>)
      requires Valid()
      modifies `state
      ensures Valid()
      ensures match ApplyCllDelta(old(state), expectedSize, expected, delta)
              case Ok(after) => r.Ok? && state == after
              case Err(e) => r == Err(e) && state == old(state)
    {
      hide ApplyCllDelta, ValidState;
      var after := ApplyCllDelta(state, expectedSize, expected, delta);
      if after.Err? {
        return Err(after.error);
      }
      DeltaKeepsValid(state, expectedSize, expected, delta);
      state := after.value;
      return Ok(());
    }

    method CommitWitness(expectedAttempts: int, next: WitnessState<C>) returns (r: Result<(), Error>)
      requires Valid()
      modifies `state
      ensures Valid()
      ensures match ApplyWitness(old(state).witnesses, expectedAttempts, next)
              case Ok(rows) => r.Ok? && state == old(state).(witnesses := rows)
              case Err(e) => r == Err(e) && state == old(state)
    {
      var rows := ApplyWitness(state.witnesses, expectedAttempts, next);
      if rows.Err? {
        return Err(rows.error);
      }
      state := state.(witnesses := rows.value);
      return Ok(());
    }

    /** Undo: forget the entries after `count` and bring a state back. */
    method Restore(count: nat, before: CllState<C>)
      requires Valid() && count <= |entries| && ValidState(before)
      modifies this
      ensures Valid() && entries == old(entries)[..count] && state == before
    {
      byValue := map v | v in byValue && byValue[v] < count :: byValue[v];
      entries := entries[..count];
      state := before;
    }
  }

  predicate Dense(entries: seq<Entry>) {
    forall i | 0 <= i < |entries| :: entries[i].seqNo == i + 1
  }

  function ScanResult(entries: seq<Entry>, afterSeq: int, limit: int): Result<seq<Entry>, Error> {
    if 0 <= afterSeq <= MAX_PORTABLE_INTEGER && 1 <= limit <= MAX_SCAN_LIMIT then Ok(Scan(entries, afterSeq, limit))
    else Err(Invalid)
  }

  /** `byValue` finds exactly the entries, so values are distinct. */
  predicate Indexed(entries: seq<Entry>, byValue: map<Hash, nat>) {
    && (forall v <- byValue :: byValue[v] < |entries| && entries[byValue[v]].value == v)
    && (forall i | 0 <= i < |entries| :: entries[i].value in byValue && byValue[entries[i].value] == i)
  }

  lemma IndexedEntry(entries: seq<Entry>, byValue: map<Hash, nat>, value: Hash)
    requires Indexed(entries, byValue)
    ensures value in byValue ==> byValue[value] < |entries| && EntryOf(entries, value) == Some(entries[byValue[value]])
    ensures value !in byValue ==> EntryOf(entries, value).None?
  {
    FirstWithValue(entries, value);
    var e := EntryOf(entries, value);
    if e.Some? {
      assert e.value in entries;
    }
  }

  lemma IndexedGrows(entries: seq<Entry>, byValue: map<Hash, nat>, entry: Entry)
    requires Dense(entries) && Indexed(entries, byValue)
    requires entry.value !in byValue && entry.seqNo == |entries| + 1
    ensures Dense(entries + [entry]) && Indexed(entries + [entry], byValue[entry.value := |entries|])
  {
  }

  /** Entries after `afterSeq`, at most `limit` of them. */
  function Scan(entries: seq<Entry>, afterSeq: nat, limit: nat): (batch: seq<Entry>)
    ensures |batch| <= limit
    ensures batch == [] <==> afterSeq >= |entries| || limit == 0
  {
    if afterSeq >= |entries| then []
    else if afterSeq + limit <= |entries| then entries[afterSeq..afterSeq + limit]
    else entries[afterSeq..]
  }

  /** A stored entry that replay accepts: dense, within range and not seen before. */
  predicate IsNext(entries: seq<Entry>, entry: Entry) {
    && entry.seqNo == |entries| + 1 <= MAX_PORTABLE_INTEGER
    && EntryOf(entries, entry.value).None?
  }

  /** The log after an append: one entry more, unless the value is there or the log is full. */
  function AppendEntries(entries: seq<Entry>, value: Hash, appendedAt: int): seq<Entry> {
    if EntryOf(entries, value).Some? || |entries| >= MAX_PORTABLE_INTEGER then entries
    else entries + [Entry(|entries| + 1, value, appendedAt)]
  }

  /** The first entry with a value. */
  function EntryOf(entries: seq<Entry>, value: Hash): (r: Option<Entry>)
    ensures r.Some? ==> r.value in entries && r.value.value == value
    ensures r.None? ==> forall e <- entries :: e.value != value
  {
    if entries == [] then None
    else if entries[0].value == value then Some(entries[0])
    else EntryOf(entries[1..], value)
  }

  function AppendResult(entries: seq<Entry>, value: Hash, appendedAt: int): Result<(Entry, Outcome), Error> {
    match EntryOf(entries, value)
    case Some(e) => Ok((e, Idempotent))
    case None =>
      if |entries| >= MAX_PORTABLE_INTEGER then Err(Invalid)
      else Ok((Entry(|entries| + 1, value, appendedAt), Inserted))
  }

  lemma {:induction false} FirstWithValue(entries: seq<Entry>, value: Hash)
    requires forall i, j | 0 <= i < j < |entries| :: entries[i].value != entries[j].value
    ensures forall i | 0 <= i < |entries| && entries[i].value == value :: EntryOf(entries, value) == Some(entries[i])
  {
    if entries != [] && entries[0].value != value {
      FirstWithValue(entries[1..], value);
    }
  }
}
