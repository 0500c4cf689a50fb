// Any number of checkpoint runners and delivery passes racing on one store:
// every step of every interleaving, and what they all keep.

/** How witness rows may change between two moments of a run. */
module WitnessRows {
  import opened Wrappers
  import opened Engine
  import opened RunnerSpec

  /**
    No row is dropped or moved to another checkpoint, its attempts never fall,
    a row with as many attempts is the same row, and a row that has a receipt or
    has failed for good never changes again.
  */
  ghost predicate RowsEvolve(before: seq<Row>, after: seq<Row>) {
    forall key: (string, int) ::
      var r, q := FindRow(before, key), FindRow(after, key);
      r.Some? ==>
        && q.Some? && q.value.checkpoint == r.value.checkpoint && q.value.attempts >= r.value.attempts
        && (q.value.attempts == r.value.attempts || r.value.receipt.Some? || r.value.permanent ==> q == r)
  }

  /** Every row of a cached copy is stored, for the same checkpoint. */
  ghost predicate Covers(stored: seq<Row>, cached: seq<Row>) {
    forall row <- cached ::
      var r := FindRow(stored, row.Key()); r.Some? && r.value.checkpoint == row.checkpoint
  }

  /** The row of the checkpoint before `row`'s, for the same witness, is absent or has its receipt. */
  predicate PredecessorDone(stored: seq<Row>, row: Row) {
    row.checkpoint.prevSize > 0 ==>
      var p := FindRow(stored, (row.witnessId, row.checkpoint.prevSize));
      p.Some? ==> p.value.receipt.Some?
  }

  lemma EvolveTransitive(a: seq<Row>, b: seq<Row>, d: seq<Row>)
    requires RowsEvolve(a, b) && RowsEvolve(b, d)
    ensures RowsEvolve(a, d)
  {
    hide FindRow;
    forall key: (string, int) | FindRow(a, key).Some?
      ensures var r, q := FindRow(a, key), FindRow(d, key);
              && q.Some? && q.value.checkpoint == r.value.checkpoint && q.value.attempts >= r.value.attempts
              && (q.value.attempts == r.value.attempts || r.value.receipt.Some? || r.value.permanent ==> q == r)
    {
      var m := FindRow(b, key);
      var q := FindRow(d, key);
    }
  }

  lemma CoversEvolved(before: seq<Row>, after: seq<Row>, cached: seq<Row>)
    requires Covers(before, cached) && RowsEvolve(before, after)
    ensures Covers(after, cached)
  {
    hide FindRow;
  }

  lemma {:induction false} FindAppended(rows: seq<Row>, more: seq<Row>, key: (string, int))
    ensures FindRow(rows + more, key) == if FindRow(rows, key).Some? then FindRow(rows, key) else FindRow(more, key)
  {
    if rows == [] {
      assert rows + more == more;
    } else {
      assert (rows + more)[1..] == rows[1..] + more;
      FindAppended(rows[1..], more, key);
    }
  }

  lemma FindDistinct(rows: seq<Row>, i: nat)
    requires DistinctKeys(rows) && i < |rows|
    ensures FindRow(rows, rows[i].Key()) == Some(rows[i])
  {
    hide FindRow;
    FindOwn(rows);
  }

  /** Replacing a row by one with the same key is found under that key only. */
  lemma {:induction false} FindReplaced(rows: seq<Row>, i: nat, next: Row, key: (string, int))
    requires i < |rows| && next.Key() == rows[i].Key()
    requires forall j: nat | j < i :: rows[j].Key() != next.Key()
    ensures FindRow(rows[i := next], key) == if key == next.Key() then Some(next) else FindRow(rows, key)
  {
    if i > 0 {
      assert rows[i := next][1..] == rows[1..][i - 1 := next];
      FindReplaced(rows[1..], i - 1, next, key);
    }
  }

  lemma {:induction false} NewRowsComplete(stored: seq<Row>, rows: seq<Row>, row: Row)
    requires row in rows && FindRow(stored, row.Key()).None?
    ensures row in NewRows(stored, rows)
  {
    if rows[0] != row {
      NewRowsComplete(stored, rows[1..], row);
    }
  }

  /** What a checkpoint commit does to the rows. */
  lemma CommitRows(stored: seq<Row>, cached: seq<Row>, queue: seq<Row>)
    requires Covers(stored, cached) && RowsKeepCheckpoints(stored, cached + queue)
    requires DistinctKeys(stored + NewRows(stored, cached + queue))
    ensures var after := stored + NewRows(stored, cached + queue);
            && RowsEvolve(stored, after)
            && Covers(after, cached + queue)
            && forall row <- after :: row in stored || row in queue
  {
    hide FindRow, NewRows, DistinctKeys;
    var added := NewRows(stored, cached + queue);
    var after := stored + added;
    forall key: (string, int)
      ensures FindRow(stored, key).Some? ==> FindRow(after, key) == FindRow(stored, key)
    {
      FindAppended(stored, added, key);
    }
    forall row <- cached + queue
      ensures var r := FindRow(after, row.Key()); r.Some? && r.value.checkpoint == row.checkpoint
    {
      if FindRow(stored, row.Key()).None? {
        NewRowsComplete(stored, cached + queue, row);
        var j :| 0 <= j < |added| && added[j] == row;
        assert after[|stored| + j] == row;
        FindDistinct(after, |stored| + j);
      }
    }
  }

  /** What a delivery commit does to the rows, when its item is what `TaskOk` says. */
  lemma DeliveryRows(stored: seq<Row>, item: Row, next: Row)
    requires DistinctKeys(stored)
    requires ItemOk(stored, item) && next.Key() == item.Key() && next.attempts == item.attempts + 1
    requires ApplyWitness(stored, item.attempts, next).Ok?
    ensures var after := ApplyWitness(stored, item.attempts, next).value;
            && RowsEvolve(stored, after)
            && FindRow(stored, item.Key()) == Some(item)
            && (forall row <- after :: row in stored || row == next)
            && (forall key :: FindRow(after, key) == if key == item.Key() then Some(next) else FindRow(stored, key))
            && next.checkpoint == item.checkpoint
            && DistinctKeys(after)
  {
    hide FindRow, ValidRow;
    var i := IndexOf(stored, next.Key());
    var after := stored[i := next];
    forall key: (string, int)
      ensures FindRow(after, key) == if key == item.Key() then Some(next) else FindRow(stored, key)
    {
      FindReplaced(stored, i, next, key);
    }
  }

  /** A collected item: undelivered, and either still the stored row or behind it. */
  ghost predicate ItemOk(stored: seq<Row>, item: Row) {
    && item.receipt.None? && !item.permanent
    && var r := FindRow(stored, item.Key());
       && r.Some? && r.value.checkpoint == item.checkpoint && item.attempts <= r.value.attempts
       && (item.attempts == r.value.attempts ==> r.value == item)
  }

  lemma ItemEvolved(before: seq<Row>, after: seq<Row>, item: Row)
    requires ItemOk(before, item) && RowsEvolve(before, after)
    ensures ItemOk(after, item)
  {
    hide FindRow;
  }
}

module RunnerSystem {
  import opened Wrappers
  import opened Positions
  import opened PositionSpec
  import opened Digests
  import opened Forest
  import opened Accumulators
  import opened Consistency
  import opened Engine
  import opened Statements
  import opened RunnerSpec
  import opened WitnessRows

  // ---- the state machine -------------------------------------------------------------

  /** A checkpoint runner between its steps: state loaded or cached, then a batch scanned. */
  datatype View = Ready(state: State) | Scanned(state: State, batch: seq<Entry>)

  /** A delivery between its steps: item collected, then cleared for submission. */
  datatype Task = Collected(item: Row) | Cleared(item: Row)

  /** What a submission and its verification came to. */
  datatype Delivery =
    | Accepted(receipt: WitnessReceipt)
    | Failed(permanent: bool, reason: string, delay: int)

  /** The store, every checkpoint ever committed, and all clients' local states. */
  datatype System = System(
    entries: seq<Entry>, state: State, history: seq<CheckpointState<Statement>>,
    views: map<nat, View>, tasks: map<nat, Task>)

  datatype Event =
    | Append(value: Hash, at: int)
    | Load(runner: nat)
    | Scan(runner: nat)
    | Commit(runner: nat, now: int)
    | Collect(task: nat, key: (string, int), now: int)
    | Check(task: nat)
    | Deliver(task: nat, now: int, delivery: Delivery)

  function Initial(): System {
    System([], EmptyState(), [], map[], map[])
  }

  /** A runner's commit; after contention or an error the runner forgets what it had. */
  function CommitStep(c: Config, s: System, runner: nat, now: int, v: State, batch: seq<Entry>): System {
    match Advance(c, now, v, batch)
    case Ok(Some(next)) =>
      (match ApplyCll(s.state, v.size, CheckpointBytes(v), next)
       case Ok(after) =>
         s.(state := after,
            history := if next.checkpoint == s.state.checkpoint then s.history else s.history + [next.checkpoint.value],
            views := s.views[runner := Ready(next)])
       case Err(_) => s.(views := s.views - {runner}))
    case _ => s.(views := s.views - {runner})
  }

  /** The row a delivery writes back. */
  function Delivered(item: Row, now: int, delivery: Delivery): (next: Row)
    ensures next.Key() == item.Key() && next.checkpoint == item.checkpoint && next.attempts == item.attempts + 1
  {
    match delivery
    case Accepted(receipt) =>
      item.(attempts := item.attempts + 1, nextAttemptAt := now, receipt := Some(receipt),
            permanent := false, lastError := None)
    case Failed(permanent, reason, delay) =>
      item.(attempts := item.attempts + 1, permanent := permanent, lastError := Some(reason),
            nextAttemptAt := now + delay)
  }

  function DeliverStep(s: System, task: nat, item: Row, now: int, delivery: Delivery): System {
    match ApplyWitness(s.state.witnesses, item.attempts, Delivered(item, now, delivery))
    case Ok(rows) => s.(state := s.state.(witnesses := rows), tasks := s.tasks - {task})
    case Err(_) => s.(tasks := s.tasks - {task})
  }

  /** One atomic step; an event that is not enabled changes nothing. */
  ghost function Step(c: Config, s: System, e: Event): System {
    match e
    case Append(value, at) => s.(entries := AppendEntries(s.entries, value, at))
    case Load(r) =>
      s.(views := if Loads(c, s.state) then s.views[r := Ready(s.state)] else s.views - {r})
    case Scan(r) =>
      if r in s.views && s.views[r].Ready? then
        match ScanResult(s.entries, s.views[r].state.indexedSeq, c.scanLimit)
        case Ok(batch) => s.(views := s.views[r := Scanned(s.views[r].state, batch)])
        case Err(_) => s.(views := s.views - {r})
      else s
    case Commit(r, now) =>
      if r in s.views && s.views[r].Scanned? then CommitStep(c, s, r, now, s.views[r].state, s.views[r].batch)
      else s
    case Collect(t, key, now) =>
      var row := FindRow(s.state.witnesses, key);
      if row.Some? && row.value.receipt.None? && !row.value.permanent && row.value.nextAttemptAt <= now then
        s.(tasks := s.tasks[t := Collected(row.value)])
      else s
    case Check(t) =>
      if t in s.tasks && s.tasks[t].Collected? && Verifies(s.tasks[t].item.checkpoint) then
        if PredecessorDone(s.state.witnesses, s.tasks[t].item) then s.(tasks := s.tasks[t := Cleared(s.tasks[t].item)])
        else s.(tasks := s.tasks - {t})
      else s
    case Deliver(t, now, delivery) =>
      if t in s.tasks && CanDeliver(s.tasks[t], delivery) then DeliverStep(s, t, s.tasks[t].item, now, delivery)
      else s
  }

  /** An item whose checkpoint does not verify fails for good before its predecessor is looked at. */
  ghost predicate CanDeliver(task: Task, delivery: Delivery) {
    match task
    case Cleared(_) => true
    case Collected(item) => !Verifies(item.checkpoint) && delivery.Failed? && delivery.permanent
  }

  ghost function Run(c: Config, events: seq<Event>): System {
    if events == [] then Initial()
    else Step(c, Run(c, events[..|events| - 1]), events[|events| - 1])
  }

  // ---- the invariant -------------------------------------------------------------------

  function Latest(history: seq<CheckpointState<Statement>>): Option<CheckpointState<Statement>> {
    if history == [] then None else Some(history[|history| - 1])
  }

  /** Every committed checkpoint is true of the entries and succeeds the one committed before it. */
  ghost predicate OneChain(c: Config, entries: seq<Entry>, history: seq<CheckpointState<Statement>>) {
    forall i: nat | i < |history| ::
      TrueCheckpoint(c, entries, history[i]) && Succeeds(Latest(history[..i]), history[i])
  }

  ghost predicate RowOf(history: seq<CheckpointState<Statement>>, row: Row) {
    exists k <- history :: row.checkpoint == k.bytes && row.checkpointSize == k.size
  }

  ghost predicate RowsOk(history: seq<CheckpointState<Statement>>, rows: seq<Row>) {
    forall row <- rows :: RowOf(history, row) && (row.receipt.Some? ==> PredecessorDone(rows, row))
  }

  ghost predicate ViewOk(c: Config, s: System, v: View) {
    && ValidState(v.state) && TrueState(c, s.entries, v.state) && Covers(s.state.witnesses, v.state.witnesses)
    && (v.Scanned? ==>
          && v.state.indexedSeq + |v.batch| <= |s.entries|
          && v.batch == s.entries[v.state.indexedSeq..v.state.indexedSeq + |v.batch|])
  }

  ghost predicate TaskOk(rows: seq<Row>, task: Task) {
    ItemOk(rows, task.item) && (task.Cleared? ==> PredecessorDone(rows, task.item))
  }

  ghost predicate Inv(c: Config, s: System) {
    && ValidState(s.state) && TrueState(c, s.entries, s.state)
    && OneChain(c, s.entries, s.history) && s.state.checkpoint == Latest(s.history)
    && RowsOk(s.history, s.state.witnesses)
    && (forall r <- s.views :: ViewOk(c, s, s.views[r]))
    && (forall t <- s.tasks :: TaskOk(s.state.witnesses, s.tasks[t]))
  }

  /** What no step ever takes back. */
  ghost predicate Extends(s: System, t: System) {
    && s.entries <= t.entries && s.history <= t.history
    && RowsEvolve(s.state.witnesses, t.state.witnesses)
  }

  // ---- the chain -------------------------------------------------------------------------

  /** Sizes rise strictly along the chain. */
  lemma {:induction false} ChainSizes(
    c: Config, entries: seq<Entry>, history: seq<CheckpointState<Statement>>, i: nat, j: nat)
    requires OneChain(c, entries, history) && i < j < |history|
    ensures history[i].size < history[j].size
    decreases j
  {
    hide TrueCheckpoint, Accepts, BagPeaks;
    assert Succeeds(Latest(history[..j]), history[j]);
    if i + 1 < j {
      ChainSizes(c, entries, history, i, j - 1);
    }
  }

  lemma ChainGrows(c: Config, entries: seq<Entry>, more: seq<Entry>, history: seq<CheckpointState<Statement>>)
    requires OneChain(c, entries, history) && entries <= more
    ensures OneChain(c, more, history)
  {
    hide TrueCheckpoint, Succeeds, Latest;
    forall i: nat | i < |history|
      ensures TrueCheckpoint(c, more, history[i]) && Succeeds(Latest(history[..i]), history[i])
    {
      CheckpointGrows(c, entries, more, history[i]);
    }
  }

  lemma ChainSnoc(
    c: Config, entries: seq<Entry>, history: seq<CheckpointState<Statement>>, k: CheckpointState<Statement>)
    requires OneChain(c, entries, history) && TrueCheckpoint(c, entries, k) && Succeeds(Latest(history), k)
    ensures OneChain(c, entries, history + [k])
  {
    hide TrueCheckpoint, Succeeds, Latest;
    var all := history + [k];
    forall i: nat | i < |all|
      ensures TrueCheckpoint(c, entries, all[i]) && Succeeds(Latest(all[..i]), all[i])
    {
      if i < |history| {
        assert all[..i] == history[..i];
      } else {
        assert all[..i] == history;
      }
    }
  }

  /** A row's checkpoint is no larger than the latest, and its predecessor is smaller than itself. */
  lemma RowSizes(c: Config, entries: seq<Entry>, history: seq<CheckpointState<Statement>>, row: Row)
    requires OneChain(c, entries, history) && RowOf(history, row)
    ensures history != []
    ensures row.checkpoint.prevSize < row.checkpointSize <= history[|history| - 1].size
  {
    hide Accepts, BagPeaks, TrueCheckpoint, OneChain;
    var i :| 0 <= i < |history| && row.checkpoint == history[i].bytes && row.checkpointSize == history[i].size;
    ChainAt(c, entries, history, i);
    CheckpointSize(c, entries, history[i]);
    if i < |history| - 1 {
      ChainSizes(c, entries, history, i, |history| - 1);
    }
  }

  lemma ChainAt(c: Config, entries: seq<Entry>, history: seq<CheckpointState<Statement>>, i: nat)
    requires OneChain(c, entries, history) && i < |history|
    ensures TrueCheckpoint(c, entries, history[i]) && Succeeds(Latest(history[..i]), history[i])
  {
    hide TrueCheckpoint, Succeeds, Latest;
  }

  lemma CheckpointSize(c: Config, entries: seq<Entry>, k: CheckpointState<Statement>)
    requires TrueCheckpoint(c, entries, k)
    ensures k.size > 0
  {
    hide Accepts, BagPeaks, Verifies, Accumulator, NodeCount, Leaves;
    NodeCountMonotone(0, k.indexedSeq);
  }

  // ---- each step keeps the invariant -------------------------------------------------------

  lemma SameCheckpoint(c: Config, entries: seq<Entry>, k: CheckpointState<Statement>, l: CheckpointState<Statement>)
    requires TrueCheckpoint(c, entries, k) && TrueCheckpoint(c, entries, l) && k.bytes == l.bytes
    ensures k == l
  {
    hide NodeCount, Accumulator, Leaves, Verifies;
    if k.indexedSeq < l.indexedSeq {
      NodeCountMonotone(k.indexedSeq, l.indexedSeq);
    } else {
      NodeCountMonotone(l.indexedSeq, k.indexedSeq);
    }
  }

  /** Compare-and-set on size and checkpoint bytes pins the whole state, witness rows aside. */
  lemma SameState(c: Config, entries: seq<Entry>, stored: State, v: State)
    requires TrueState(c, entries, stored) && TrueState(c, entries, v)
    requires stored.size == v.size && CheckpointBytes(stored) == CheckpointBytes(v)
    ensures stored == v.(witnesses := stored.witnesses)
  {
    hide NodeCount, Leaves, Nodes, TrueCheckpoint;
    NodesSize(Leaves(entries, stored.indexedSeq));
    NodesSize(Leaves(entries, v.indexedSeq));
    if stored.checkpoint.Some? {
      SameCheckpoint(c, entries, stored.checkpoint.value, v.checkpoint.value);
    }
  }

  lemma EvolveSelf(rows: seq<Row>)
    ensures RowsEvolve(rows, rows)
  {
    hide FindRow;
  }

  lemma AppendKeeps(c: Config, s: System, value: Hash, at: int)
    requires Inv(c, s)
    ensures var t := s.(entries := AppendEntries(s.entries, value, at));
            Inv(c, t) && Extends(s, t)
  {
    hide ValidState, TrueState, OneChain, RowsOk, Covers, Latest, TaskOk, EntryOf, RowsEvolve;
    var t := s.(entries := AppendEntries(s.entries, value, at));
    EvolveSelf(s.state.witnesses);
    TrueIsDense(c, s.entries, s.state);
    assert Dense(t.entries);
    StateGrows(c, s.entries, t.entries, s.state);
    ChainGrows(c, s.entries, t.entries, s.history);
    forall r <- t.views
      ensures ViewOk(c, t, t.views[r])
    {
      StateGrows(c, s.entries, t.entries, s.views[r].state);
      ViewGrows(c, s, t, s.views[r]);
    }
  }

  lemma TrueIsDense(c: Config, entries: seq<Entry>, v: State)
    requires TrueState(c, entries, v)
    ensures Dense(entries) && 0 <= v.indexedSeq <= |entries|
  {
  }

  lemma ViewGrows(c: Config, s: System, t: System, v: View)
    requires ViewOk(c, s, v) && TrueState(c, t.entries, v.state)
    requires s.entries <= t.entries && s.state == t.state
    ensures ViewOk(c, t, v)
  {
    hide Covers, NodeCount, Nodes, Leaves, TrueCheckpoint;
  }

  lemma LoadKeeps(c: Config, s: System, r: nat)
    requires Inv(c, s)
    ensures var t := s.(views := s.views[r := Ready(s.state)]);
            Inv(c, t) && Extends(s, t)
  {
    hide TrueState, OneChain, RowsOk, Latest, TaskOk, RowsEvolve, FindRow, ValidRow, Complete, LeafFloor;
    EvolveSelf(s.state.witnesses);
    FindOwn(s.state.witnesses);
  }

  lemma ScanKeeps(c: Config, s: System, r: nat, batch: seq<Entry>)
    requires Inv(c, s) && r in s.views
    requires ScanResult(s.entries, s.views[r].state.indexedSeq, c.scanLimit) == Ok(batch)
    ensures var t := s.(views := s.views[r := Scanned(s.views[r].state, batch)]);
            Inv(c, t) && Extends(s, t)
  {
    hide TrueState, OneChain, RowsOk, Latest, TaskOk, RowsEvolve, ValidState, Covers;
    EvolveSelf(s.state.witnesses);
    TrueIsDense(c, s.entries, s.views[r].state);
  }

  lemma ForgetKeeps(c: Config, s: System, views: map<nat, View>, tasks: map<nat, Task>)
    requires Inv(c, s)
    requires forall r <- views :: r in s.views && views[r] == s.views[r]
    requires forall t <- tasks :: t in s.tasks && tasks[t] == s.tasks[t]
    ensures var t := s.(views := views, tasks := tasks);
            Inv(c, t) && Extends(s, t)
  {
    hide TrueState, OneChain, RowsOk, Latest, TaskOk, RowsEvolve, ValidState, Covers;
    EvolveSelf(s.state.witnesses);
  }

  /** New keys are only for sizes above every committed checkpoint's. */
  ghost predicate NewAbove(stored: seq<Row>, after: seq<Row>, history: seq<CheckpointState<Statement>>) {
    forall key: (string, int) | FindRow(after, key).Some? && FindRow(stored, key).None? ::
      history == [] || history[|history| - 1].size < key.1
  }

  /** A predecessor that is done stays done: receipts are kept, and no row appears below the latest checkpoint. */
  lemma DoneKept(c: Config, entries: seq<Entry>, history: seq<CheckpointState<Statement>>,
                 stored: seq<Row>, after: seq<Row>, row: Row)
    requires OneChain(c, entries, history) && RowOf(history, row) && PredecessorDone(stored, row)
    requires RowsEvolve(stored, after) && NewAbove(stored, after, history)
    ensures PredecessorDone(after, row)
  {
    hide FindRow, OneChain, RowOf;
    RowSizes(c, entries, history, row);
    var key := (row.witnessId, row.checkpoint.prevSize);
    var p := FindRow(stored, key);
  }

  lemma TaskKept(c: Config, entries: seq<Entry>, history: seq<CheckpointState<Statement>>,
                 stored: seq<Row>, after: seq<Row>, task: Task)
    requires OneChain(c, entries, history) && RowsOk(history, stored) && TaskOk(stored, task)
    requires RowsEvolve(stored, after) && NewAbove(stored, after, history)
    ensures TaskOk(after, task)
  {
    hide FindRow, OneChain, PredecessorDone, RowsEvolve, NewAbove;
    ItemEvolved(stored, after, task.item);
    if task.Cleared? {
      var r := FindRow(stored, task.item.Key());
      assert RowOf(history, r.value);
      DoneKept(c, entries, history, stored, after, task.item);
    }
  }

  lemma RowsKept(c: Config, entries: seq<Entry>, history: seq<CheckpointState<Statement>>,
                 stored: seq<Row>, after: seq<Row>, row: Row)
    requires OneChain(c, entries, history) && RowsOk(history, stored) && row in stored
    requires RowsEvolve(stored, after) && NewAbove(stored, after, history)
    ensures RowOf(history, row) && (row.receipt.Some? ==> PredecessorDone(after, row))
  {
    hide FindRow, OneChain, PredecessorDone, RowsEvolve, NewAbove;
    if row.receipt.Some? {
      DoneKept(c, entries, history, stored, after, row);
    }
  }

  lemma RowOfMore(history: seq<CheckpointState<Statement>>, more: seq<CheckpointState<Statement>>, row: Row)
    requires RowOf(history, row) && history <= more
    ensures RowOf(more, row)
  {
    var i :| 0 <= i < |history| && row.checkpoint == history[i].bytes && row.checkpointSize == history[i].size;
    assert more[i] in more;
  }

  /** The rows a commit adds, seen from the chain. */
  lemma QueueAbove(
    c: Config, entries: seq<Entry>, history: seq<CheckpointState<Statement>>, k: Option<CheckpointState<Statement>>,
                   stored: seq<Row>, after: seq<Row>, queue: seq<Row>, more: seq<CheckpointState<Statement>>)
    requires OneChain(c, entries, history) && RowsOk(history, stored)
    requires match k
             case None => queue == [] && more == history
             case Some(k) =>
               && Succeeds(Latest(history), k) && more == history + [k]
               && forall row <- queue :: row.checkpointSize == k.size && row.checkpoint == k.bytes && row.receipt.None?
    requires RowsEvolve(stored, after) && forall row <- after :: row in stored || row in queue
    ensures NewAbove(stored, after, history)
    ensures RowsOk(more, after)
  {
    hide FindRow, OneChain, PredecessorDone, RowsEvolve;
    StoredIsFound(stored);
    assert NewAbove(stored, after, history) by {
      hide Accepts, BagPeaks;
    }
    forall row <- after
      ensures RowOf(more, row) && (row.receipt.Some? ==> PredecessorDone(after, row))
    {
      if row in stored {
        RowsKept(c, entries, history, stored, after, row);
        RowOfMore(history, more, row);
      } else {
        assert more[|history|] in more;
      }
    }
  }

  lemma TrueRows(c: Config, entries: seq<Entry>, v: State, rows: seq<Row>)
    requires TrueState(c, entries, v)
    ensures TrueState(c, entries, v.(witnesses := rows))
  {
    hide NodeCount, Leaves, Nodes, TrueCheckpoint;
  }

  /** The rows a proposal queues. */
  function Queued(c: Config, now: int, v: State, next: State): seq<Row> {
    if next.checkpoint == v.checkpoint || next.checkpoint.None? then []
    else Queue(c, now, next.size, next.checkpoint.value.bytes)
  }

  /** A successful commit, on the rows and on the chain. */
  lemma CommitFacts(c: Config, s: System, now: int, v: State, next: State)
    requires Inv(c, s) && TrueState(c, s.entries, v) && TrueState(c, s.entries, next) && Proposes(c, now, v, next)
    requires Covers(s.state.witnesses, v.witnesses)
    requires ApplyCll(s.state, v.size, CheckpointBytes(v), next).Ok?
    ensures var after := ApplyCll(s.state, v.size, CheckpointBytes(v), next).value;
            var history := if next.checkpoint == s.state.checkpoint then s.history
                           else s.history + [next.checkpoint.value];
            && ValidState(after) && ValidState(next) && TrueState(c, s.entries, after)
            && OneChain(c, s.entries, history) && after.checkpoint == Latest(history)
            && RowsOk(history, after.witnesses) && RowsEvolve(s.state.witnesses, after.witnesses)
            && NewAbove(s.state.witnesses, after.witnesses, s.history)
            && Covers(after.witnesses, next.witnesses)
            && s.history <= history
  {
    hide TrueState, OneChain, RowsOk, RowsEvolve, NewAbove, Covers, FindRow, NewRows, ViewOk, TaskOk, Complete,
      LeafFloor, NodeCount, ValidRow, CheckpointMoves, Succeeds, RowsKeepCheckpoints, DistinctKeys;
    var stored := s.state.witnesses;
    SameState(c, s.entries, s.state, v);
    ApplyKeepsValid(s.state, v.size, CheckpointBytes(v), next);
    AppliedIsProposed(s.state, v.size, CheckpointBytes(v), next);
    var after := ApplyCll(s.state, v.size, CheckpointBytes(v), next).value;
    TrueRows(c, s.entries, next, after.witnesses);
    var queue := Queued(c, now, v, next);
    assert next.witnesses == v.witnesses + queue;
    CommitRows(stored, v.witnesses, queue);
    if next.checkpoint == s.state.checkpoint {
      QueueAbove(c, s.entries, s.history, None, stored, after.witnesses, queue, s.history);
    } else {
      var k := next.checkpoint.value;
      NextIsTrue(c, s.entries, next);
      ChainSnoc(c, s.entries, s.history, k);
      QueueAbove(c, s.entries, s.history, Some(k), stored, after.witnesses, queue, s.history + [k]);
    }
  }

  lemma NextIsTrue(c: Config, entries: seq<Entry>, v: State)
    requires TrueState(c, entries, v) && v.checkpoint.Some?
    ensures TrueCheckpoint(c, entries, v.checkpoint.value)
  {
  }

  lemma CommitKeeps(c: Config, s: System, r: nat, now: int)
    requires ValidConfig(c) && Inv(c, s) && r in s.views && s.views[r].Scanned?
    ensures var t := CommitStep(c, s, r, now, s.views[r].state, s.views[r].batch);
            Inv(c, t) && Extends(s, t)
  {
    hide TrueState, OneChain, RowsOk, RowsEvolve, NewAbove, Covers, FindRow, TaskOk, ValidState, Latest, Proposes,
      Advance, ApplyCll, ValidConfig;
    var v, batch := s.views[r].state, s.views[r].batch;
    var t := CommitStep(c, s, r, now, v, batch);
    var advanced := Advance(c, now, v, batch);
    if advanced.Ok? && advanced.value.Some? && ApplyCll(s.state, v.size, CheckpointBytes(v), advanced.value.value).Ok? {
      var next := advanced.value.value;
      TrueIsDense(c, s.entries, v);
      AdvanceTrue(c, now, s.entries, v, batch);
      CommitFacts(c, s, now, v, next);
      forall id <- t.tasks
        ensures TaskOk(t.state.witnesses, t.tasks[id])
      {
        TaskKept(c, s.entries, s.history, s.state.witnesses, t.state.witnesses, s.tasks[id]);
      }
      forall id <- t.views
        ensures ViewOk(c, t, t.views[id])
      {
        if id != r {
          CoversEvolved(s.state.witnesses, t.state.witnesses, s.views[id].state.witnesses);
        }
      }
    } else {
      ForgetKeeps(c, s, s.views - {r}, s.tasks);
      assert t == s.(views := s.views - {r}, tasks := s.tasks);
    }
  }

  lemma DeliverKeeps(c: Config, s: System, task: nat, now: int, delivery: Delivery)
    requires Inv(c, s) && task in s.tasks && CanDeliver(s.tasks[task], delivery)
    ensures var t := DeliverStep(s, task, s.tasks[task].item, now, delivery);
            Inv(c, t) && Extends(s, t)
  {
    hide TrueState, OneChain, RowsEvolve, Covers, FindRow, ValidRow, Latest, ApplyWitness, PredecessorDone, RowOf,
      Complete, LeafFloor, DistinctKeys, ViewOk;
    var stored, item := s.state.witnesses, s.tasks[task].item;
    var next := Delivered(item, now, delivery);
    var t := DeliverStep(s, task, item, now, delivery);
    var applied := ApplyWitness(stored, item.attempts, next);
    if applied.Ok? {
      var after := applied.value;
      DeliveryRows(stored, item, next);
      AppliedValid(stored, item.attempts, next);
      TrueRows(c, s.entries, s.state, after);
      assert NewAbove(stored, after, s.history);
      DeliveredRow(c, s, task, after, next, delivery);
      forall row <- after
        ensures RowOf(s.history, row) && (row.receipt.Some? ==> PredecessorDone(after, row))
      {
        if row in stored {
          RowsKept(c, s.entries, s.history, stored, after, row);
        }
      }
      forall id <- t.tasks
        ensures TaskOk(after, t.tasks[id])
      {
        TaskKept(c, s.entries, s.history, stored, after, s.tasks[id]);
      }
      forall id <- t.views
        ensures ViewOk(c, t, t.views[id])
      {
        ViewEvolved(c, s, t, s.views[id]);
      }
    } else {
      ForgetKeeps(c, s, s.views, s.tasks - {task});
      assert t == s.(views := s.views, tasks := s.tasks - {task});
    }
  }

  lemma AppliedValid(stored: seq<Row>, attempts: int, next: Row)
    requires ApplyWitness(stored, attempts, next).Ok? && forall i | 0 <= i < |stored| :: ValidRow(stored[i])
    ensures var after := ApplyWitness(stored, attempts, next).value;
            forall i | 0 <= i < |after| :: ValidRow(after[i])
  {
    hide ValidRow, FindRow;
  }

  lemma ViewEvolved(c: Config, s: System, t: System, v: View)
    requires ViewOk(c, s, v) && s.entries == t.entries
    requires RowsEvolve(s.state.witnesses, t.state.witnesses)
    ensures ViewOk(c, t, v)
  {
    hide TrueState, RowsEvolve, Covers;
    CoversEvolved(s.state.witnesses, t.state.witnesses, v.state.witnesses);
  }

  /** The delivered row itself: its checkpoint is in the chain, and a receipt came after its predecessor's. */
  lemma DeliveredRow(c: Config, s: System, task: nat, after: seq<Row>, next: Row, delivery: Delivery)
    requires Inv(c, s) && task in s.tasks && CanDeliver(s.tasks[task], delivery)
    requires exists now :: next == Delivered(s.tasks[task].item, now, delivery)
    requires RowsEvolve(s.state.witnesses, after) && NewAbove(s.state.witnesses, after, s.history)
    ensures RowOf(s.history, next) && (next.receipt.Some? ==> PredecessorDone(after, next))
  {
    hide TrueState, OneChain, RowsEvolve, NewAbove, FindRow, ValidState, PredecessorDone, ViewOk, Latest;
    var item := s.tasks[task].item;
    var r := FindRow(s.state.witnesses, item.Key());
    assert TaskOk(s.state.witnesses, s.tasks[task]);
    assert RowOf(s.history, r.value);
    if next.receipt.Some? {
      TaskKept(c, s.entries, s.history, s.state.witnesses, after, s.tasks[task]);
      assert PredecessorDone(after, item);
      SamePredecessor(after, item, next);
    }
  }

  lemma SamePredecessor(rows: seq<Row>, item: Row, next: Row)
    requires PredecessorDone(rows, item) && next.Key() == item.Key() && next.checkpoint == item.checkpoint
    ensures PredecessorDone(rows, next)
  {
  }

  /** Whatever any client does next, the invariant holds and nothing is taken back. */
  lemma StepKeeps(c: Config, s: System, e: Event)
    requires ValidConfig(c) && Inv(c, s)
    ensures Inv(c, Step(c, s, e)) && Extends(s, Step(c, s, e))
  {
    hide Inv, Extends, CommitStep, DeliverStep, Loads, ScanResult, FindRow, PredecessorDone, AppendEntries,
      CanDeliver, ValidConfig, Verifies;
    ForgetOneKeeps(c, s);
    match e
    case Append(value, at) => AppendKeeps(c, s, value, at);
    case Load(r) => LoadKeeps(c, s, r);
    case Scan(r) =>
      if r in s.views && s.views[r].Ready? {
        var scanned := ScanResult(s.entries, s.views[r].state.indexedSeq, c.scanLimit);
        if scanned.Ok? {
          ScanKeeps(c, s, r, scanned.value);
        }
      }
    case Commit(r, now) =>
      if r in s.views && s.views[r].Scanned? {
        CommitKeeps(c, s, r, now);
      }
    case Collect(t, key, now) => CollectKeeps(c, s, t, key);
    case Check(t) => CheckKeeps(c, s, t);
    case Deliver(t, now, delivery) =>
      if t in s.tasks && CanDeliver(s.tasks[t], delivery) {
        DeliverKeeps(c, s, t, now, delivery);
      }
  }

  /** Doing nothing, or forgetting one client's local state. */
  lemma ForgetOneKeeps(c: Config, s: System)
    requires Inv(c, s)
    ensures Extends(s, s)
    ensures forall r: nat :: Inv(c, s.(views := s.views - {r})) && Extends(s, s.(views := s.views - {r}))
    ensures forall t: nat :: Inv(c, s.(tasks := s.tasks - {t})) && Extends(s, s.(tasks := s.tasks - {t}))
  {
    hide Inv, Extends;
    ForgetKeeps(c, s, s.views, s.tasks);
    assert s == s.(views := s.views, tasks := s.tasks);
    forall r: nat
      ensures Inv(c, s.(views := s.views - {r})) && Extends(s, s.(views := s.views - {r}))
    {
      ForgetKeeps(c, s, s.views - {r}, s.tasks);
      assert s.(views := s.views - {r}) == s.(views := s.views - {r}, tasks := s.tasks);
    }
    forall t: nat
      ensures Inv(c, s.(tasks := s.tasks - {t})) && Extends(s, s.(tasks := s.tasks - {t}))
    {
      ForgetKeeps(c, s, s.views, s.tasks - {t});
      assert s.(tasks := s.tasks - {t}) == s.(views := s.views, tasks := s.tasks - {t});
    }
  }

  lemma CollectKeeps(c: Config, s: System, t: nat, key: (string, int))
    requires Inv(c, s)
    ensures var row := FindRow(s.state.witnesses, key);
            row.Some? && row.value.receipt.None? && !row.value.permanent ==>
              var u := s.(tasks := s.tasks[t := Collected(row.value)]);
              Inv(c, u) && Extends(s, u)
  {
    hide TrueState, OneChain, RowsEvolve, RowsOk, ValidState, Covers, Latest, FindRow;
    EvolveSelf(s.state.witnesses);
  }

  lemma CheckKeeps(c: Config, s: System, t: nat)
    requires Inv(c, s)
    ensures t in s.tasks && s.tasks[t].Collected? && PredecessorDone(s.state.witnesses, s.tasks[t].item) ==>
              var u := s.(tasks := s.tasks[t := Cleared(s.tasks[t].item)]);
              Inv(c, u) && Extends(s, u)
  {
    hide TrueState, OneChain, RowsEvolve, RowsOk, ValidState, Covers, Latest, FindRow, PredecessorDone;
    EvolveSelf(s.state.witnesses);
  }

  lemma InitialOk(c: Config)
    ensures Inv(c, Initial())
  {
    hide NodeCount, LeafFloor, Complete, Leaves, Nodes;
    NothingLeft(0);
    NodesSize(Leaves([], 0));
  }

  lemma {:induction false} RunKeeps(c: Config, events: seq<Event>)
    requires ValidConfig(c)
    ensures Inv(c, Run(c, events))
    decreases |events|
  {
    hide Inv, Extends, Step;
    if events == [] {
      InitialOk(c);
    } else {
      RunKeeps(c, events[..|events| - 1]);
      StepKeeps(c, Run(c, events[..|events| - 1]), events[|events| - 1]);
    }
  }

  lemma {:induction false} RunExtends(c: Config, events: seq<Event>, n: nat)
    requires ValidConfig(c) && n <= |events|
    ensures Extends(Run(c, events[..n]), Run(c, events))
    decreases |events|
  {
    hide Inv, Step, RowsEvolve;
    RunKeeps(c, events);
    if n == |events| {
      assert events[..n] == events;
      EvolveSelf(Run(c, events).state.witnesses);
    } else {
      var m := |events| - 1;
      RunExtends(c, events[..m], n);
      assert events[..m][..n] == events[..n];
      RunKeeps(c, events[..m]);
      var a, b, d := Run(c, events[..n]), Run(c, events[..m]), Run(c, events);
      StepKeeps(c, b, events[m]);
      EvolveTransitive(a.state.witnesses, b.state.witnesses, d.state.witnesses);
    }
  }

  // ---- the theorems ---------------------------------------------------------------------

  /**
    Racing runners keep one chain: after any events, the stored nodes are the
    MMR of the first indexed entries, the pending time is that of the first
    uncheckpointed one, and every checkpoint ever committed has the true peaks
    of its entries and names the one before it, with a strictly larger size and
    a consistency proof that verifies.
  */
  lemma RacingRunners(c: Config, events: seq<Event>)
    requires ValidConfig(c)
    ensures var s := Run(c, events);
            && 0 <= s.state.indexedSeq <= |s.entries|
            && s.state.nodes == Nodes(Leaves(s.entries, s.state.indexedSeq))
            && s.state.firstPendingAt == FirstPending(s.entries, Checkpointed(s.state), s.state.indexedSeq)
            && s.state.checkpoint == Latest(s.history)
            && forall i: nat | i < |s.history| ::
                 TrueCheckpoint(c, s.entries, s.history[i]) && NamesPrevious(s.history, i)
  {
    hide TrueCheckpoint, NamesPrevious, OneChain, NodeCount, Nodes, ValidState, RowsOk, ViewOk, TaskOk, Leaves;
    RunKeeps(c, events);
    var s := Run(c, events);
    forall i: nat | i < |s.history|
      ensures TrueCheckpoint(c, s.entries, s.history[i]) && NamesPrevious(s.history, i)
    {
      ChainLink(c, s.entries, s.history, i);
    }
  }

  /** Committed checkpoint `i` names the one before it and proves that it extends it. */
  ghost predicate NamesPrevious(history: seq<CheckpointState<Statement>>, i: nat)
    requires i < |history|
  {
    var k := history[i];
    if i == 0 then k.bytes.prevSize == 0 && k.bytes.prevPeaks.None? && k.bytes.proof.None?
    else
      var p := history[i - 1];
      && p.size < k.size && k.bytes.prevSize == p.size && k.bytes.prevPeaks == Some(p.peaks)
      && k.bytes.proof.Some?
      && Consistency.Accepts(BagPeaks(p.peaks), p.size, BagPeaks(k.peaks), k.size, k.bytes.proof.value)
  }

  lemma ChainLink(c: Config, entries: seq<Entry>, history: seq<CheckpointState<Statement>>, i: nat)
    requires OneChain(c, entries, history) && i < |history|
    ensures TrueCheckpoint(c, entries, history[i]) && NamesPrevious(history, i)
  {
    hide TrueCheckpoint, OneChain, Accepts, BagPeaks;
    ChainAt(c, entries, history, i);
    if i > 0 {
      assert Latest(history[..i]) == Some(history[i - 1]);
    }
  }

  /** No receipt is lost or replaced: from the moment a row has one, no event changes that row. */
  lemma ReceiptsStay(c: Config, events: seq<Event>, n: nat, key: (string, int))
    requires ValidConfig(c) && n <= |events|
    ensures var then_ := FindRow(Run(c, events[..n]).state.witnesses, key);
            then_.Some? && then_.value.receipt.Some? ==> FindRow(Run(c, events).state.witnesses, key) == then_
  {
    hide FindRow, Run;
    RunExtends(c, events, n);
  }

  /** From the moment a row has failed for good it never changes either. */
  lemma FailuresStay(c: Config, events: seq<Event>, n: nat, key: (string, int))
    requires ValidConfig(c) && n <= |events|
    ensures var then_ := FindRow(Run(c, events[..n]).state.witnesses, key);
            then_.Some? && then_.value.permanent ==> FindRow(Run(c, events).state.witnesses, key) == then_
  {
    hide FindRow, Run;
    RunExtends(c, events, n);
  }

  /**
    Delivery keeps to the chain's order: the row for the checkpoint that a row with
    a receipt names as its predecessor, on the same witness, has a receipt too.
  */
  lemma DeliveryOrder(c: Config, events: seq<Event>)
    requires ValidConfig(c)
    ensures var rows := Run(c, events).state.witnesses;
            forall row, before | row in rows && before in rows && Precedes(before, row) ::
              row.receipt.Some? ==> before.receipt.Some?
  {
    hide Run, TrueState, OneChain, ValidMetadata, ViewOk, TaskOk;
    RunKeeps(c, events);
    var rows := Run(c, events).state.witnesses;
    RunDistinct(c, events);
    FindOwn(rows);
    forall row, before | row in rows && before in rows && Precedes(before, row)
      ensures row.receipt.Some? ==> before.receipt.Some?
    {
      assert FindRow(rows, before.Key()) == Some(before);
      assert row.receipt.Some? ==> PredecessorDone(rows, row);
    }
  }

  predicate Precedes(before: Row, row: Row) {
    before.witnessId == row.witnessId && before.checkpointSize == row.checkpoint.prevSize > 0
  }

  lemma RunDistinct(c: Config, events: seq<Event>)
    requires ValidConfig(c)
    ensures DistinctKeys(Run(c, events).state.witnesses)
  {
    hide Run, TrueState, OneChain, ViewOk, TaskOk, RowsOk, Complete, LeafFloor, ValidRow;
    RunKeeps(c, events);
  }

  /** A runner's stale copy of the rows never overwrites a delivered one: commits only add rows. */
  lemma StaleRowsIgnored(c: Config, events: seq<Event>, runner: nat, now: int)
    requires ValidConfig(c)
    ensures var before, after := Run(c, events), Run(c, events + [Commit(runner, now)]);
            before.state.witnesses <= after.state.witnesses
  {
    hide Inv, Advance, ApplyCll;
    var s := Run(c, events);
    assert (events + [Commit(runner, now)])[..|events|] == events;
    if runner in s.views && s.views[runner].Scanned? {
      var v := s.views[runner].state;
      var advanced := Advance(c, now, v, s.views[runner].batch);
      if && advanced.Ok? && advanced.value.Some?
         && ApplyCll(s.state, v.size, CheckpointBytes(v), advanced.value.value).Ok? {
        AppliedIsProposed(s.state, v.size, CheckpointBytes(v), advanced.value.value);
      }
    }
  }
}
