// The witness delivery runner: which rows are due and in what order, how long
// to wait after failures, and one delivery attempt against the store.

module DeliverySpec {
  import opened Wrappers
  import opened Powers
  import opened RunnerSpec

  // ---- backoff ------------------------------------------------------------------------

  /** The delay after `attempts` failures: the base doubled each time, up to a maximum. */
  function Capped(base: nat, max: nat, attempts: nat): nat {
    if base * Pow2(attempts) <= max then base * Pow2(attempts) else max
  }

  lemma CappedStep(base: nat, max: nat, n: nat)
    requires 0 < base <= max
    ensures Capped(base, max, 0) == base && Capped(base, max, n) <= max
    ensures Capped(base, max, n + 1) == if 2 * Capped(base, max, n) <= max then 2 * Capped(base, max, n) else max
    ensures Capped(base, max, n) >= base
  {
    assert base * Pow2(n + 1) == 2 * (base * Pow2(n));
    assert base * Pow2(n) >= base;
  }

  /** Once at the maximum, further failures leave it there. */
  lemma {:induction false} CappedStays(base: nat, max: nat, n: nat, m: nat)
    requires 0 < base <= max && n <= m && Capped(base, max, n) == max
    ensures Capped(base, max, m) == max
    decreases m
  {
    hide Capped;
    if n < m {
      CappedStays(base, max, n, m - 1);
      CappedStep(base, max, m - 1);
    }
  }

  // ---- pending rows ------------------------------------------------------------------------

  predicate IsDueRow(row: Row, now: int, witnessId: Option<string>) {
    && row.receipt.None? && !row.permanent && row.nextAttemptAt <= now
    && (witnessId.None? || row.witnessId == witnessId.value)
  }

  predicate StringAtMost(a: string, b: string) {
    a == [] || (b != [] && (a[0] < b[0] || (a[0] == b[0] && StringAtMost(a[1..], b[1..]))))
  }

  /** By checkpoint size, then by witness id. */
  predicate AtMost(a: Row, b: Row) {
    a.checkpointSize < b.checkpointSize
    || (a.checkpointSize == b.checkpointSize && StringAtMost(a.witnessId, b.witnessId))
  }

  predicate Ordered(rows: seq<Row>) {
    forall i, j | 0 <= i < j < |rows| :: AtMost(rows[i], rows[j])
  }

  lemma {:induction false} StringOrder(a: string, b: string, c: string)
    ensures StringAtMost(a, a) && (StringAtMost(a, b) || StringAtMost(b, a))
    ensures StringAtMost(a, b) && StringAtMost(b, c) ==> StringAtMost(a, c)
    decreases |a| + |b| + |c|
  {
    if a != [] {
      var b', c' := if b == [] then [] else b[1..], if c == [] then [] else c[1..];
      StringOrder(a[1..], b', c');
    }
  }

  lemma AtMostOrder(a: Row, b: Row, c: Row)
    ensures AtMost(a, a) && (AtMost(a, b) || AtMost(b, a))
    ensures AtMost(a, b) && AtMost(b, c) ==> AtMost(a, c)
  {
    StringOrder(a.witnessId, b.witnessId, c.witnessId);
  }

  function DueRows(rows: seq<Row>, now: int, witnessId: Option<string>): (due: seq<Row>)
    ensures forall row :: row in due <==> row in rows && IsDueRow(row, now, witnessId)
  {
    if rows == [] then []
    else (if IsDueRow(rows[0], now, witnessId) then [rows[0]] else []) + DueRows(rows[1..], now, witnessId)
  }

  function Insert(row: Row, sorted: seq<Row>): (r: seq<Row>)
    ensures multiset(r) == multiset(sorted) + multiset{row}
  {
    if sorted == [] || AtMost(row, sorted[0]) then [row] + sorted
    else
      assert sorted == [sorted[0]] + sorted[1..];
      [sorted[0]] + Insert(row, sorted[1..])
  }

  function Sort(rows: seq<Row>): (r: seq<Row>)
    ensures multiset(r) == multiset(rows)
  {
    if rows == [] then []
    else
      assert rows == [rows[0]] + rows[1..];
      Insert(rows[0], Sort(rows[1..]))
  }

  /** Due rows are rows, none more often than it is stored. */
  lemma {:induction false} DueOnce(rows: seq<Row>, now: int, witnessId: Option<string>)
    ensures multiset(DueRows(rows, now, witnessId)) <= multiset(rows)
  {
    hide IsDueRow;
    if rows != [] {
      DueOnce(rows[1..], now, witnessId);
      assert rows == [rows[0]] + rows[1..];
    }
  }

  lemma {:induction false} InsertOrdered(row: Row, sorted: seq<Row>)
    requires Ordered(sorted)
    ensures Ordered(Insert(row, sorted))
  {
    hide AtMost;
    if sorted != [] {
      AtMostOrder(row, sorted[0], sorted[0]);
      if AtMost(row, sorted[0]) {
        forall i | 0 <= i < |sorted|
          ensures AtMost(row, sorted[i])
        {
          AtMostOrder(row, sorted[0], sorted[i]);
        }
      } else {
        InsertOrdered(row, sorted[1..]);
        var rest := Insert(row, sorted[1..]);
        forall i | 0 <= i < |rest|
          ensures AtMost(sorted[0], rest[i])
        {
          assert rest[i] in multiset(rest);
          if rest[i] != row {
            assert rest[i] in multiset(sorted[1..]);
          }
        }
      }
    }
  }

  lemma {:induction false} SortOrdered(rows: seq<Row>)
    ensures Ordered(Sort(rows))
  {
    hide AtMost;
    if rows != [] {
      SortOrdered(rows[1..]);
      InsertOrdered(rows[0], Sort(rows[1..]));
    }
  }

  /** `pending`: the due rows in order, at most `limit` of them. */
  function Pending(rows: seq<Row>, now: int, limit: nat, witnessId: Option<string>): seq<Row> {
    var due := Sort(DueRows(rows, now, witnessId));
    if |due| <= limit then due else due[..limit]
  }

  /** Lexicographic order: the texts are equal up to where the first ends or has the smaller character. */
  lemma {:induction false} StringOrderMeaning(a: string, b: string)
    ensures StringAtMost(a, b) <==>
            exists n: nat | n <= |a| && n <= |b| :: a[..n] == b[..n] && (n == |a| || (n < |b| && a[n] < b[n]))
  {
    if a == [] {
      assert a[..0] == b[..0];
    } else if b != [] {
      StringOrderMeaning(a[1..], b[1..]);
      if a[0] == b[0] && StringAtMost(a[1..], b[1..]) {
        var n: nat :| n <= |a| - 1 && n <= |b| - 1 && a[1..][..n] == b[1..][..n]
                      && (n == |a| - 1 || (n < |b| - 1 && a[1..][n] < b[1..][n]));
        assert a[..n + 1] == [a[0]] + a[1..][..n] && b[..n + 1] == [b[0]] + b[1..][..n];
      } else if a[0] < b[0] {
        assert a[..0] == b[..0];
      }
      if n: nat :| n <= |a| && n <= |b| && a[..n] == b[..n] && (n == |a| || (n < |b| && a[n] < b[n])) {
        if n > 0 {
          assert a[0] == a[..n][0] == b[..n][0] == b[0];
          assert a[1..][..n - 1] == a[..n][1..] && b[1..][..n - 1] == b[..n][1..];
        }
      }
    }
  }

  /**
    A row that may be submitted: not delivered, not failed for good, its time come, and of this
    witness if one is named.
  */
  ghost predicate Awaits(row: Row, now: int, witnessId: Option<string>) {
    && row.receipt == None && row.permanent == false && now >= row.nextAttemptAt
    && (witnessId == None || witnessId == Some(row.witnessId))
  }

  /**
    Only rows that await delivery, each once, by checkpoint size and then witness
    id, and none left behind that should have come before one returned.
  */
  lemma PendingMeaning(rows: seq<Row>, now: int, limit: nat, witnessId: Option<string>)
    ensures var p := Pending(rows, now, limit, witnessId);
            && |p| <= limit && multiset(p) <= multiset(rows)
            && (forall row <- p :: row in rows && Awaits(row, now, witnessId))
            && (forall i, j | 0 <= i < j < |p| ::
                  && p[i].checkpointSize <= p[j].checkpointSize
                  && (p[i].checkpointSize == p[j].checkpointSize ==> StringAtMost(p[i].witnessId, p[j].witnessId)))
            && (forall row <- rows | Awaits(row, now, witnessId) ::
                  row in p || (|p| == limit && forall q <- p :: q.checkpointSize <= row.checkpointSize))
  {
    PendingOrder(rows, now, limit, witnessId);
    var p := Pending(rows, now, limit, witnessId);
    forall i, j | 0 <= i < j < |p|
      ensures p[i].checkpointSize <= p[j].checkpointSize
      ensures p[i].checkpointSize == p[j].checkpointSize ==> StringAtMost(p[i].witnessId, p[j].witnessId)
    {
      assert AtMost(p[i], p[j]);
    }
  }

  lemma PendingOrder(rows: seq<Row>, now: int, limit: nat, witnessId: Option<string>)
    ensures var p := Pending(rows, now, limit, witnessId);
            && |p| <= limit && Ordered(p) && multiset(p) <= multiset(rows)
            && (forall row <- p :: row in rows && IsDueRow(row, now, witnessId))
            && (forall row <- rows | IsDueRow(row, now, witnessId) ::
                  row in p || (|p| == limit && forall q <- p :: AtMost(q, row)))
  {
    hide AtMost, IsDueRow, Sort, DueRows;
    var all := DueRows(rows, now, witnessId);
    var due := Sort(all);
    SortOrdered(all);
    DueOnce(rows, now, witnessId);
    forall row
      ensures row in due <==> row in rows && IsDueRow(row, now, witnessId)
    {
      assert row in due <==> row in multiset(due);
      assert row in all <==> row in multiset(all);
    }
    var p := Pending(rows, now, limit, witnessId);
    if |due| > limit {
      assert due == p + due[limit..];
    }
    forall row <- rows | IsDueRow(row, now, witnessId)
      ensures row in p || (|p| == limit && forall q <- p :: AtMost(q, row))
    {
      assert row in due;
      var j :| 0 <= j < |due| && due[j] == row;
      if j < |p| {
        assert p[j] == row;
      }
    }
  }
}

module Delivery {
  import opened Wrappers
  import opened Powers
  import opened Integers
  import opened Engine
  import opened Statements
  import opened RunnerSpec
  import opened WitnessRows
  import opened RunnerSystem
  import opened DeliverySpec

  method Backoff(base: nat, max: nat, attempts: nat) returns (delay: nat)
    requires 0 < base <= max
    ensures delay == Capped(base, max, attempts)
  {
    hide Capped;
    delay := base;
    CappedStep(base, max, 0);
    for n := 0 to attempts
      invariant delay == Capped(base, max, n) <= max
    {
      CappedStep(base, max, n);
      if delay >= max {
        CappedStays(base, max, n, attempts);
        break;
      }
      delay := if delay * 2 < max then delay * 2 else max;
    }
  }

  /** The Go runner's version on 64-bit durations: it compares before doubling, so nothing overflows. */
  method BackoffInt64(base: int64, max: int64, attempts: nat) returns (delay: int64)
    requires 0 < base <= max
    ensures delay as int == Capped(base as int, max as int, attempts)
  {
    hide Capped;
    delay := base;
    var count := 0;
    CappedStep(base as int, max as int, 0);
    while count < attempts && delay < max
      invariant count <= attempts && 0 < delay <= max && delay as int == Capped(base as int, max as int, count)
      decreases attempts - count
    {
      CappedStep(base as int, max as int, count);
      if delay > max - delay {
        delay := max;
      } else {
        delay := delay * 2;
      }
      count := count + 1;
    }
    if count < attempts {
      CappedStays(base as int, max as int, count, attempts);
    }
  }

  /** The wait after a failure; with jitter, a fraction of it. */
  function Delay(base: nat, max: nat, attempts: int, jitter: Option<real>): int {
    var full := Capped(base, max, if attempts > 0 then attempts else 0);
    if jitter.None? then full else (full as real * jitter.value).Floor
  }

  /** Jitter only ever shortens the wait. */
  lemma DelayWithin(base: nat, max: nat, attempts: nat, jitter: Option<real>)
    requires 0 < base <= max && (jitter.Some? ==> 0.0 <= jitter.value < 1.0)
    ensures 0 <= Delay(base, max, attempts, jitter) <= max
    ensures Delay(base, max, attempts, jitter) <= base * Pow2(attempts)
    ensures jitter != None ==>
              var part := Capped(base, max, attempts) as real * jitter.value;
              Delay(base, max, attempts, jitter) as real <= part < Delay(base, max, attempts, jitter) as real + 1.0
    ensures jitter.None? ==>
              Delay(base, max, attempts, jitter) == if base * Pow2(attempts) < max then base * Pow2(attempts) else max
  {
    hide Pow2, Capped;
    CappedStep(base, max, attempts);
    CappedIs(base, max, attempts);
    if jitter.Some? {
      Shorter(Capped(base, max, attempts), jitter.value);
    }
  }

  lemma CappedIs(base: nat, max: nat, attempts: nat)
    ensures var full := base * Pow2(attempts);
            Capped(base, max, attempts) == if full < max then full else max
  {
    hide Pow2;
  }

  lemma Shorter(full: nat, part: real)
    requires 0.0 <= part < 1.0
    ensures 0 <= (full as real * part).Floor <= full
  {
    var x, y := full as real, full as real * part;
    assert y == x * part;
    Product(x, part);
  }

  lemma Product(x: real, part: real)
    requires 0.0 <= x && 0.0 <= part < 1.0
    ensures 0.0 <= x * part <= x
  {
    var rest := 1.0 - part;
    assert x * rest >= 0.0;
    assert x == x * part + x * rest;
  }

  /** What the client and the verifier answer. */
  datatype Answer =
    | Receipt(receipt: WitnessReceipt, verified: bool, reason: string)
    | Failure(retryable: bool, reason: string)

  /** How an answer is written back. */
  function DeliveryOf(answer: Answer, delay: int): RunnerSystem.Delivery {
    match answer
    case Receipt(receipt, verified, reason) =>
      if verified then Accepted(receipt) else Failed(true, reason, delay)
    case Failure(retryable, reason) => Failed(!retryable, reason, delay)
  }

  /** The store's rows after writing an item back. */
  function WrittenBack(rows: seq<Row>, item: Row, now: int, delivery: RunnerSystem.Delivery): Result<seq<Row>, Error> {
    ApplyWitness(rows, item.attempts, Delivered(item, now, delivery))
  }

  const BAD_CHECKPOINT := "stored checkpoint failed verification"

  /** The store after a delivery wrote its row back: what became of the row, in terms of the answer. */
  ghost predicate Concluded(rows: seq<Row>, item: Row, now: int, answer: Answer, delay: int, after: seq<Row>) {
    && |after| == |rows|
    && (forall i | 0 <= i < |rows| :: rows[i].Key() != item.Key() ==> after[i] == rows[i])
    && exists i :: 0 <= i < |after| && after[i].Key() == item.Key() &&
         var row := after[i];
         var good := Verifies(item.checkpoint);
         && rows[i].attempts == item.attempts && row.attempts == item.attempts + 1
         && rows[i].checkpoint == row.checkpoint == item.checkpoint
         && (row.permanent <==>
               !good || (answer.Failure? && !answer.retryable) || (answer.Receipt? && !answer.verified))
         && (if good && answer.Receipt? && answer.verified then
               row.receipt == Some(answer.receipt) && row.nextAttemptAt == now && row.lastError == None
             else
               && row.receipt == item.receipt && row.nextAttemptAt == now + delay
               && row.lastError == Some(if good then answer.reason else BAD_CHECKPOINT))
  }

  /** What is written back concludes the delivery. */
  lemma WrittenBackConcludes(rows: seq<Row>, item: Row, now: int, answer: Answer, delay: int)
    ensures var delivery := if Verifies(item.checkpoint) then DeliveryOf(answer, delay)
                            else Failed(true, BAD_CHECKPOINT, delay);
            var r := ApplyWitness(rows, item.attempts, Delivered(item, now, delivery));
            r.Ok? ==> Concluded(rows, item, now, answer, delay, r.value)
  {
    hide Verifies, FindRow, ValidRow;
    var good := Verifies(item.checkpoint);
    var next := Delivered(item, now, if good then DeliveryOf(answer, delay) else Failed(true, BAD_CHECKPOINT, delay));
    var r := ApplyWitness(rows, item.attempts, next);
    if r.Ok? {
      var i := IndexOf(rows, next.Key());
      assert r.value[i] == next;
    }
  }

  /** The stored row that an item's statement names as its predecessor, on the same witness, has no receipt. */
  ghost predicate Held(rows: seq<Row>, item: Row) {
    exists i :: 0 <= i < |rows| && Precedes(rows[i], item) && rows[i].receipt == None
  }

  lemma HeldExact(rows: seq<Row>, item: Row)
    requires DistinctKeys(rows)
    ensures Held(rows, item) <==> !PredecessorDone(rows, item)
  {
    hide FindRow;
    var key := (item.witnessId, item.checkpoint.prevSize);
    var p := FindRow(rows, key);
    FindOwn(rows);
    if p.Some? {
      var i :| 0 <= i < |rows| && rows[i] == p.value;
    }
    forall i | 0 <= i < |rows| && Precedes(rows[i], item)
      ensures p == Some(rows[i])
    {
      assert rows[i] in rows && rows[i].Key() == key;
    }
  }

  lemma ValidDistinct(v: State)
    requires ValidState(v)
    ensures DistinctKeys(v.witnesses)
  {
  }

  /** A delivered row, and one that failed for good, is never handed out again. */
  lemma NeverAgain(rows: seq<Row>, row: Row, now: int, limit: nat, witnessId: Option<string>)
    requires row.permanent || row.receipt.Some?
    ensures row !in Pending(rows, now, limit, witnessId)
  {
    hide Pending;
    PendingMeaning(rows, now, limit, witnessId);
  }

  /**
    One delivery: whether the row received a receipt, and whether this
    witness's pass must stop.  A row whose predecessor has no receipt is not
    submitted at all.
  */
  method Deliver(
    store: Engine<Statement>, item: Row, now: int, answer: Answer, base: nat, max: nat, jitter: Option<real>)
    returns (r: Result<(bool, bool), Error>)
    requires store.Valid() && 0 < base <= max
    modifies store`state
    ensures store.Valid()
    ensures var rows := old(store.state).witnesses;
            var delay := Delay(base, max, item.attempts, jitter);
            r.Ok? && (!Verifies(item.checkpoint) || !Held(rows, item)) ==>
              && Concluded(rows, item, now, answer, delay, store.state.witnesses)
              && (r.value.0 <==> Verifies(item.checkpoint) && answer.Receipt? && answer.verified)
              && (r.value.1 <==> Verifies(item.checkpoint) && answer.Failure? && answer.retryable)
    ensures Verifies(item.checkpoint) && Held(old(store.state).witnesses, item) ==>
              r == Ok((false, true)) && store.state == old(store.state)
    ensures var rows := old(store.state).witnesses;
            var delay := Delay(base, max, item.attempts, jitter);
            if !Verifies(item.checkpoint) then
              match WrittenBack(rows, item, now, Failed(true, BAD_CHECKPOINT, delay))
              case Ok(after) => r == Ok((false, false)) && store.state == old(store.state).(witnesses := after)
              case Err(e) => r == Err(e) && store.state == old(store.state)
            else if !PredecessorDone(rows, item) then r == Ok((false, true)) && store.state == old(store.state)
            else
              match WrittenBack(rows, item, now, DeliveryOf(answer, delay))
              case Ok(after) =>
                && r == Ok((answer.Receipt? && answer.verified, answer.Failure? && answer.retryable))
                && store.state == old(store.state).(witnesses := after)
              case Err(e) => r == Err(e) && store.state == old(store.state)
  {
    hide Verifies, ApplyWitness, ValidState, Capped, Concluded, Delivered, DeliveryOf, Held;
    ValidDistinct(store.state);
    HeldExact(store.state.witnesses, item);
    var delay := Backoff(base, max, if item.attempts > 0 then item.attempts else 0);
    if jitter.Some? {
      delay := (delay as real * jitter.value).Floor;
    }
    assert delay == Delay(base, max, item.attempts, jitter);
    WrittenBackConcludes(store.state.witnesses, item, now, answer, delay);
    var verified := VerifyStatement(item.checkpoint);
    if !verified {
      var failed := store.CommitWitness(item.attempts, Delivered(item, now, Failed(true, BAD_CHECKPOINT, delay)));
      if failed.Err? {
        return Err(failed.error);
      }
      return Ok((false, false));
    }
    if item.checkpoint.prevSize > 0 {
      var predecessor := FindRow(store.state.witnesses, (item.witnessId, item.checkpoint.prevSize));
      if predecessor.Some? && predecessor.value.receipt.None? {
        return Ok((false, true));
      }
    }
    var committed := store.CommitWitness(item.attempts, Delivered(item, now, DeliveryOf(answer, delay)));
    if committed.Err? {
      return Err(committed.error);
    }
    return Ok((answer.Receipt? && answer.verified, answer.Failure? && answer.retryable));
  }
}
