// The JSONL journal: one line per event, replayed on open, rolled back when a
// write fails, and cut back to whole lines after a crash.

module JournalSpec {
  import opened Wrappers
  import opened EngineExact
  import opened Bytes
  import opened Lines
  import opened Positions
  import opened Decimals
  import opened Digests
  import opened Engine
  import opened Wire

  const MAX_JOURNAL_EVENT_BYTES := 4194304

  /** What the engine holds. */
  datatype Live<C> = Live(entries: seq<Entry>, state: CllState<C>)

  function NoEvents<C>(): Live<C> {
    Live([], EmptyState())
  }

  /** One event of the journal, on the engine's state. */
  function ApplyEvent<C(==)>(l: Live<C>, e: JournalEvent<C>): Result<Live<C>, Error> {
    match e
    case Init => if l.entries != [] || l.state.size != 0 then Err(Corrupt) else Ok(l)
    case EntryAppend(entry) => if IsNext(l.entries, entry) then Ok(l.(entries := l.entries + [entry])) else Err(Corrupt)
    case CllCommit(size, expected, delta) =>
      (match ApplyCllDelta(l.state, size, expected, delta)
       case Ok(after) => Ok(l.(state := after))
       case Err(_) => Err(Corrupt))
    case WitnessCommit(attempts, row) =>
      (match ApplyWitness(l.state.witnesses, attempts, row)
       case Ok(rows) => Ok(l.(state := l.state.(witnesses := rows)))
       case Err(_) => Err(Corrupt))
  }

  function LineOf<C>(k: Codec<C>, e: JournalEvent<C>): seq<byte>
    requires EventFits(e)
  {
    k.line(EventToWire(k, e)) + [NEWLINE]
  }

  function EventOf<C>(k: Codec<C>, line: seq<byte>): Option<JournalEvent<C>> {
    var item :- k.unline(line);
    EventFromWire(k, item)
  }

  /** What a replay found: the state, whether any event was there, and the bytes after the last newline. */
  datatype Replayed<C> = Replayed(live: Live<C>, initialized: bool, rest: seq<byte>)

  function Replay<C(==)>(k: Codec<C>, data: seq<byte>, l: Live<C>, initialized: bool): Result<Replayed<C>, Error>
    decreases |data|
  {
    var i := FindNewline(data);
    if i == |data| then Ok(Replayed(l, initialized, data))
    else if i > MAX_JOURNAL_EVENT_BYTES then Err(Corrupt)
    else
      match EventOf(k, data[..i])
      case None => Err(Corrupt)
      case Some(e) =>
        if !initialized && !e.Init? then Err(Corrupt)
        else
          match ApplyEvent(l, e)
          case Err(_) => Err(Corrupt)
          case Ok(next) => Replay(k, data[i + 1..], next, true)
  }

  /** The journal's bytes stand for the engine's state. */
  predicate Records<C(==)>(k: Codec<C>, data: seq<byte>, l: Live<C>) {
    Replay(k, data, NoEvents(), false) == Ok(Replayed(l, true, []))
  }

  // ---- replaying in pieces -----------------------------------------------------------

  /** What one whole line does to a replay. */
  function StepLine<C(==)>(k: Codec<C>, line: seq<byte>, l: Live<C>, initialized: bool): Result<Live<C>, Error> {
    if |line| > MAX_JOURNAL_EVENT_BYTES then Err(Corrupt)
    else
      match EventOf(k, line)
      case None => Err(Corrupt)
      case Some(e) => if !initialized && !e.Init? then Err(Corrupt) else ApplyEvent(l, e)
  }

  lemma ReplayLine<C>(k: Codec<C>, line: seq<byte>, tail: seq<byte>, l: Live<C>, initialized: bool)
    requires NEWLINE !in line
    ensures var next := StepLine(k, line, l, initialized);
            Replay(k, line + [NEWLINE] + tail, l, initialized) ==
            if next.Ok? then Replay(k, tail, next.value, true) else Err(Corrupt)
  {
    hide EventOf, ApplyEvent;
    var data := line + [NEWLINE] + tail;
    assert data[..|line|] == line && data[|line| + 1..] == tail;
    NewlineAt(data, |line|);
  }

  /** After whole lines, replay continues from where they led. */
  lemma {:induction false} ReplayConcat<C>(k: Codec<C>, data: seq<byte>, more: seq<byte>, l: Live<C>, initialized: bool)
    requires var r := Replay(k, data, l, initialized); r.Ok? && r.value.rest == []
    ensures var r := Replay(k, data, l, initialized).value;
            Replay(k, data + more, l, initialized) == Replay(k, more, r.live, r.initialized)
    decreases |data|
  {
    hide StepLine, Replay;
    var i := FindNewline(data);
    SplitLine(data);
    if i == |data| {
      LastLine(k, data, l, initialized);
      assert data + more == more;
    } else {
      var line, tail := data[..i], data[i + 1..];
      ReplayLine(k, line, tail, l, initialized);
      ReplayLine(k, line, tail + more, l, initialized);
      assert data + more == line + [NEWLINE] + (tail + more);
      ReplayConcat(k, tail, more, StepLine(k, line, l, initialized).value, true);
    }
  }

  lemma LastLine<C>(k: Codec<C>, data: seq<byte>, l: Live<C>, initialized: bool)
    requires NEWLINE !in data
    ensures Replay(k, data, l, initialized) == Ok(Replayed(l, initialized, data))
  {
    NoNewline(data);
  }

  /** One turn of the replay loop. */
  lemma ReplayCases<C>(k: Codec<C>, data: seq<byte>, l: Live<C>, initialized: bool)
    ensures var i := FindNewline(data);
            Replay(k, data, l, initialized) ==
            if i == |data| then Ok(Replayed(l, initialized, data))
            else
              var next := StepLine(k, data[..i], l, initialized);
              if next.Ok? then Replay(k, data[i + 1..], next.value, true) else Err(Corrupt)
  {
    hide StepLine, Replay;
    var i := FindNewline(data);
    SplitLine(data);
    if i == |data| {
      LastLine(k, data, l, initialized);
    } else {
      ReplayLine(k, data[..i], data[i + 1..], l, initialized);
    }
  }

  /** Cutting off an incomplete tail leaves whole lines that replay to the same state. */
  lemma {:induction false} ReplayCut<C>(k: Codec<C>, data: seq<byte>, l: Live<C>, initialized: bool)
    requires Replay(k, data, l, initialized).Ok?
    ensures var r := Replay(k, data, l, initialized).value;
            var n := |data| - |r.rest|;
            && 0 <= n && data[n..] == r.rest && NEWLINE !in r.rest
            && Replay(k, data[..n], l, initialized) == Ok(r.(rest := []))
            && (n > 0 ==> r.initialized) && (n == 0 ==> r.live == l && r.initialized == initialized)
    decreases |data|
  {
    hide StepLine, Replay;
    var i := FindNewline(data);
    SplitLine(data);
    if i == |data| {
      LastLine(k, data, l, initialized);
      LastLine(k, [], l, initialized);
      assert data[..i] == data && data[..0] == [];
    } else {
      var line, tail := data[..i], data[i + 1..];
      ReplayLine(k, line, tail, l, initialized);
      var next := StepLine(k, line, l, initialized).value;
      ReplayCut(k, tail, next, true);
      var r := Replay(k, tail, next, true).value;
      var m := |tail| - |r.rest|;
      ReplayLine(k, line, tail[..m], l, initialized);
      assert data[..i + 1 + m] == line + [NEWLINE] + tail[..m];
    }
  }

  /** What opening a file finds: its state and its whole lines; a torn tail needs `repair`. */
  function Reopen<C(==)>(k: Codec<C>, file: seq<byte>, repair: bool): (r: Result<(Live<C>, seq<byte>), Error>)
    ensures r.Err? ==> r.error == Corrupt
  {
    hide Replay;
    match Replay(k, file, NoEvents(), false)
    case Err(_) => Err(Corrupt)
    case Ok(found) =>
      ReplayCut(k, file, NoEvents(), false);
      if found.rest != [] && !repair then Err(Corrupt)
      else Ok((found.live, file[..|file| - |found.rest|]))
  }

  // ---- what a file must hold, line by line ------------------------------------------------

  /** `m` is `l` after event `e`. */
  ghost predicate Leads<C(!new)>(l: Live<C>, e: JournalEvent<C>, m: Live<C>) {
    match e
    case Init => l.entries == [] && l.state.size == 0 && m == l
    case EntryAppend(entry) =>
      && entry.seqNo == |l.entries| + 1 && entry.seqNo <= 9_007_199_254_740_991
      && (forall i :: 0 <= i < |l.entries| ==> l.entries[i].value != entry.value)
      && m.entries == l.entries + [entry] && m.state == l.state
    case CllCommit(size, expected, delta) =>
      ApplyCllDelta(l.state, size, expected, delta) == Ok(m.state) && m.entries == l.entries
    case WitnessCommit(attempts, row) =>
      && m.entries == l.entries && m.state == l.state.(witnesses := m.state.witnesses)
      && ApplyWitness(l.state.witnesses, attempts, row) == Ok(m.state.witnesses)
  }

  lemma LeadsExact<C(!new)>(l: Live<C>, e: JournalEvent<C>, m: Live<C>)
    ensures Leads(l, e, m) <==> ApplyEvent(l, e) == Ok(m)
  {
    hide ApplyCllDelta, ApplyWitness;
    if e.EntryAppend? {
      NextExact(l.entries, e.entry);
    }
  }

  /** The lines are events, the first an initialization if none came before, that lead from `l` to `found`. */
  ghost predicate Reaches<C(!new)>(k: Codec<C>, lines: seq<seq<byte>>, l: Live<C>, initialized: bool, found: Live<C>)
    decreases |lines|
  {
    if lines == [] then found == l
    else
      && |lines[0]| <= MAX_JOURNAL_EVENT_BYTES && k.unline(lines[0]) != None
      && exists e, m :: EventFromWire(k, k.unline(lines[0]).value) == Some(e)
                        && (!initialized ==> e == Init)
                        && Leads(l, e, m) && Reaches(k, lines[1..], m, true, found)
  }

  lemma {:induction false} ReachesExact<C(!new)>(
    k: Codec<C>, lines: seq<seq<byte>>, torn: seq<byte>, l: Live<C>, initialized: bool, found: Live<C>)
    requires AreLines(lines) && NEWLINE !in torn
    ensures Reaches(k, lines, l, initialized, found) <==>
            Replay(k, Unlines(lines) + torn, l, initialized) == Ok(Replayed(found, initialized || lines != [], torn))
    decreases |lines|
  {
    hide Replay, ApplyEvent, EventFromWire, Leads, Unlines;
    if lines == [] {
      NoUnlines();
      assert [] + torn == torn;
      TornReplay(k, torn, l, initialized);
    } else {
      var line, rest := lines[0], lines[1..];
      assert lines == [line] + rest;
      UnlinesCons(line, rest);
      var tail := Unlines(rest) + torn;
      assert Unlines(lines) + torn == line + [NEWLINE] + tail;
      ReplayLine(k, line, tail, l, initialized);
      var next := StepLine(k, line, l, initialized);
      if next.Ok? {
        ReachesExact(k, rest, torn, next.value, true, found);
      }
      forall e, m
        ensures Leads(l, e, m) <==> ApplyEvent(l, e) == Ok(m)
      {
        LeadsExact(l, e, m);
      }
    }
  }

  lemma TornReplay<C>(k: Codec<C>, torn: seq<byte>, l: Live<C>, initialized: bool)
    requires NEWLINE !in torn
    ensures Replay(k, torn, l, initialized) == Ok(Replayed(l, initialized, torn))
  {
    NoNewline(torn);
  }

  /**
    Opening succeeds exactly on files whose whole lines lead somewhere, and whose torn tail may be
    cut if there is one.
  */
  lemma ReopenExact<C(!new)>(k: Codec<C>, file: seq<byte>, repair: bool, found: Live<C>, whole: seq<byte>)
    ensures Reopen(k, file, repair) == Ok((found, whole)) <==>
            && Reaches(k, Whole(file), NoEvents(), false, found) && whole == Unlines(Whole(file))
            && (Torn(file) != [] ==> repair)
  {
    hide Replay, Reaches, Unlines, Whole, Torn;
    FileIsLines(file);
    ReachesExact(k, Whole(file), Torn(file), NoEvents(), false, found);
    var r := Replay(k, file, NoEvents(), false);
    if r.Ok? {
      RestIsTorn(k, file, NoEvents(), false);
      ReachesExact(k, Whole(file), Torn(file), NoEvents(), false, r.value.live);
      RestInitialized(k, file, NoEvents(), false);
      var lines := Unlines(Whole(file));
      assert file[..|file| - |Torn(file)|] == lines;
    }
  }

  lemma {:induction false} RestIsTorn<C>(k: Codec<C>, data: seq<byte>, l: Live<C>, initialized: bool)
    requires Replay(k, data, l, initialized).Ok?
    ensures Replay(k, data, l, initialized).value.rest == Torn(data)
    decreases |data|
  {
    hide EventOf, ApplyEvent, FindNewline;
    var i := FindNewline(data);
    if i < |data| {
      var next := ApplyEvent(l, EventOf(k, data[..i]).value);
      RestIsTorn(k, data[i + 1..], next.value, true);
    }
  }

  lemma {:induction false} RestInitialized<C>(k: Codec<C>, data: seq<byte>, l: Live<C>, initialized: bool)
    requires Replay(k, data, l, initialized).Ok?
    ensures Replay(k, data, l, initialized).value.initialized == (initialized || Whole(data) != [])
    decreases |data|
  {
    hide EventOf, ApplyEvent, FindNewline;
    var i := FindNewline(data);
    if i < |data| {
      var next := ApplyEvent(l, EventOf(k, data[..i]).value);
      RestInitialized(k, data[i + 1..], next.value, true);
    }
  }

  /** The lines that opening keeps are a prefix of the file and record the state it finds. */
  lemma ReopenRecords<C>(k: Codec<C>, file: seq<byte>, repair: bool)
    requires Reopen(k, file, repair).Ok?
    ensures var (l, whole) := Reopen(k, file, repair).value;
            && whole <= file && NEWLINE !in file[|whole|..] && (!repair ==> whole == file)
            && if whole == [] then l == NoEvents() else Records(k, whole, l)
  {
    hide Replay;
    ReplayCut(k, file, NoEvents(), false);
  }

  // ---- events and writes -----------------------------------------------------------------

  /** The line of an event that applies moves the replayed state by that event. */
  lemma EventLine<C(!new)>(k: Codec<C>, l: Live<C>, e: JournalEvent<C>, initialized: bool)
    requires Faithful(k) && EventFits(e) && |LineOf(k, e)| <= MAX_JOURNAL_EVENT_BYTES
    requires ApplyEvent(l, e).Ok? && (initialized || e.Init?)
    ensures Replay(k, LineOf(k, e), l, initialized) == Ok(Replayed(ApplyEvent(l, e).value, true, []))
  {
    hide ApplyEvent, EventFromWire, EventToWire, EventFits, Replay;
    EventRoundTrip(k, e);
    var line := k.line(EventToWire(k, e));
    var after := ApplyEvent(l, e).value;
    LastLine(k, [], after, true);
    ReplayLine(k, line, [], l, initialized);
    assert line + [NEWLINE] + [] == LineOf(k, e);
  }

  /** Any proper prefix of an event's line is an incomplete tail. */
  lemma TornLine<C(!new)>(k: Codec<C>, l: Live<C>, e: JournalEvent<C>, initialized: bool, n: nat)
    requires Faithful(k) && EventFits(e) && n < |LineOf(k, e)|
    ensures Replay(k, LineOf(k, e)[..n], l, initialized) == Ok(Replayed(l, initialized, LineOf(k, e)[..n]))
  {
    hide EventToWire, EventFits, Replay;
    var line := k.line(EventToWire(k, e));
    assert LineOf(k, e)[..n] == line[..n];
    LastLine(k, line[..n], l, initialized);
  }

  /**
    Crash recovery: whatever prefix of an event's line reached the file, replay
    finds the state before the event, or the state after it when the newline is there.
  */
  lemma CrashRecovers<C(!new)>(k: Codec<C>, data: seq<byte>, l: Live<C>, e: JournalEvent<C>, n: nat)
    requires Faithful(k) && EventFits(e) && |LineOf(k, e)| <= MAX_JOURNAL_EVENT_BYTES
    requires Records(k, data, l) && ApplyEvent(l, e).Ok? && n <= |LineOf(k, e)|
    ensures Replay(k, data + LineOf(k, e)[..n], NoEvents(), false) ==
            Ok(if n == |LineOf(k, e)| then Replayed(ApplyEvent(l, e).value, true, [])
               else Replayed(l, true, LineOf(k, e)[..n]))
  {
    hide Replay, LineOf, ApplyEvent, EventFits;
    ReplayConcat(k, data, LineOf(k, e)[..n], NoEvents(), false);
    if n == |LineOf(k, e)| {
      assert LineOf(k, e)[..n] == LineOf(k, e);
      EventLine(k, l, e, true);
    } else {
      TornLine(k, l, e, true, n);
    }
  }

  // ---- operations and the events they write --------------------------------------------------

  datatype Operation<C> =
    | AppendOp(value: Hash, at: int)
    | CommitCllOp(expectedSize: int, expected: Option<C>, next: CllState<C>)
    | CommitWitnessOp(expectedAttempts: int, row: WitnessState<C>)

  /** The engine's state after an operation, and the event that records it, if it changed anything. */
  datatype Effect<C> = Effect(live: Live<C>, event: Option<JournalEvent<C>>)

  function Perform<C(==)>(l: Live<C>, op: Operation<C>): Result<Effect<C>, Error> {
    match op
    case AppendOp(value, at) =>
      (match AppendResult(l.entries, value, at)
       case Err(e) => Err(e)
       case Ok((entry, Idempotent)) => Ok(Effect(l, None))
       case Ok((entry, Inserted)) =>
         Ok(Effect(l.(entries := AppendEntries(l.entries, value, at)), Some(EntryAppend(entry)))))
    case CommitCllOp(size, expected, next) =>
      (match ApplyCll(l.state, size, expected, next)
       case Err(e) => Err(e)
       case Ok(after) =>
         Ok(Effect(l.(state := after), Some(CllCommit(size, expected, DeltaSince(l.state, after))))))
    case CommitWitnessOp(attempts, row) =>
      (match ApplyWitness(l.state.witnesses, attempts, row)
       case Err(e) => Err(e)
       case Ok(rows) => Ok(Effect(l.(state := l.state.(witnesses := rows)), Some(WitnessCommit(attempts, row)))))
  }

  /** Node lists are shorter than 2^64, and times are ones that a datetime holds. */
  predicate Bounded<C>(v: CllState<C>) {
    |v.nodes| < MAX_DECIMAL && TimesFit(v)
  }

  predicate TimesFit<C>(v: CllState<C>) {
    && (v.firstPendingAt.Some? ==> PortableTime(v.firstPendingAt.value))
    && forall i | 0 <= i < |v.witnesses| :: PortableTime(v.witnesses[i].nextAttemptAt)
  }

  predicate BoundedOp<C>(op: Operation<C>) {
    match op
    case AppendOp(_, at) => PortableTime(at)
    case CommitCllOp(_, _, next) => Bounded(next)
    case CommitWitnessOp(_, row) => PortableTime(row.nextAttemptAt)
  }

  lemma FloorBelow(n: nat)
    ensures LeafFloor(n) <= n
  {
    hide LeafFloor;
  }

  lemma StateFitsWire<C>(v: CllState<C>, nodeCount: nat)
    requires ValidMetadata(v, nodeCount) && nodeCount < MAX_DECIMAL && TimesFit(v)
    ensures StateFits(v)
  {
    hide Complete, LeafFloor, NodeCount, DistinctKeys;
    FloorBelow(nodeCount);
  }

  /** The delta of a commit is itself within the rules for deltas. */
  lemma DeltaFits<C>(l: CllState<C>, size: int, expected: Option<C>, next: CllState<C>)
    requires ValidState(l) && ApplyCll(l, size, expected, next).Ok? && Bounded(next) && TimesFit(l)
    ensures var after := ApplyCll(l, size, expected, next).value;
            && |l.nodes| <= |after.nodes| && 0 <= size < MAX_DECIMAL
            && StateFits(DeltaSince(l, after))
  {
    hide Complete, LeafFloor, NodeCount, DistinctKeys, NewRows, FindRow, RowsKeepCheckpoints, CheckpointMoves,
      ValidRow, StateFits;
    DeltaReproduces(l, size, expected, next);
    AppliedIsProposed(l, size, expected, next);
    var after := ApplyCll(l, size, expected, next).value;
    DeltaTimes(l, next, after);
    StateFitsWire(DeltaSince(l, after), |after.nodes|);
  }

  lemma DeltaTimes<C>(l: CllState<C>, next: CllState<C>, after: CllState<C>)
    requires TimesFit(l) && TimesFit(next) && after.firstPendingAt == next.firstPendingAt
    requires after.witnesses == l.witnesses + NewRows(l.witnesses, next.witnesses)
    ensures TimesFit(after) && TimesFit(DeltaSince(l, after))
  {
    hide NewRows;
    var added := NewRows(l.witnesses, next.witnesses);
    forall i | 0 <= i < |added|
      ensures PortableTime(added[i].nextAttemptAt)
    {
      assert added[i] in added && added[i] in next.witnesses;
    }
    var delta := NewRows(l.witnesses, after.witnesses);
    forall i | 0 <= i < |delta|
      ensures PortableTime(delta[i].nextAttemptAt)
    {
      assert delta[i] in delta && delta[i] in after.witnesses;
    }
  }

  /** Every operation's event fits the wire, and replaying it is performing the operation. */
  lemma EventReplays<C>(l: Live<C>, op: Operation<C>)
    requires ValidState(l.state) && TimesFit(l.state) && BoundedOp(op) && Perform(l, op).Ok?
    ensures var effect := Perform(l, op).value;
            match effect.event
            case None => effect.live == l
            case Some(e) => EventFits(e) && ApplyEvent(l, e) == Ok(effect.live)
  {
    hide ValidState, ApplyCll, ApplyCllDelta, ApplyWitness, StateFits, EntryOf, DeltaSince;
    match op
    case AppendOp(value, at) =>
    case CommitCllOp(size, expected, next) =>
      DeltaReproduces(l.state, size, expected, next);
      DeltaFits(l.state, size, expected, next);
    case CommitWitnessOp(attempts, row) => WitnessFits(l.state.witnesses, attempts, row);
  }

  lemma WitnessFits<C>(rows: seq<WitnessState<C>>, attempts: int, row: WitnessState<C>)
    requires ApplyWitness(rows, attempts, row).Ok? && PortableTime(row.nextAttemptAt)
    ensures 0 <= attempts <= MAX_ATTEMPTS && RowFits(row)
  {
    hide FindRow;
  }

  // ---- the store, with failing writes ----------------------------------------------------------

  /**
    What the disk does to one write: each `write` call's result and the sync, and,
    should it come to that, the truncation and the sync after it.
  */
  datatype Disk = Disk(writes: seq<int>, synced: bool, truncates: bool, settled: bool)

  /** How many of `length` bytes a series of short writes gets out. */
  function Written(length: nat, writes: seq<int>): (n: nat)
    ensures n <= length
  {
    if length == 0 || writes == [] || writes[0] <= 0 then 0
    else if writes[0] >= length then length
    else writes[0] + Written(length - writes[0], writes[1..])
  }

  /** What the writes before the first that fails take in all. */
  function Taken(writes: seq<int>): nat {
    if writes == [] || writes[0] < 1 then 0 else writes[0] + Taken(writes[1..])
  }

  /** Short writes get out as much as they take, and never more than there is. */
  lemma {:induction false} WrittenExact(length: nat, writes: seq<int>)
    ensures Written(length, writes) == if Taken(writes) < length then Taken(writes) else length
    decreases |writes|
  {
    if writes != [] && 0 < writes[0] < length {
      WrittenExact(length - writes[0], writes[1..]);
    }
  }

  datatype Store<C> = Store(data: seq<byte>, live: Live<C>, closed: bool)

  ghost predicate SoundStore<C(!new)>(k: Codec<C>, s: Store<C>) {
    Faithful(k) && ValidState(s.live.state) && Bounded(s.live.state)
  }

  /** The store after writing an event: the event is durable, or undone, or the store is closed. */
  function WriteEvent<C>(
    k: Codec<C>, s: Store<C>, after: Live<C>, e: JournalEvent<C>, disk: Disk): (Store<C>, Result<(), Error>)
    requires EventFits(e)
  {
    var line := LineOf(k, e);
    var n := Written(|line|, disk.writes);
    if |line| > MAX_JOURNAL_EVENT_BYTES then (s, Err(Invalid))
    else if n == |line| && disk.synced then (s.(data := s.data + line, live := after), Ok(()))
    else if disk.truncates && disk.settled then (s, Err(Io))
    else (Store(if disk.truncates then s.data else s.data + line[..n], s.live, true), Err(Corrupt))
  }

  /** `_mutate`: perform, write the event, and undo when the write fails. */
  ghost function Mutate<C(!new)>(k: Codec<C>, s: Store<C>, op: Operation<C>, disk: Disk): (Store<C>, Result<(), Error>)
    requires SoundStore(k, s) && BoundedOp(op)
  {
    if s.closed then (s, Err(Closed))
    else
      match Perform(s.live, op)
      case Err(e) => (s, Err(e))
      case Ok(effect) =>
        EventReplays(s.live, op);
        if effect.event.None? then (s, Ok(())) else WriteEvent(k, s, effect.live, effect.event.value, disk)
  }

  /**
    What replay finds after an operation's line broke off: the state after it
    exactly when every byte was written and none was cut off again.
  */
  ghost predicate BrokeOff<C(!new)>(k: Codec<C>, data: seq<byte>, l: Live<C>, op: Operation<C>, disk: Disk)
    requires ValidState(l.state) && TimesFit(l.state) && BoundedOp(op)
  {
    && Perform(l, op).Ok? && Perform(l, op).value.event.Some?
    && (EventReplays(l, op);
        var effect := Perform(l, op).value;
        var line := LineOf(k, effect.event.value);
        var n := Written(|line|, disk.writes);
        Replay(k, data, NoEvents(), false) ==
        Ok(if disk.truncates then Replayed(l, true, [])
           else if n == |line| then Replayed(effect.live, true, [])
           else Replayed(l, true, line[..n])))
  }

  /** Whether an operation closes an open store: its line could be neither made durable nor undone for certain. */
  ghost predicate Closes<C(!new)>(k: Codec<C>, l: Live<C>, op: Operation<C>, disk: Disk)
    requires ValidState(l.state) && TimesFit(l.state) && BoundedOp(op)
  {
    && Perform(l, op).Ok? && Perform(l, op).value.event.Some?
    && (EventReplays(l, op);
        var line := LineOf(k, Perform(l, op).value.event.value);
        && |line| <= MAX_JOURNAL_EVENT_BYTES
        && !(Written(|line|, disk.writes) == |line| && disk.synced)
        && !(disk.truncates && disk.settled))
  }

  /**
    An open store's file replays to exactly its engine.  A closed one's broke off
    at the one operation whose write could neither be finished nor undone.
  */
  ghost predicate Recoverable<C(!new)>(k: Codec<C>, s: Store<C>) {
    if !s.closed then Records(k, s.data, s.live)
    else
      && ValidState(s.live.state) && TimesFit(s.live.state)
      && exists op, disk :: BoundedOp(op) && BrokeOff(k, s.data, s.live, op, disk)
  }

  lemma PerformKeeps<C>(l: Live<C>, op: Operation<C>)
    requires ValidState(l.state) && Bounded(l.state) && BoundedOp(op) && Perform(l, op).Ok?
    ensures var after := Perform(l, op).value.live.state;
            ValidState(after) && Bounded(after)
  {
    hide Complete, LeafFloor, NodeCount, NewRows, FindRow, EntryOf, ValidRow;
    match op
    case AppendOp(_, _) =>
    case CommitCllOp(size, expected, next) =>
      ApplyKeepsValid(l.state, size, expected, next);
      AppliedIsProposed(l.state, size, expected, next);
      DeltaTimes(l.state, next, ApplyCll(l.state, size, expected, next).value);
    case CommitWitnessOp(_, _) =>
  }

  /**
    When an operation closes a store, and what it leaves: the engine is as before,
    and replay finds the state after the operation if and only if all of its line
    was written and the truncation failed.
  */
  lemma ClosingMutate<C(!new)>(k: Codec<C>, s: Store<C>, op: Operation<C>, disk: Disk)
    requires SoundStore(k, s) && BoundedOp(op) && Records(k, s.data, s.live) && !s.closed
    ensures var t := Mutate(k, s, op, disk).0;
            && (t.closed <==> Closes(k, s.live, op, disk))
            && (t.closed ==> t.live == s.live && BrokeOff(k, t.data, s.live, op, disk))
  {
    hide ValidState, Replay, ApplyEvent, EventFits, LineOf, Perform, Faithful, TimesFit, BoundedOp;
    if Perform(s.live, op).Ok? {
      EventReplays(s.live, op);
      var effect := Perform(s.live, op).value;
      if effect.event.Some? {
        var e := effect.event.value;
        var n := Written(|LineOf(k, e)|, disk.writes);
        if |LineOf(k, e)| <= MAX_JOURNAL_EVENT_BYTES {
          CrashRecovers(k, s.data, s.live, e, n);
        }
      }
    }
  }

  /** Which result an operation has, and when it changes nothing. */
  lemma MutateResult<C(!new)>(k: Codec<C>, s: Store<C>, op: Operation<C>, disk: Disk)
    requires SoundStore(k, s) && BoundedOp(op)
    ensures var (t, r) := Mutate(k, s, op, disk); var done := Perform(s.live, op);
            && (s.closed ==> r == Err(Closed) && t == s)
            && (!s.closed && done.Err? ==> r == Err(done.error) && t == s)
            && (!s.closed && done.Ok? && done.value.event == None ==> r == Ok(()) && t == s)
            && (!s.closed && done.Ok? && done.value.event != None ==>
                  && EventFits(done.value.event.value)
                  && var line := LineOf(k, done.value.event.value);
                     var out := disk.synced && Taken(disk.writes) >= |line|;
                     && (|line| > 4_194_304 ==> r == Err(Invalid) && t == s)
                     && (|line| <= 4_194_304 && out ==>
                           r == Ok(()) && t == Store(s.data + line, done.value.live, false))
                     && (|line| <= 4_194_304 && !out ==>
                           && t.live == s.live
                           && (disk.truncates && disk.settled ==> r == Err(Io) && t == s)
                           && (!(disk.truncates && disk.settled) ==> r == Err(Corrupt) && t.closed)))
  {
    hide ValidState, Replay, ApplyEvent, EventFits, LineOf, Perform, Faithful, TimesFit, BoundedOp;
    if !s.closed && Perform(s.live, op).Ok? {
      EventReplays(s.live, op);
      var e := Perform(s.live, op).value.event;
      if e.Some? {
        WrittenExact(|LineOf(k, e.value)|, disk.writes);
      }
    }
  }

  /** One operation, whatever the disk does, keeps the journal in step with the engine. */
  lemma MutateKeeps<C(!new)>(k: Codec<C>, s: Store<C>, op: Operation<C>, disk: Disk)
    requires SoundStore(k, s) && BoundedOp(op) && Recoverable(k, s)
    ensures var t := Mutate(k, s, op, disk).0;
            SoundStore(k, t) && Recoverable(k, t)
  {
    hide ValidState, Replay, ApplyEvent, EventFits, LineOf, Perform, Faithful, TimesFit, BoundedOp, BrokeOff;
    if !s.closed && Perform(s.live, op).Ok? {
      EventReplays(s.live, op);
      PerformKeeps(s.live, op);
      ClosingMutate(k, s, op, disk);
      var effect := Perform(s.live, op).value;
      if effect.event.Some? {
        var e := effect.event.value;
        var line := LineOf(k, e);
        if |line| <= MAX_JOURNAL_EVENT_BYTES {
          CrashRecovers(k, s.data, s.live, e, |line|);
          assert line[..|line|] == line;
        }
      }
    }
  }

  /** A fresh journal: its first line, once written, records the empty engine. */
  lemma InitRecords<C(!new)>(k: Codec<C>)
    requires Faithful(k) && |LineOf(k, Init)| <= MAX_JOURNAL_EVENT_BYTES
    ensures Records(k, LineOf(k, Init), NoEvents())
  {
    hide Replay, LineOf;
    EventLine(k, NoEvents(), Init, false);
  }

  /** A run of operations on a store, each with its own disk behaviour. */
  ghost function Run<C(!new)>(k: Codec<C>, s: Store<C>, ops: seq<(Operation<C>, Disk)>): (t: Store<C>)
    requires SoundStore(k, s) && Recoverable(k, s) && forall o <- ops :: BoundedOp(o.0)
    ensures SoundStore(k, t) && Recoverable(k, t)
    decreases ops
  {
    hide ValidState, Replay, ApplyEvent, Perform, Faithful, Mutate, Recoverable, BoundedOp;
    if ops == [] then s
    else
      assert ops[0] in ops;
      MutateKeeps(k, s, ops[0].0, ops[0].1);
      Run(k, Mutate(k, s, ops[0].0, ops[0].1).0, ops[1..])
  }

  /** A run that ends closed was closed by one operation, and its file is what that one left. */
  lemma {:induction false} RunClosed<C(!new)>(k: Codec<C>, s: Store<C>, ops: seq<(Operation<C>, Disk)>) returns (i: nat)
    requires SoundStore(k, s) && Recoverable(k, s) && !s.closed && forall o <- ops :: BoundedOp(o.0)
    requires Run(k, s, ops).closed
    ensures i < |ops|
    ensures var before, after := Run(k, s, ops[..i]), Run(k, s, ops);
            && !before.closed && Records(k, before.data, before.live) && after.live == before.live
            && ValidState(before.live.state) && TimesFit(before.live.state) && BoundedOp(ops[i].0)
            && Closes(k, before.live, ops[i].0, ops[i].1)
            && BrokeOff(k, after.data, before.live, ops[i].0, ops[i].1)
    decreases |ops|
  {
    hide ValidState, Replay, Perform, Faithful, BoundedOp, BrokeOff, Mutate, LineOf;
    assert ops[0] in ops;
    var t := Mutate(k, s, ops[0].0, ops[0].1).0;
    MutateKeeps(k, s, ops[0].0, ops[0].1);
    if t.closed {
      i := 0;
      ClosingMutate(k, s, ops[0].0, ops[0].1);
      ClosedStays(k, t, ops[1..]);
      assert ops[..0] == [];
    } else {
      var j := RunClosed(k, t, ops[1..]);
      i := j + 1;
      assert ops[..i][0] == ops[0] && ops[..i][1..] == ops[1..][..j];
    }
  }

  /** Nothing happens to a closed store. */
  lemma {:induction false} ClosedStays<C(!new)>(k: Codec<C>, s: Store<C>, ops: seq<(Operation<C>, Disk)>)
    requires SoundStore(k, s) && Recoverable(k, s) && s.closed && forall o <- ops :: BoundedOp(o.0)
    ensures Run(k, s, ops) == s
    decreases |ops|
  {
    hide ValidState, Replay, Perform, Faithful, BoundedOp, BrokeOff, LineOf, Recoverable, SoundStore;
    if ops != [] {
      assert ops[0] in ops;
      MutateKeeps(k, s, ops[0].0, ops[0].1);
      ClosedStays(k, s, ops[1..]);
    }
  }

  /**
    After any run of operations, failed writes included, the journal of an open
    store replays to exactly the engine; and if the process dies with any prefix
    of the next event's line written, recovery finds the state before that event,
    or after it when its newline is there.
  */
  lemma JournalRefinesEngine<C(!new)>(
    k: Codec<C>, s: Store<C>, ops: seq<(Operation<C>, Disk)>, op: Operation<C>, n: nat)
    requires SoundStore(k, s) && Recoverable(k, s) && BoundedOp(op) && forall o <- ops :: BoundedOp(o.0)
    requires !Run(k, s, ops).closed
    ensures var t := Run(k, s, ops);
            && Records(k, t.data, t.live)
            && (Perform(t.live, op).Ok? && Perform(t.live, op).value.event.Some? ==>
                  var effect := Perform(t.live, op).value;
                  && EventFits(effect.event.value)
                  && var line := LineOf(k, effect.event.value);
                     n <= |line| <= MAX_JOURNAL_EVENT_BYTES ==>
                       Replay(k, t.data + line[..n], NoEvents(), false) ==
                       Ok(if n == |line| then Replayed(effect.live, true, []) else Replayed(t.live, true, line[..n])))
  {
    hide ValidState, Replay, ApplyEvent, EventFits, LineOf, Perform, Run, Faithful, BoundedOp;
    var t := Run(k, s, ops);
    if Perform(t.live, op).Ok? && Perform(t.live, op).value.event.Some? {
      EventReplays(t.live, op);
      var e := Perform(t.live, op).value.event.value;
      if n <= |LineOf(k, e)| <= MAX_JOURNAL_EVENT_BYTES {
        CrashRecovers(k, t.data, t.live, e, n);
      }
    }
  }
}

module Journal {
  import opened Wrappers
  import opened Positions
  import opened Bytes
  import opened Lines
  import opened Digests
  import opened Engine
  import opened Wire
  import opened JournalSpec

  /** A single-writer store: the journal file and the engine it stands for. */
  class JsonlStore<C(==,!new)> {
    const codec: Codec<C>
    const engine: Engine<C>
    var data: seq<byte>
    var closed: bool

    constructor (codec: Codec<C>)
      ensures this.codec == codec && fresh(engine) && engine.Valid()
      ensures engine.entries == [] && engine.state == EmptyState()
      ensures data == [] && !closed
    {
      hide ValidState, Complete, LeafFloor, Indexed, Dense, NodeCount;
      this.codec := codec;
      engine := new Engine();
      data := [];
      closed := false;
    }

    function Now(): Live<C>
      reads engine
    {
      Live(engine.entries, engine.state)
    }

    function Contents(): Store<C>
      reads this, engine
    {
      Store(data, Now(), closed)
    }

    /** Write the bytes of one event, in as many writes as it takes, or undo. */
    method AppendEvent(
      event: JournalEvent<C>, disk: Disk, ghost before: Live<C>, ghost after: Live<C>) returns (r: Result<(), Error>)
      requires EventFits(event) && !closed
      modifies `data, `closed
      ensures var s := WriteEvent(codec, Store(old(data), before, false), after, event, disk);
              r == s.1 && data == s.0.data && closed == s.0.closed
    {
      hide LineOf, EventFits, Written;
      var encoded := LineOf(codec, event);
      if |encoded| > MAX_JOURNAL_EVENT_BYTES {
        return Err(Invalid);
      }
      var start := |data|;
      var complete := WriteAll(encoded, disk.writes);
      assert encoded[..|encoded|] == encoded;
      if complete && disk.synced {
        return Ok(());
      }
      r := Rollback(start, disk.truncates, disk.settled);
      assert disk.truncates ==> data == old(data);
    }

    /** Write until nothing is left or a write fails. */
    method WriteAll(encoded: seq<byte>, writes: seq<int>) returns (complete: bool)
      modifies `data
      ensures data == old(data) + encoded[..Written(|encoded|, writes)]
      ensures complete == (Written(|encoded|, writes) == |encoded|)
    {
      var view := encoded;
      var i := 0;
      while view != [] && i < |writes| && writes[i] > 0
        invariant 0 <= i <= |writes| && |view| <= |encoded| && view == encoded[|encoded| - |view|..]
        invariant data == old(data) + encoded[..|encoded| - |view|]
        invariant Written(|encoded|, writes) == |encoded| - |view| + Written(|view|, writes[i..])
      {
        var written := if writes[i] >= |view| then |view| else writes[i];
        assert encoded[..|encoded| - |view|] + view[..written] == encoded[..|encoded| - |view| + written];
        data := data + view[..written];
        view := view[written..];
        i := i + 1;
      }
      assert Written(|view|, writes[i..]) == 0;
      return view == [];
    }

    /** Cut the file back to the last durable offset and sync it; a store that cannot do both is closed. */
    method Rollback(offset: nat, truncates: bool, settled: bool) returns (r: Result<(), Error>)
      requires offset <= |data|
      modifies `data, `closed
      ensures data == if truncates then old(data)[..offset] else old(data)
      ensures closed == (old(closed) || !truncates || !settled)
      ensures r == if truncates && settled then Err(Io) else Err(Corrupt)
    {
      if truncates {
        data := data[..offset];
        if settled {
          return Err(Io);
        }
      }
      closed := true;
      return Err(Corrupt);
    }

    /** An open store's file replays to its engine; see `Recoverable` for a closed one. */
    ghost predicate Valid()
      reads this, engine
    {
      engine.Valid() && Recoverable(codec, Contents())
    }

    method Append(value: Hash, at: int, disk: Disk) returns (r: Result<(Entry, Outcome), Error>)
      requires Valid() && SoundStore(codec, Contents()) && PortableTime(at)
      modifies `data, `closed, engine
      ensures Valid() && SoundStore(codec, Contents())
      ensures Contents() == Mutate(codec, old(Contents()), AppendOp(value, at), disk).0
      ensures r.Ok? <==> Mutate(codec, old(Contents()), AppendOp(value, at), disk).1.Ok?
      ensures r.Ok? ==> r == AppendResult(old(engine.entries), value, at)
      ensures r.Err? ==> Mutate(codec, old(Contents()), AppendOp(value, at), disk).1 == Err(r.error)
    {
      hide Recoverable, SoundStore, EventFits, ValidState, EntryOf, LineOf, Written;
      ghost var op: Operation<C> := AppendOp(value, at);
      MutateKeeps(codec, Contents(), op, disk);
      if closed {
        return Err(Closed);
      }
      var count, before := |engine.entries|, engine.state;
      ghost var live := Now();
      var result := engine.Append(value, at);
      if result.Err? || result.value.1.Idempotent? {
        return result;
      }
      OperationFits(codec, live, data, op);
      var written := AppendEvent(EntryAppend(result.value.0), disk, live, Now());
      if written.Err? {
        engine.Restore(count, before);
        return Err(written.error);
      }
      return result;
    }

    method CommitCll(
      expectedSize: int, expected: Option<C>, next: CllState<C>, disk: Disk) returns (r: Result<(), Error>)
      requires Valid() && SoundStore(codec, Contents()) && Bounded(next)
      modifies `data, `closed, engine
      ensures Valid() && SoundStore(codec, Contents())
      ensures (Contents(), r) == Mutate(codec, old(Contents()), CommitCllOp(expectedSize, expected, next), disk)
    {
      hide Recoverable, SoundStore, EventFits, ValidState, ApplyCll, DeltaSince, LineOf, Written;
      ghost var op := CommitCllOp(expectedSize, expected, next);
      MutateKeeps(codec, Contents(), op, disk);
      if closed {
        return Err(Closed);
      }
      var count, before := |engine.entries|, engine.state;
      ghost var live := Now();
      var result := engine.CommitCll(expectedSize, expected, next);
      if result.Err? {
        return result;
      }
      OperationFits(codec, live, data, op);
      r := AppendEvent(CllCommit(expectedSize, expected, DeltaSince(before, engine.state)), disk, live, Now());
      if r.Err? {
        assert engine.entries[..count] == engine.entries;
        engine.Restore(count, before);
      }
    }

    method CommitWitness(expectedAttempts: int, row: WitnessState<C>, disk: Disk) returns (r: Result<(), Error>)
      requires Valid() && SoundStore(codec, Contents()) && PortableTime(row.nextAttemptAt)
      modifies `data, `closed, engine
      ensures Valid() && SoundStore(codec, Contents())
      ensures (Contents(), r) == Mutate(codec, old(Contents()), CommitWitnessOp(expectedAttempts, row), disk)
    {
      hide Recoverable, SoundStore, EventFits, ValidState, ApplyWitness, LineOf, Written;
      ghost var op := CommitWitnessOp(expectedAttempts, row);
      MutateKeeps(codec, Contents(), op, disk);
      if closed {
        return Err(Closed);
      }
      var count, before := |engine.entries|, engine.state;
      ghost var live := Now();
      var result := engine.CommitWitness(expectedAttempts, row);
      if result.Err? {
        return result;
      }
      OperationFits(codec, live, data, op);
      r := AppendEvent(WitnessCommit(expectedAttempts, row), disk, live, Now());
      if r.Err? {
        assert engine.entries[..count] == engine.entries;
        engine.Restore(count, before);
      }
    }

    /** Apply one event of the file to the engine. */
    method ReplayEvent(event: JournalEvent<C>) returns (r: Result<(), Error>)
      requires engine.Valid()
      modifies engine
      ensures engine.Valid()
      ensures match ApplyEvent(old(Now()), event)
              case Ok(next) => r.Ok? && Now() == next
              case Err(_) => r == Err(Corrupt)
    {
      hide IsNext, ApplyCllDelta, ApplyWitness, ValidState;
      match event {
        case Init =>
          r := if engine.entries != [] || engine.state.size != 0 then Err(Corrupt) else Ok(());
        case EntryAppend(entry) =>
          r := engine.ReplayEntry(entry);
        case CllCommit(size, expected, delta) =>
          r := engine.CommitCllDelta(size, expected, delta);
        case WitnessCommit(attempts, row) =>
          r := engine.CommitWitness(attempts, row);
      }
      if r.Err? {
        return Err(Corrupt);
      }
    }

    /** Decode and apply one whole line. */
    method ReplayLineText(line: seq<byte>, initialized: bool) returns (r: Result<(), Error>)
      requires engine.Valid()
      modifies engine
      ensures engine.Valid()
      ensures match StepLine(codec, line, old(Now()), initialized)
              case Ok(next) => r.Ok? && Now() == next
              case Err(_) => r == Err(Corrupt)
    {
      hide ApplyEvent, EventOf, ValidState;
      if |line| > MAX_JOURNAL_EVENT_BYTES {
        return Err(Corrupt);
      }
      var event := EventOf(codec, line);
      if event.None? || (!initialized && !event.value.Init?) {
        return Err(Corrupt);
      }
      r := ReplayEvent(event.value);
    }

    /** Replay the whole file; cut off an incomplete tail if `repair` allows. */
    method ReplayAll(repair: bool) returns (r: Result<(), Error>)
      requires engine.Valid() && Now() == NoEvents()
      modifies `data, engine
      ensures engine.Valid()
      ensures match Reopen(codec, old(data), repair)
              case Err(e) => r == Err(e) && data == old(data)
              case Ok((found, whole)) => r.Ok? && Now() == found && data == whole
    {
      hide StepLine, FindNewline, Replay, ValidState;
      var initialized := false;
      var start := 0;
      ghost var expected := Replay(codec, data, NoEvents(), false);
      assert data[0..] == data;
      while true
        invariant 0 <= start <= |data| && data == old(data) && engine.Valid()
        invariant expected == Replay(codec, data[start..], Now(), initialized)
        decreases |data| - start
      {
        var tail := data[start..];
        ReplayCases(codec, tail, Now(), initialized);
        var end := FindNewline(tail);
        if end == |tail| {
          break;
        }
        var applied := ReplayLineText(tail[..end], initialized);
        if applied.Err? {
          return Err(Corrupt);
        }
        assert tail[end + 1..] == data[start + end + 1..];
        initialized := true;
        start := start + end + 1;
      }
      assert expected == Ok(Replayed(Now(), initialized, data[start..]));
      assert data[..|data| - |data[start..]|] == data[..start];
      if start != |data| {
        if !repair {
          return Err(Corrupt);
        }
        data := data[..start];
      }
      return Ok(());
    }
  }

  /** `init` and `open`: replay an existing file, and start an empty one if asked to. */
  method Open<C(==,!new)>(codec: Codec<C>, file: seq<byte>, initialize: bool, disk: Disk)
    returns (r: Result<JsonlStore<C>, Error>)
    requires Faithful(codec)
    ensures r.Ok? ==>
              && Reopen(codec, file, initialize).Ok?
              && var (found, whole) := Reopen(codec, file, initialize).value;
                 var s := r.value;
                 && fresh(s) && fresh(s.engine) && s.codec == codec && !s.closed
                 && s.Valid() && s.Now() == found
                 && s.data == if whole == [] then LineOf(codec, Init) else whole
    ensures Reopen(codec, file, initialize).Ok? && Reopen(codec, file, initialize).value.1 != [] ==> r.Ok?
    ensures file == [] && !initialize ==> r == Err(Corrupt)
    ensures Reopen(codec, file, initialize).Ok? && Reopen(codec, file, initialize).value.1 == [] ==>
              var line := LineOf(codec, Init);
              r.Ok? <==> initialize && |line| <= MAX_JOURNAL_EVENT_BYTES
                         && Written(|line|, disk.writes) == |line| && disk.synced
  {
    hide Replay, LineOf, ValidState, Reopen, Written;
    var store := new JsonlStore(codec);
    store.data := file;
    var replayed := store.ReplayAll(initialize);
    if replayed.Err? {
      return Err(replayed.error);
    }
    ReopenRecords(codec, file, initialize);
    if store.data == [] {
      if !initialize {
        return Err(Corrupt);
      }
      var written := store.AppendEvent(Init, disk, NoEvents(), NoEvents());
      if written.Err? {
        return Err(written.error);
      }
      assert [] + LineOf(codec, Init) == LineOf(codec, Init);
      InitRecords(codec);
    }
    assert Records(codec, store.data, store.Now());
    return Ok(store);
  }

  lemma OperationFits<C(!new)>(k: Codec<C>, l: Live<C>, data: seq<byte>, op: Operation<C>)
    requires SoundStore(k, Store(data, l, false)) && BoundedOp(op) && Perform(l, op).Ok?
    ensures Perform(l, op).value.event.Some? ==> EventFits(Perform(l, op).value.event.value)
  {
    hide EventFits, Perform, ValidState;
    EventReplays(l, op);
  }
}
