// Catching up while other clients act: any steps of theirs, before and during
// every pass, and one reload after contention.

module CatchUpSystem {
  import opened Wrappers
  import opened Positions
  import opened Forest
  import opened Accumulators
  import opened CorePositions
  import opened Engine
  import opened Statements
  import opened RunnerSpec
  import opened WitnessRows
  import opened RunnerSystem

  /**
    Other clients' steps around one pass: before its scan, between its scan and
    its commit, and after it, before a reload if there is one.
  */
  datatype Gap = Gap(before: seq<Event>, during: seq<Event>, after: seq<Event>)

  const NOBODY := Gap([], [], [])

  /** Not a step of runner `r`. */
  predicate Outside(r: nat, e: Event) {
    match e
    case Load(q) => q != r
    case Scan(q) => q != r
    case Commit(q, _) => q != r
    case _ => true
  }

  predicate OutsideGap(r: nat, g: Gap) {
    && (forall e <- g.before :: Outside(r, e))
    && (forall e <- g.during :: Outside(r, e))
    && (forall e <- g.after :: Outside(r, e))
  }

  ghost function RunFrom(c: Config, s: System, events: seq<Event>): System
    decreases |events|
  {
    if events == [] then s else RunFrom(c, Step(c, s, events[0]), events[1..])
  }

  /** Entries and nodes within the limits of the log and of the MMR. */
  ghost predicate WithinLimits(entries: seq<Entry>) {
    NodeCount(|entries|) < MAX_MMR_SIZE && |entries| <= MAX_PORTABLE_INTEGER
  }

  /** Runner `r` caches the stored state, witness rows aside. */
  ghost predicate InStep(s: System, r: nat) {
    && r in s.views && s.views[r].Ready?
    && s.state == s.views[r].state.(witnesses := s.state.witnesses)
  }

  // ---- the loop ----------------------------------------------------------------------

  datatype PassResult = Idle | Done | Contends | Fails

  /** One pass of runner `r`, with other clients' steps around it. */
  ghost function PassIn(c: Config, s: System, r: nat, now: int, g: Gap): (System, PassResult)
    requires r in s.views && s.views[r].Ready? && OutsideGap(r, g)
  {
    var s1 := Step(c, RunFrom(c, s, g.before), Scan(r));
    if r !in s1.views || !s1.views[r].Scanned? then (s1, Fails)
    else
      var s2 := RunFrom(c, s1, g.during);
      CommitIn(c, s2, r, now, s1.views[r].state, s1.views[r].batch)
  }

  ghost function CommitIn(c: Config, s: System, r: nat, now: int, v: State, batch: seq<Entry>): (System, PassResult) {
    match Advance(c, now, v, batch)
    case Err(_) => (s, Fails)
    case Ok(None) => (s, Idle)
    case Ok(Some(next)) =>
      (CommitStep(c, s, r, now, v, batch),
       match ApplyCll(s.state, v.size, CheckpointBytes(v), next)
       case Ok(_) => Done
       case Err(e) => if e == Contention then Contends else Fails)
  }

  datatype Action = Committed | Reloaded

  datatype End = Finished | GaveUp | Broken

  /** How a catch-up went: what it did between its first load and its end. */
  datatype Trace = Trace(system: System, end: End, actions: seq<Action>)

  /** How much a runner has left to do when nobody else acts. */
  ghost function Rank(s: System, r: nat): nat
    requires r in s.views
  {
    2 * Remaining(s.entries, s.views[r].state) + if s.views[r].state.firstPendingAt.Some? then 1 else 0
  }

  /** `_catch_up` from a loaded state; once the gaps are used up nobody else acts. */
  ghost function CatchUp(c: Config, s: System, r: nat, now: int, gaps: seq<Gap>, reloaded: bool): Trace
    requires ValidConfig(c) && Inv(c, s) && InStep(s, r) && forall g <- gaps :: OutsideGap(r, g)
    decreases |gaps|, Rank(s, r), if reloaded then 0 else 1
  {
    hide Inv, Extends, PassIn, Step, WithinLimits, InStep, OutsideGap, Remaining, IsDue;
    var g := if gaps == [] then NOBODY else gaps[0];
    var rest := if gaps == [] then [] else gaps[1..];
    NobodyIsOutside(r);
    InStepReady(s, r);
    PassKeeps(c, s, r, now, g);
    var (t, p) := PassIn(c, s, r, now, g);
    match p
    case Idle => Trace(t, Finished, [])
    case Fails => Trace(t, Broken, [])
    case Done =>
      InStepReady(t, r);
      var later := CatchUp(c, t, r, now, rest, false);
      later.(actions := [Committed] + later.actions)
    case Contends =>
      if reloaded then Trace(t, GaveUp, [])
      else
        var u := ReloadIn(c, t, r, g);
        ReloadKeeps(c, t, r, g);
        if r !in u.views then Trace(u, Broken, [])
        else
          var later := CatchUp(c, u, r, now, rest, true);
          later.(actions := [Reloaded] + later.actions)
  }

  /** Loading again, once others have acted. */
  ghost function ReloadIn(c: Config, s: System, r: nat, g: Gap): System {
    Step(c, RunFrom(c, s, g.after), Load(r))
  }

  // ---- other clients' steps ------------------------------------------------------------

  lemma OutsideKeepsView(c: Config, s: System, r: nat, e: Event)
    requires Outside(r, e) && r in s.views
    ensures r in Step(c, s, e).views && Step(c, s, e).views[r] == s.views[r]
  {
    hide Advance, ApplyCll, ApplyWitness, Loads, PredecessorDone, Verifies, AppendEntries, ScanResult, FindRow;
  }

  lemma {:induction false} OthersKeep(c: Config, s: System, r: nat, events: seq<Event>)
    requires ValidConfig(c) && Inv(c, s) && forall e <- events :: Outside(r, e)
    ensures var t := RunFrom(c, s, events);
            && Inv(c, t) && Extends(s, t)
            && (r in s.views ==> r in t.views && t.views[r] == s.views[r])
    decreases |events|
  {
    hide Inv, Step, RowsEvolve, Outside;
    if events == [] {
      EvolveSelf(s.state.witnesses);
    } else {
      assert events[0] in events;
      var t := Step(c, s, events[0]);
      StepKeeps(c, s, events[0]);
      if r in s.views {
        OutsideKeepsView(c, s, r, events[0]);
      }
      OthersKeep(c, t, r, events[1..]);
      EvolveTransitive(s.state.witnesses, t.state.witnesses, RunFrom(c, s, events).state.witnesses);
    }
  }

  // ---- when a commit goes through ------------------------------------------------------------

  /** No row is for a size above the latest checkpoint's, stored or cached. */
  lemma RowsAreBelow(c: Config, s: System, v: State)
    requires Inv(c, s) && Covers(s.state.witnesses, v.witnesses) && v.checkpoint == s.state.checkpoint
    ensures RowsBelow(v) && RowsBelow(s.state)
  {
    hide TrueState, ValidState, OneChain, ViewOk, TaskOk, FindRow, PredecessorDone, RowOf;
    StoredIsFound(s.state.witnesses);
    forall row | row in v.witnesses || row in s.state.witnesses
      ensures s.state.checkpoint.Some? && row.checkpointSize <= s.state.checkpoint.value.size
    {
      var stored := FindRow(s.state.witnesses, row.Key());
      RowSizes(c, s.entries, s.history, stored.value);
    }
  }

  /** Stale rows in a proposal are all stored for the same checkpoint. */
  lemma StaleRowsFit(stored: seq<Row>, v: State, next: State, c: Config, now: int, current: State)
    requires Proposes(c, now, v, next) && Covers(stored, v.witnesses) && DistinctKeys(stored)
    requires current.witnesses == stored && RowsBelow(current) && current.checkpoint == v.checkpoint
    ensures RowsKeepCheckpoints(stored, next.witnesses)
  {
    hide FindRow, Consistency.Accepts, BagPeaks;
    forall row <- next.witnesses
      ensures var r := FindRow(stored, row.Key()); r.Some? ==> r.value.checkpoint == row.checkpoint
    {
      if row !in v.witnesses {
        assert next.checkpoint != v.checkpoint;
      }
    }
  }

  /** A proposal from the stored state, made with stale rows, is taken. */
  lemma InStepCommits(c: Config, s: System, now: int, v: State, next: State)
    requires ValidConfig(c) && Inv(c, s) && ViewOk(c, s, Ready(v)) && s.state == v.(witnesses := s.state.witnesses)
    requires TrueState(c, s.entries, next) && Proposes(c, now, v, next)
    requires v.nodes <= next.nodes && v.indexedSeq <= next.indexedSeq
    ensures ApplyCll(s.state, v.size, CheckpointBytes(v), next).Ok?
  {
    hide TrueState, OneChain, TaskOk, RowsOk, FindRow, NewRows, RowsKeepCheckpoints, Covers, RowsBelow, Proposes,
      Complete, LeafFloor, ValidRow, DistinctKeys, CheckpointMoves;
    RowsAreBelow(c, s, v);
    ProposalCommits(c, now, s.entries, v, next);
    StaleRowsFit(s.state.witnesses, v, next, c, now, s.state);
  }

  /** Contention means that size or checkpoint differ; otherwise the cached state is the stored one. */
  lemma CommitOrContend(c: Config, s: System, now: int, v: State, batch: seq<Entry>)
    requires ValidConfig(c) && Inv(c, s) && ViewOk(c, s, Scanned(v, batch))
    requires Advance(c, now, v, batch).Ok? && Advance(c, now, v, batch).value.Some?
    ensures var next := Advance(c, now, v, batch).value.value;
            var applied := ApplyCll(s.state, v.size, CheckpointBytes(v), next);
            && (applied.Err? ==> applied == Err(Contention))
            && (s.state == v.(witnesses := s.state.witnesses) ==> applied.Ok?)
            && (applied.Ok? ==> applied.value == next.(witnesses := applied.value.witnesses))
            && next.indexedSeq == v.indexedSeq + |batch|
  {
    hide TrueState, OneChain, TaskOk, RowsOk, Advance, Proposes, Covers, ValidState, NewRows, RowsKeepCheckpoints,
      CheckpointMoves;
    TrueIsDense(c, s.entries, v);
    AdvanceTrue(c, now, s.entries, v, batch);
    var next := Advance(c, now, v, batch).value.value;
    if AsExpected(s.state, v.size, CheckpointBytes(v)) {
      SameState(c, s.entries, s.state, v);
      InStepCommits(c, s, now, v, next);
      AppliedIsProposed(s.state, v.size, CheckpointBytes(v), next);
    }
  }

  /** The scan: what is cached stays cached, and within the limits it cannot fail. */
  lemma ScanIn(c: Config, s: System, r: nat)
    requires ValidConfig(c) && Inv(c, s) && r in s.views && s.views[r].Ready?
    ensures var t := Step(c, s, Scan(r)); var v := s.views[r].state;
            && Inv(c, t) && Extends(s, t) && t.entries == s.entries && t.state == s.state
            && (WithinLimits(s.entries) ==> r in t.views && t.views[r].Scanned?)
            && (r in t.views && t.views[r].Scanned? ==>
                  t.views[r].state == v && ScanResult(s.entries, v.indexedSeq, c.scanLimit) == Ok(t.views[r].batch))
  {
    hide Inv, Extends, NodeCount;
    StepKeeps(c, s, Scan(r));
    ViewDense(c, s, r);
  }

  lemma ViewDense(c: Config, s: System, r: nat)
    requires Inv(c, s) && r in s.views
    ensures ViewOk(c, s, s.views[r])
    ensures 0 <= s.views[r].state.indexedSeq <= |s.entries|
  {
    hide OneChain, TaskOk, RowsOk, Covers, ValidState;
    TrueIsDense(c, s.entries, s.views[r].state);
  }

  /** The commit: in step when done, and contention only if the stored state is not the cached one. */
  lemma CommitInKeeps(c: Config, s: System, r: nat, now: int)
    requires ValidConfig(c) && Inv(c, s) && r in s.views && s.views[r].Scanned?
    ensures var v, batch := s.views[r].state, s.views[r].batch;
            var (t, p) := CommitIn(c, s, r, now, v, batch);
            && Inv(c, t) && Extends(s, t) && t.entries == s.entries
            && (p.Done? ==> InStep(t, r) && Advance(c, now, v, batch) == Ok(Some(t.views[r].state)))
            && (p.Contends? ==> s.state != v.(witnesses := s.state.witnesses))
            && (p.Idle? ==> t == s && Advance(c, now, v, batch) == Ok(None))
            && (WithinLimits(s.entries) ==> !p.Fails?)
  {
    hide Inv, Extends, Advance, ApplyCll, NodeCount;
    var v, batch := s.views[r].state, s.views[r].batch;
    StepKeeps(c, s, Commit(r, now));
    ExtendsSelf(c, s);
    ViewDense(c, s, r);
    if WithinLimits(s.entries) {
      ScannedAdvances(c, s, v, batch, now);
    }
    if Advance(c, now, v, batch).Ok? && Advance(c, now, v, batch).value.Some? {
      CommitOrContend(c, s, now, v, batch);
    }
  }

  lemma ExtendsSelf(c: Config, s: System)
    ensures Extends(s, s)
  {
    hide RowsEvolve;
    EvolveSelf(s.state.witnesses);
  }

  lemma ScannedAdvances(c: Config, s: System, v: State, batch: seq<Entry>, now: int)
    requires ViewOk(c, s, Scanned(v, batch)) && NodeCount(|s.entries|) < MAX_MMR_SIZE
    ensures Advance(c, now, v, batch).Ok?
  {
    hide TrueState, Covers, ValidState, NodeCount, Advance;
    TrueIsDense(c, s.entries, v);
    AdvanceOk(c, now, s.entries, v, batch);
  }

  lemma ExtendsMore(a: System, b: System, d: System)
    requires Extends(a, b) && Extends(b, d)
    ensures Extends(a, d)
  {
    hide RowsEvolve;
    EvolveTransitive(a.state.witnesses, b.state.witnesses, d.state.witnesses);
  }

  lemma LimitsBack(s: System, t: System)
    requires Extends(s, t) && WithinLimits(t.entries)
    ensures WithinLimits(s.entries)
  {
    hide NodeCount, RowsEvolve;
    NodeCountMonotone(|s.entries|, |t.entries|);
  }

  lemma LoadIn(c: Config, s: System, r: nat)
    requires ValidConfig(c) && Inv(c, s)
    ensures var t := Step(c, s, Load(r));
            && Inv(c, t) && Extends(s, t) && t.entries == s.entries && (r in t.views ==> InStep(t, r))
            && (WithinLimits(s.entries) ==> r in t.views)
  {
    hide Inv, Extends, Loads, WithinLimits;
    StepKeeps(c, s, Load(r));
    if WithinLimits(s.entries) {
      StoredLoads(c, s);
    }
  }

  /** What a reload after others' steps finds. */
  lemma ReloadKeeps(c: Config, s: System, r: nat, g: Gap)
    requires ValidConfig(c) && Inv(c, s) && OutsideGap(r, g)
    ensures var t := ReloadIn(c, s, r, g);
            && Inv(c, t) && Extends(s, t) && (r in t.views ==> InStep(t, r))
            && (WithinLimits(t.entries) ==> r in t.views)
  {
    hide Inv, Extends, Step, WithinLimits, InStep;
    OthersKeep(c, s, r, g.after);
    LoadIn(c, RunFrom(c, s, g.after), r);
    ExtendsMore(s, RunFrom(c, s, g.after), ReloadIn(c, s, r, g));
  }

  /** What one pass with others around it keeps and achieves. */
  lemma PassKeeps(c: Config, s: System, r: nat, now: int, g: Gap)
    requires ValidConfig(c) && Inv(c, s) && r in s.views && s.views[r].Ready? && OutsideGap(r, g)
    ensures var (t, p) := PassIn(c, s, r, now, g);
            && Inv(c, t) && Extends(s, t)
            && (p.Done? ==> InStep(t, r))
            && (WithinLimits(t.entries) ==> !p.Fails?)
    ensures g == NOBODY && InStep(s, r)
      ==> PassAlone(c, s, r, now, PassIn(c, s, r, now, g).0, PassIn(c, s, r, now, g).1)
  {
    hide Inv, Extends, Step, WithinLimits, InStep, CommitIn, PassAlone;
    OthersKeep(c, s, r, g.before);
    var s0 := RunFrom(c, s, g.before);
    ScanIn(c, s0, r);
    var s1 := Step(c, s0, Scan(r));
    ExtendsMore(s, s0, s1);
    if r in s1.views && s1.views[r].Scanned? {
      OthersKeep(c, s1, r, g.during);
      var s2 := RunFrom(c, s1, g.during);
      ExtendsMore(s, s1, s2);
      CommitInKeeps(c, s2, r, now);
      var (t, p) := CommitIn(c, s2, r, now, s2.views[r].state, s2.views[r].batch);
      ExtendsMore(s, s2, t);
      if WithinLimits(t.entries) {
        LimitsBack(s2, t);
      }
    }
    if g == NOBODY && InStep(s, r) {
      AloneFacts(c, s, r, now);
    }
  }

  /** A pass while nobody else acts: never contention, and either nothing is left or less is. */
  ghost predicate PassAlone(c: Config, s: System, r: nat, now: int, t: System, p: PassResult)
    requires r in s.views
  {
    && t.entries == s.entries && !p.Contends?
    && (p.Done? ==> r in t.views && Rank(t, r) < Rank(s, r))
    && (p.Idle? ==> Remaining(t.entries, t.state) == 0 && !IsDue(c, now, t.state))
  }

  lemma AloneFacts(c: Config, s: System, r: nat, now: int)
    requires ValidConfig(c) && Inv(c, s) && InStep(s, r)
    ensures OutsideGap(r, NOBODY)
    ensures PassAlone(c, s, r, now, PassIn(c, s, r, now, NOBODY).0, PassIn(c, s, r, now, NOBODY).1)
  {
    hide Inv, Extends, Step, WithinLimits, Advance, Due, CommitIn, Pass, ScanResult, ViewOk;
    ScanIn(c, s, r);
    ViewDense(c, s, r);
    var s1 := Step(c, s, Scan(r));
    assert RunFrom(c, s, []) == s && RunFrom(c, s1, []) == s1;
    if r in s1.views && s1.views[r].Scanned? {
      var v, batch := s1.views[r].state, s1.views[r].batch;
      CommitInKeeps(c, s1, r, now);
      var pass := Pass(c, now, s.entries, v);
      PassIs(c, now, s.entries, v, batch);
      if pass.Ok? {
        PassProgress(c, now, s.entries, v);
        DueNeedsPending(c, now, v);
      }
    }
  }

  lemma PassIs(c: Config, now: int, entries: seq<Entry>, v: State, batch: seq<Entry>)
    requires ScanResult(entries, v.indexedSeq, c.scanLimit) == Ok(batch)
    ensures Pass(c, now, entries, v) == Advance(c, now, v, batch)
  {
    hide Advance;
  }

  // ---- the theorems -----------------------------------------------------------------------------

  /** No two reloads in a row. */
  predicate OneReload(actions: seq<Action>) {
    forall i | 0 <= i < |actions| - 1 :: actions[i] == Reloaded ==> actions[i + 1] == Committed
  }

  lemma OneReloadCons(first: Action, later: seq<Action>)
    requires OneReload(later) && (first == Reloaded && later != [] ==> later[0] == Committed)
    ensures OneReload([first] + later)
  {
    var all := [first] + later;
    forall i | 0 <= i < |all| - 1
      ensures all[i] == Reloaded ==> all[i + 1] == Committed
    {
      if i > 0 {
        assert all[i] == later[i - 1] && all[i + 1] == later[i];
      }
    }
  }

  /** One turn of the loop, from the inside. */
  lemma CatchUpStep(c: Config, s: System, r: nat, now: int, gaps: seq<Gap>, reloaded: bool)
    requires ValidConfig(c) && Inv(c, s) && InStep(s, r) && forall g <- gaps :: OutsideGap(r, g)
    ensures var g := if gaps == [] then NOBODY else gaps[0];
            var rest := if gaps == [] then [] else gaps[1..];
            var (t, p) := PassIn(c, s, r, now, g);
            var trace := CatchUp(c, s, r, now, gaps, reloaded);
            && Inv(c, t) && Extends(s, t)
            && (WithinLimits(t.entries) ==> !p.Fails?)
            && (gaps == [] ==> PassAlone(c, s, r, now, t, p))
            && match p
               case Idle => trace == Trace(t, Finished, [])
               case Fails => trace == Trace(t, Broken, [])
               case Done =>
                 && InStep(t, r)
                 && var later := CatchUp(c, t, r, now, rest, false);
                    trace == later.(actions := [Committed] + later.actions)
               case Contends =>
                 if reloaded then trace == Trace(t, GaveUp, [])
                 else
                   var u := ReloadIn(c, t, r, g);
                   && Inv(c, u) && Extends(t, u)
                   && (WithinLimits(u.entries) ==> r in u.views)
                   && if r !in u.views then trace == Trace(u, Broken, [])
                      else
                        && InStep(u, r)
                        && var later := CatchUp(c, u, r, now, rest, true);
                           trace == later.(actions := [Reloaded] + later.actions)
  {
    hide Inv, Extends, PassIn, PassAlone, WithinLimits, Loads, InStep, OutsideGap;
    NobodyIsOutside(r);
    InStepReady(s, r);
    var g := if gaps == [] then NOBODY else gaps[0];
    PassKeeps(c, s, r, now, g);
    var (t, p) := PassIn(c, s, r, now, g);
    ReloadKeeps(c, t, r, g);
  }

  /** Within the limits the stored state loads. */
  lemma StoredLoads(c: Config, s: System)
    requires Inv(c, s) && WithinLimits(s.entries)
    ensures Loads(c, s.state)
  {
    hide NodeCount, LeafFloor, Nodes, Leaves, ValidState, OneChain, RowsOk, ViewOk, TaskOk, Loads, TrueCheckpoint,
      TrueState;
    TrueIsDense(c, s.entries, s.state);
    TrueSize(c, s.entries, s.state);
    NodeCountMonotone(s.state.indexedSeq, |s.entries|);
    TrueStateLoads(c, s.entries, s.state);
  }

  lemma TrueSize(c: Config, entries: seq<Entry>, v: State)
    requires TrueState(c, entries, v)
    ensures 0 <= v.indexedSeq <= |entries| && v.size == NodeCount(v.indexedSeq)
  {
    hide NodeCount, LeafFloor, Nodes, Leaves, TrueCheckpoint;
    NodesSize(Leaves(entries, v.indexedSeq));
  }

  /**
    Catching up among other clients.  Whatever they do around its passes: it
    reloads at most once between commits; it gives up only on contention right
    after a reload, and only while others still act; within the limits of the
    log it fails in no other way.  When their steps are used up before it ends,
    it finishes with every entry indexed and nothing due.
  */
  lemma {:induction false} CatchUpAmongOthers(c: Config, s: System, r: nat, now: int, gaps: seq<Gap>, reloaded: bool)
    requires ValidConfig(c) && Inv(c, s) && InStep(s, r) && forall g <- gaps :: OutsideGap(r, g)
    ensures var trace := CatchUp(c, s, r, now, gaps, reloaded); var n := |trace.actions|;
            && Inv(c, trace.system) && Extends(s, trace.system)
            && OneReload(trace.actions) && (reloaded && n > 0 ==> trace.actions[0] == Committed)
            && (trace.end == GaveUp ==>
                  n < |gaps| && if n == 0 then reloaded else trace.actions[n - 1] == Reloaded)
            && (WithinLimits(trace.system.entries) ==> trace.end != Broken)
            && (trace.end == Finished && n >= |gaps| ==>
                  Remaining(trace.system.entries, trace.system.state) == 0 && !IsDue(c, now, trace.system.state))
    decreases |gaps|, Rank(s, r), if reloaded then 0 else 1
  {
    hide Inv, Extends, CatchUp, PassIn, Step, WithinLimits, IsDue, Remaining, OneReload, InStep, OutsideGap;
    CatchUpStep(c, s, r, now, gaps, reloaded);
    var g := if gaps == [] then NOBODY else gaps[0];
    var rest := if gaps == [] then [] else gaps[1..];
    NobodyIsOutside(r);
    InStepReady(s, r);
    var (t, p) := PassIn(c, s, r, now, g);
    NoReload();
    match p
    case Idle =>
    case Fails =>
    case Done =>
      InStepReady(t, r);
      CatchUpAmongOthers(c, t, r, now, rest, false);
      var later := CatchUp(c, t, r, now, rest, false);
      OneReloadCons(Committed, later.actions);
      ExtendsMore(s, t, later.system);
    case Contends =>
      if !reloaded {
        var u := ReloadIn(c, t, r, g);
        ExtendsMore(s, t, u);
        if r in u.views {
          InStepReady(u, r);
          CatchUpAmongOthers(c, u, r, now, rest, true);
          var later := CatchUp(c, u, r, now, rest, true);
          OneReloadCons(Reloaded, later.actions);
          ExtendsMore(s, u, later.system);
        }
      }
  }

  /** Caught up: every entry indexed, and fewer and younger ones uncheckpointed than the cadence allows. */
  lemma CaughtUpIsUpToDate(c: Config, s: System, r: nat, now: int, gaps: seq<Gap>)
    requires ValidConfig(c) && Inv(c, s) && InStep(s, r) && forall g <- gaps :: OutsideGap(r, g)
    ensures var trace := CatchUp(c, s, r, now, gaps, false);
            trace.end == Finished && |trace.actions| >= |gaps| ==>
              UpToDate(c, now, trace.system.entries, trace.system.state)
  {
    hide CatchUp, TrueState, OneChain, RowsOk, ViewOk, TaskOk, ValidState, IsDue, Remaining, UpToDate, InStep;
    CatchUpAmongOthers(c, s, r, now, gaps, false);
    var t := CatchUp(c, s, r, now, gaps, false).system;
    if Remaining(t.entries, t.state) == 0 && !IsDue(c, now, t.state) {
      NotDueIsUpToDate(c, now, t.entries, t.state);
    }
  }

  lemma NobodyIsOutside(r: nat)
    ensures OutsideGap(r, NOBODY)
  {
  }

  lemma InStepReady(s: System, r: nat)
    requires InStep(s, r)
    ensures r in s.views && s.views[r].Ready?
  {
  }

  lemma NoReload()
    ensures OneReload([])
  {
  }

  /**
    After every commit the state a runner caches is what a fresh load would
    return, witness rows aside, in any run of any clients.
  */
  lemma CachedIsFresh(c: Config, events: seq<Event>, r: nat, now: int)
    requires ValidConfig(c)
    ensures var s := RunnerSystem.Run(c, events); var t := Step(c, s, Commit(r, now));
            r in s.views && s.views[r].Scanned? && r in t.views ==>
              && InStep(t, r)
              && (WithinLimits(t.entries) ==>
                    var u := Step(c, t, Load(r));
                    && r in u.views && u.views[r] == Ready(t.state)
                    && t.state == t.views[r].state.(witnesses := t.state.witnesses))
  {
    hide Inv, Extends, Advance, ApplyCll, RunnerSystem.Run, WithinLimits, Loads;
    RunKeeps(c, events);
    var s := RunnerSystem.Run(c, events);
    if r in s.views && s.views[r].Scanned? {
      CommitInKeeps(c, s, r, now);
      var (t, p) := CommitIn(c, s, r, now, s.views[r].state, s.views[r].batch);
      StepKeeps(c, s, Commit(r, now));
      if WithinLimits(Step(c, s, Commit(r, now)).entries) {
        StoredLoads(c, Step(c, s, Commit(r, now)));
      }
    }
  }
}
