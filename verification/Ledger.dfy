// The append-only ledger: segment files of record lines, a records index and a
// lookup index derived from them, and the recovery that reconciles all three.

module LedgerSpec {
  import opened Wrappers
  import opened Bytes
  import opened Lines
  import opened Digests

  /** Record lines as text, and the 32-byte id a record is indexed under. */
  datatype Codec<!R> = Codec(dump: R -> seq<byte>, load: seq<byte> -> Option<R>, idOf: R -> Hash)

  ghost predicate Faithful<R(!new)>(k: Codec<R>) {
    && (forall r :: k.load(k.dump(r)) == Some(r))
    && (forall r :: NEWLINE !in k.dump(r))
  }

  datatype Error = Corrupt | Duplicate

  /** A row of the records index; `segment` counts segments in the order they were opened. */
  datatype Row = Row(seqNo: int, id: Hash, segment: nat, offset: nat)

  predicate AllLoad<R>(k: Codec<R>, lines: seq<seq<byte>>) {
    forall i | 0 <= i < |lines| :: k.load(lines[i]).Some?
  }

  function IdOf<R>(k: Codec<R>, line: seq<byte>): Hash
    requires k.load(line).Some?
  {
    k.idOf(k.load(line).value)
  }

  predicate Known(rows: seq<Row>, id: Hash) {
    exists i | 0 <= i < |rows| :: rows[i].id == id
  }

  /** The index after reading some lines of a segment: one row for each id not seen before. */
  function Extend<R>(k: Codec<R>, lines: seq<seq<byte>>, segment: nat, offset: nat, rows: seq<Row>): seq<Row>
    requires AllLoad(k, lines)
    decreases |lines|
  {
    if lines == [] then rows
    else Extend(k, lines[1..], segment, offset + |lines[0]| + 1, AddLine(rows, IdOf(k, lines[0]), segment, offset))
  }

  function AddLine(rows: seq<Row>, id: Hash, segment: nat, offset: nat): seq<Row> {
    if Known(rows, id) then rows else rows + [Row(|rows| + 1, id, segment, offset)]
  }

  /** The index that the segments determine. */
  function Ideal<R>(k: Codec<R>, segments: seq<seq<byte>>): seq<Row>
    requires forall i | 0 <= i < |segments| :: AllLoad(k, Whole(segments[i]))
  {
    if segments == [] then []
    else
      var n := |segments| - 1;
      Extend(k, Whole(segments[n]), n, 0, Ideal(k, segments[..n]))
  }

  // ---- what the ideal index says --------------------------------------------------------

  /** Where line `j` of a segment starts. */
  function OffsetOf(lines: seq<seq<byte>>, j: nat): nat
    requires j <= |lines|
  {
    |Unlines(lines[..j])|
  }

  lemma {:induction false} ExtendConcat<R>(
    k: Codec<R>, a: seq<seq<byte>>, b: seq<seq<byte>>, segment: nat, offset: nat, rows: seq<Row>)
    requires AllLoad(k, a) && AllLoad(k, b)
    ensures AllLoad(k, a + b)
    ensures Extend(k, a + b, segment, offset, rows) ==
            Extend(k, b, segment, offset + |Unlines(a)|, Extend(k, a, segment, offset, rows))
    decreases |a|
  {
    hide AddLine, IdOf;
    if a == [] {
      assert a + b == b;
    } else {
      assert (a + b)[0] == a[0] && (a + b)[1..] == a[1..] + b;
      ExtendConcat(k, a[1..], b, segment, offset + |a[0]| + 1, AddLine(rows, IdOf(k, a[0]), segment, offset));
    }
  }

  /** Rows are only ever added at the end. */
  lemma {:induction false} ExtendKeeps<R>(k: Codec<R>, lines: seq<seq<byte>>, segment: nat, offset: nat, rows: seq<Row>)
    requires AllLoad(k, lines)
    ensures rows <= Extend(k, lines, segment, offset, rows)
    decreases |lines|
  {
    if lines != [] {
      ExtendKeeps(k, lines[1..], segment, offset + |lines[0]| + 1, AddLine(rows, IdOf(k, lines[0]), segment, offset));
    }
  }

  lemma KnownMore(rows: seq<Row>, more: seq<Row>, id: Hash)
    requires Known(rows, id) && rows <= more
    ensures Known(more, id)
  {
    var i :| 0 <= i < |rows| && rows[i].id == id;
    assert more[i].id == id;
  }

  lemma AddLineKnows(rows: seq<Row>, id: Hash, segment: nat, offset: nat)
    ensures rows <= AddLine(rows, id, segment, offset) && Known(AddLine(rows, id, segment, offset), id)
  {
    var more := AddLine(rows, id, segment, offset);
    if !Known(rows, id) {
      assert more[|rows|].id == id;
    }
  }

  /** Every line read is known. */
  lemma {:induction false} ExtendCovers<R>(
    k: Codec<R>, lines: seq<seq<byte>>, segment: nat, offset: nat, rows: seq<Row>, j: nat)
    requires AllLoad(k, lines) && j < |lines|
    ensures Known(Extend(k, lines, segment, offset, rows), IdOf(k, lines[j]))
    decreases |lines|
  {
    hide Known, AddLine, IdOf;
    var next := AddLine(rows, IdOf(k, lines[0]), segment, offset);
    AddLineKnows(rows, IdOf(k, lines[0]), segment, offset);
    if j == 0 {
      ExtendKeeps(k, lines[1..], segment, offset + |lines[0]| + 1, next);
      KnownMore(next, Extend(k, lines, segment, offset, rows), IdOf(k, lines[0]));
    } else {
      ExtendCovers(k, lines[1..], segment, offset + |lines[0]| + 1, next, j - 1);
    }
  }

  /** Lines that are all known add nothing. */
  lemma {:induction false} ExtendKnown<R>(k: Codec<R>, lines: seq<seq<byte>>, segment: nat, offset: nat, rows: seq<Row>)
    requires AllLoad(k, lines) && forall j | 0 <= j < |lines| :: Known(rows, IdOf(k, lines[j]))
    ensures Extend(k, lines, segment, offset, rows) == rows
    decreases |lines|
  {
    hide Known, IdOf;
    if lines != [] {
      ExtendKnown(k, lines[1..], segment, offset + |lines[0]| + 1, rows);
    }
  }

  /** Row `i` of an extension is the first line, of those read, with an id that was not known before. */
  ghost predicate RowIsFirst<R>(
    k: Codec<R>, lines: seq<seq<byte>>, segment: nat, offset: nat, before: seq<Row>, row: Row, j: nat)
    requires AllLoad(k, lines)
  {
    && j < |lines| && row.segment == segment && row.offset == offset + OffsetOf(lines, j)
    && row.id == IdOf(k, lines[j]) && !Known(before, row.id)
    && forall h | 0 <= h < j :: IdOf(k, lines[h]) != row.id
  }

  lemma {:induction false} ExtendRow<R>(
    k: Codec<R>, lines: seq<seq<byte>>, segment: nat, offset: nat, rows: seq<Row>, i: nat)
    returns (j: nat)
    requires AllLoad(k, lines) && |rows| <= i < |Extend(k, lines, segment, offset, rows)|
    ensures var row := Extend(k, lines, segment, offset, rows)[i];
            row.seqNo == i + 1 && RowIsFirst(k, lines, segment, offset, rows, row, j)
    decreases |lines|
  {
    hide IdOf, Known, Unlines;
    var id := IdOf(k, lines[0]);
    var next := AddLine(rows, id, segment, offset);
    AddLineKnows(rows, id, segment, offset);
    var all := Extend(k, lines, segment, offset, rows);
    ExtendKeeps(k, lines[1..], segment, offset + |lines[0]| + 1, next);
    if i < |next| {
      j := 0;
      NothingBefore(lines);
    } else {
      var h := ExtendRow(k, lines[1..], segment, offset + |lines[0]| + 1, next, i);
      j := h + 1;
      OffsetNext(lines, h);
      var row := all[i];
      assert row.id != id;
      if Known(rows, row.id) {
        KnownMore(rows, next, row.id);
      }
      forall g | 0 <= g < j
        ensures IdOf(k, lines[g]) != row.id
      {
        if g > 0 {
          assert lines[g] == lines[1..][g - 1];
        }
      }
    }
  }

  lemma NothingBefore(lines: seq<seq<byte>>)
    ensures OffsetOf(lines, 0) == 0
  {
  }

  lemma OffsetNext(lines: seq<seq<byte>>, h: nat)
    requires lines != [] && h < |lines[1..]|
    ensures OffsetOf(lines, h + 1) == |lines[0]| + 1 + OffsetOf(lines[1..], h)
  {
    assert lines[..h + 1] == [lines[0]] + lines[1..][..h];
    UnlinesCons(lines[0], lines[1..][..h]);
  }

  function LineId<R>(k: Codec<R>, segments: seq<seq<byte>>, g: nat, h: nat): Hash
    requires g < |segments| && h < |Whole(segments[g])| && AllLoad(k, Whole(segments[g]))
  {
    IdOf(k, Whole(segments[g])[h])
  }

  /** No earlier segment has a line with this id. */
  ghost predicate NotBefore<R>(k: Codec<R>, segments: seq<seq<byte>>, segment: nat, id: Hash)
    requires segment <= |segments| && forall i | 0 <= i < |segments| :: AllLoad(k, Whole(segments[i]))
  {
    forall g: nat, h: nat | g < segment && h < |Whole(segments[g])| :: LineId(k, segments, g, h) != id
  }

  lemma {:induction false} IdealCovers<R>(k: Codec<R>, segments: seq<seq<byte>>, g: nat, h: nat)
    requires forall i | 0 <= i < |segments| :: AllLoad(k, Whole(segments[i]))
    requires g < |segments| && h < |Whole(segments[g])|
    ensures Known(Ideal(k, segments), IdOf(k, Whole(segments[g])[h]))
  {
    hide Known, IdOf, Whole, Extend;
    var n := |segments| - 1;
    var before := Ideal(k, segments[..n]);
    if g == n {
      ExtendCovers(k, Whole(segments[n]), n, 0, before, h);
    } else {
      IdealCovers(k, segments[..n], g, h);
      ExtendKeeps(k, Whole(segments[n]), n, 0, before);
      KnownMore(before, Ideal(k, segments), IdOf(k, Whole(segments[g])[h]));
    }
  }

  /**
    The ideal index: seqs run from 1, and each row is the first line in segment
    order with its id, at its true offset.  `IdealCovers` adds that no id is missing.
  */
  lemma {:induction false} IdealRow<R>(k: Codec<R>, segments: seq<seq<byte>>, i: nat) returns (j: nat)
    requires forall g | 0 <= g < |segments| :: AllLoad(k, Whole(segments[g]))
    requires i < |Ideal(k, segments)|
    ensures var row := Ideal(k, segments)[i];
            && row.seqNo == i + 1 && row.segment < |segments|
            && var lines := Whole(segments[row.segment]);
               && j < |lines| && row.offset == OffsetOf(lines, j) && row.id == IdOf(k, lines[j])
               && (forall h | 0 <= h < j :: IdOf(k, lines[h]) != row.id)
               && NotBefore(k, segments, row.segment, row.id)
    decreases |segments|
  {
    hide Known, IdOf, Whole, Extend;
    var n := |segments| - 1;
    var before := Ideal(k, segments[..n]);
    ExtendKeeps(k, Whole(segments[n]), n, 0, before);
    if i < |before| {
      j := IdealRow(k, segments[..n], i);
      var row := Ideal(k, segments)[i];
      forall g: nat, h: nat | g < row.segment && h < |Whole(segments[g])|
        ensures LineId(k, segments, g, h) != row.id
      {
        assert LineId(k, segments[..n], g, h) != row.id;
      }
    } else {
      j := ExtendRow(k, Whole(segments[n]), n, 0, before, i);
      var row := Ideal(k, segments)[i];
      forall g: nat, h: nat | g < n && h < |Whole(segments[g])|
        ensures LineId(k, segments, g, h) != row.id
      {
        IdealCovers(k, segments[..n], g, h);
      }
    }
  }

  // ---- the lookup index ------------------------------------------------------------------

  predicate HasSeq(lookup: seq<Row>, seqNo: int) {
    exists i | 0 <= i < |lookup| :: lookup[i].seqNo == seqNo
  }

  /** Rows of the records index, each at most once, perhaps not all. */
  ghost predicate Partial(lookup: seq<Row>, rows: seq<Row>) {
    && (forall r <- lookup :: r in rows)
    && (forall i, j | 0 <= i < j < |lookup| :: lookup[i].seqNo != lookup[j].seqNo)
  }

  ghost predicate Full(lookup: seq<Row>, rows: seq<Row>) {
    Partial(lookup, rows) && forall r <- rows :: r in lookup
  }

  /** The lookup index after adding the rows it lacks, in order. */
  function Fill(lookup: seq<Row>, rows: seq<Row>): (r: seq<Row>)
    ensures lookup <= r
    decreases |rows|
  {
    if rows == [] then lookup
    else Fill(if HasSeq(lookup, rows[0].seqNo) then lookup else lookup + [rows[0]], rows[1..])
  }

  /** Seqs run from 1 without a gap. */
  predicate Numbered(rows: seq<Row>) {
    forall i | 0 <= i < |rows| :: rows[i].seqNo == i + 1
  }

  /** Filling keeps what is there and adds every missing row once. */
  lemma {:induction false} FillIsFull(lookup: seq<Row>, rows: seq<Row>, n: nat)
    requires Numbered(rows) && n <= |rows| && Partial(lookup, rows) && forall i | 0 <= i < n :: rows[i] in lookup
    ensures Full(Fill(lookup, rows[n..]), rows)
    decreases |rows| - n
  {
    if n < |rows| {
      var row := rows[n];
      var next := if HasSeq(lookup, row.seqNo) then lookup else lookup + [row];
      assert rows[n..][1..] == rows[n + 1..];
      if HasSeq(lookup, row.seqNo) {
        var i :| 0 <= i < |lookup| && lookup[i].seqNo == row.seqNo;
        assert lookup[i] in rows;
      } else {
        PartialMore(lookup, rows, row);
      }
      FillIsFull(next, rows, n + 1);
    }
  }

  lemma PartialMore(lookup: seq<Row>, rows: seq<Row>, row: Row)
    requires Partial(lookup, rows) && row in rows && !HasSeq(lookup, row.seqNo)
    ensures Partial(lookup + [row], rows)
  {
  }

  lemma {:induction false} FillFull(lookup: seq<Row>, rows: seq<Row>)
    requires forall r <- rows :: r in lookup
    ensures Fill(lookup, rows) == lookup
    decreases |rows|
  {
    if rows != [] {
      assert rows[0] in rows && HasSeq(lookup, rows[0].seqNo);
      FillFull(lookup, rows[1..]);
    }
  }

  lemma {:induction false} FillConcat(lookup: seq<Row>, a: seq<Row>, b: seq<Row>)
    ensures Fill(lookup, a + b) == Fill(Fill(lookup, a), b)
    decreases |a|
  {
    hide HasSeq;
    if a == [] {
      assert a + b == b;
    } else {
      assert (a + b)[0] == a[0] && (a + b)[1..] == a[1..] + b;
      FillConcat(if HasSeq(lookup, a[0].seqNo) then lookup else lookup + [a[0]], a[1..], b);
    }
  }

  /** As many lookup rows as index rows are all of them. */
  lemma SameCount(lookup: seq<Row>, rows: seq<Row>)
    requires Numbered(rows) && Partial(lookup, rows) && |lookup| == |rows|
    ensures Full(lookup, rows)
  {
    var have := SeqSet(lookup);
    var want := SeqSet(rows);
    SeqSetSize(lookup);
    SeqSetSize(rows);
    forall n <- have
      ensures n in want
    {
      var i :| 0 <= i < |lookup| && lookup[i].seqNo == n;
      assert lookup[i] in rows;
    }
    Subset(have, want);
    forall r <- rows
      ensures r in lookup
    {
      assert r.seqNo in want;
      var i :| 0 <= i < |lookup| && lookup[i].seqNo == r.seqNo;
      assert lookup[i] in rows;
    }
  }

  function SeqSet(rows: seq<Row>): (s: set<int>)
    ensures forall n :: n in s <==> exists i | 0 <= i < |rows| :: rows[i].seqNo == n
  {
    set i | 0 <= i < |rows| :: rows[i].seqNo
  }

  lemma {:induction false} SeqSetSize(rows: seq<Row>)
    requires forall i, j | 0 <= i < j < |rows| :: rows[i].seqNo != rows[j].seqNo
    ensures |SeqSet(rows)| == |rows|
  {
    if rows != [] {
      var rest := rows[..|rows| - 1];
      SeqSetSize(rest);
      assert SeqSet(rows) == SeqSet(rest) + {rows[|rows| - 1].seqNo};
    }
  }

  lemma Subset(a: set<int>, b: set<int>)
    requires a <= b && |a| == |b|
    ensures a == b
  {
    assert b == a + (b - a);
  }

  /** A complete lookup index has as many rows as the records index. */
  lemma FullCount(lookup: seq<Row>, rows: seq<Row>)
    requires Numbered(rows) && Full(lookup, rows)
    ensures |lookup| == |rows|
  {
    SeqSetSize(lookup);
    SeqSetSize(rows);
    forall n <- SeqSet(lookup)
      ensures n in SeqSet(rows)
    {
      var i :| 0 <= i < |lookup| && lookup[i].seqNo == n;
      assert lookup[i] in rows;
    }
    forall n <- SeqSet(rows)
      ensures n in SeqSet(lookup)
    {
      var i :| 0 <= i < |rows| && rows[i].seqNo == n;
      assert rows[i] in lookup;
    }
    assert SeqSet(lookup) == SeqSet(rows);
  }

  lemma PartialGrows(lookup: seq<Row>, rows: seq<Row>, more: seq<Row>)
    requires Partial(lookup, rows) && rows <= more
    ensures Partial(lookup, more)
  {
  }

  // ---- the store and its recovery ------------------------------------------------------------

  /** The last segment is the active one; `lookupLive` says that this process still writes the lookup index. */
  datatype Store = Store(
    segments: seq<seq<byte>>, rows: seq<Row>, lookup: seq<Row>, lookupLive: bool, needsRecover: bool)

  ghost predicate Loadable<R>(k: Codec<R>, segments: seq<seq<byte>>) {
    forall i | 0 <= i < |segments| :: AllLoad(k, Whole(segments[i]))
  }

  ghost predicate ClosedWhole(segments: seq<seq<byte>>) {
    segments != [] && forall i | 0 <= i < |segments| - 1 :: Torn(segments[i]) == []
  }

  /** The records index has the first `done` lines of the active segment. */
  ghost predicate IndexedTo<R>(k: Codec<R>, s: Store, done: nat)
    requires Loadable(k, s.segments) && s.segments != []
  {
    var n := |s.segments| - 1;
    var lines := Whole(s.segments[n]);
    && done <= |lines|
    && s.rows == Extend(k, lines[..done], n, 0, Ideal(k, s.segments[..n]))
  }

  /** What a crash may leave: a torn tail, lines without rows, rows missing from the lookup index. */
  ghost predicate Recoverable<R>(k: Codec<R>, s: Store) {
    && ClosedWhole(s.segments) && Loadable(k, s.segments)
    && (exists done: nat :: IndexedTo(k, s, done))
    && Partial(s.lookup, s.rows)
  }

  /** Files and indexes agree. */
  ghost predicate InSync<R>(k: Codec<R>, s: Store) {
    && ClosedWhole(s.segments) && Torn(s.segments[|s.segments| - 1]) == [] && Loadable(k, s.segments)
    && s.rows == Ideal(k, s.segments)
    && Partial(s.lookup, s.rows) && (s.lookupLive ==> Full(s.lookup, s.rows))
  }

  /** The largest offset the index names in a segment. */
  function MaxOffset(rows: seq<Row>, segment: nat): Option<nat> {
    if rows == [] then None
    else
      var row := rows[|rows| - 1];
      var rest := MaxOffset(rows[..|rows| - 1], segment);
      if row.segment == segment && (rest.None? || row.offset >= rest.value) then Some(row.offset) else rest
  }

  /** Where the unindexed part of the active segment starts; `None` when an indexed line is not there in full. */
  function TailStart(active: seq<byte>, last: Option<nat>): (start: Option<nat>)
    ensures start.Some? ==> start.value <= |active|
  {
    if last.None? then Some(0)
    else if last.value >= |active| then None
    else
      var line := FindNewline(active[last.value..]);
      if line == |active| - last.value then None else Some(last.value + line + 1)
  }

  /**
    How the lookup index answers during one recovery: whether it can be read,
    and how many rows it takes before a write fails.
  */
  datatype LookupDisk = LookupDisk(readable: bool, writes: nat)

  /** Completing the lookup index; it is dropped when it cannot be read and at the first write that fails. */
  function LookedUp(s: Store, disk: LookupDisk): (t: Store)
    ensures s.lookup <= t.lookup
  {
    var full := Fill(s.lookup, s.rows);
    if !s.lookupLive then s
    else if !disk.readable then s.(lookupLive := false)
    else if |full| <= |s.lookup| + disk.writes then s.(lookup := full)
    else s.(lookup := full[..|s.lookup| + disk.writes], lookupLive := false)
  }

  /**
    What a recovery reports: bytes cut off, seqs added to the records index, offsets of lines passed
    over, seqs the lookup index lacked.
  */
  datatype RecoveryReport = RecoveryReport(
    truncatedBytes: nat, indexedSeqs: seq<int>, skippedOffsets: seq<nat>, lookupSeqs: seq<int>)

  function Seqs(rows: seq<Row>): (r: seq<int>)
    ensures |r| == |rows|
  {
    seq(|rows|, i requires 0 <= i < |rows| => rows[i].seqNo)
  }

  /** How many lines come before the first that is no record. */
  function Good<R>(k: Codec<R>, lines: seq<seq<byte>>): (n: nat)
    ensures n <= |lines| && AllLoad(k, lines[..n])
    ensures n < |lines| ==> k.load(lines[n]).None?
  {
    if lines == [] || k.load(lines[0]).None? then 0
    else
      var n := Good(k, lines[1..]);
      assert forall i | 1 <= i < n + 1 :: lines[i] == lines[1..][..n][i - 1];
      1 + n
  }

  /** Offsets of the lines that `Extend` reads without adding a row. */
  function Skipped<R>(k: Codec<R>, lines: seq<seq<byte>>, segment: nat, offset: nat, rows: seq<Row>): seq<nat>
    requires AllLoad(k, lines)
    decreases |lines|
  {
    if lines == [] then []
    else
      var id := IdOf(k, lines[0]);
      (if Known(rows, id) then [offset] else [])
      + Skipped(k, lines[1..], segment, offset + |lines[0]| + 1, AddLine(rows, id, segment, offset))
  }

  /**
    `recover`: index the whole lines after the last indexed one, cut off a torn
    tail, complete the lookup index.  A line that is no record stops it, with
    the rows of the lines before it kept and nothing cut off.
  */
  function Recovered<R>(k: Codec<R>, s: Store, disk: LookupDisk): (Store, Result<RecoveryReport, Error>)
    requires s.segments != []
  {
    var n := |s.segments| - 1;
    var active := s.segments[n];
    match TailStart(active, MaxOffset(s.rows, n))
    case None => (s.(needsRecover := true), Err(Corrupt))
    case Some(start) =>
      var tail := active[start..];
      var lines := Whole(tail);
      var good := Good(k, lines);
      var rows := Extend(k, lines[..good], n, start, s.rows);
      ExtendKeeps(k, lines[..good], n, start, s.rows);
      var t := LookedUp(s.(rows := rows, needsRecover := true), disk);
      if good < |lines| then (t, Err(Corrupt))
      else
        var kept := if |Torn(tail)| <= |active| then active[..|active| - |Torn(tail)|] else [];
        var skipped := Skipped(k, lines[..good], n, start, s.rows);
        var looked := LookedUp(s, disk).lookup[|s.lookup|..];
        (t.(segments := s.segments[..n] + [kept], needsRecover := false),
         Ok(RecoveryReport(|Torn(tail)|, Seqs(rows[|s.rows|..]), skipped, Seqs(looked))))
  }

  // ---- what recovery achieves ----------------------------------------------------------------

  lemma {:induction false} MaxOffsetOf(rows: seq<Row>, segment: nat)
    ensures var m := MaxOffset(rows, segment);
            && (m.Some? <==> exists i | 0 <= i < |rows| :: rows[i].segment == segment)
            && (m.Some? ==> exists i | 0 <= i < |rows| :: rows[i].segment == segment && rows[i].offset == m.value)
            && (m.Some? ==> forall i | 0 <= i < |rows| && rows[i].segment == segment :: rows[i].offset <= m.value)
  {
    if rows != [] {
      var rest := rows[..|rows| - 1];
      MaxOffsetOf(rest, segment);
      assert rows == rest + [rows[|rows| - 1]];
    }
  }

  lemma {:induction false} IdealSegments<R>(k: Codec<R>, segments: seq<seq<byte>>)
    requires Loadable(k, segments)
    ensures forall i | 0 <= i < |Ideal(k, segments)| ::
              Ideal(k, segments)[i].segment < |segments| && Ideal(k, segments)[i].seqNo == i + 1
  {
    forall i: nat | i < |Ideal(k, segments)|
      ensures Ideal(k, segments)[i].segment < |segments| && Ideal(k, segments)[i].seqNo == i + 1
    {
      var j := IdealRow(k, segments, i);
    }
  }

  /** Lines from the last indexed one on are known as far as the index goes: reading on from there reads the rest. */
  lemma ReadOn<R>(k: Codec<R>, lines: seq<seq<byte>>, n: nat, base: seq<Row>, done: nat, from: nat)
    requires AllLoad(k, lines) && from <= done <= |lines|
    ensures AllLoad(k, lines[..done]) && AllLoad(k, lines[from..])
    ensures Extend(k, lines[from..], n, OffsetOf(lines, from), Extend(k, lines[..done], n, 0, base)) ==
            Extend(k, lines, n, 0, base)
  {
    hide Extend, Known, IdOf, Unlines;
    var rows := Extend(k, lines[..done], n, 0, base);
    var again, rest := lines[from..done], lines[done..];
    assert lines[from..] == again + rest && lines == lines[..done] + rest && lines[..done] == lines[..from] + again;
    UnlinesConcat(lines[..from], again);
    forall j | 0 <= j < |again|
      ensures Known(rows, IdOf(k, again[j]))
    {
      ExtendCovers(k, lines[..done], n, 0, base, from + j);
    }
    ExtendKnown(k, again, n, OffsetOf(lines, from), rows);
    ExtendConcat(k, again, rest, n, OffsetOf(lines, from), rows);
    ExtendConcat(k, lines[..done], rest, n, 0, base);
  }

  /** Splitting a file after line `from`. */
  lemma TailOfFile(data: seq<byte>, from: nat)
    requires from <= |Whole(data)|
    ensures var start := OffsetOf(Whole(data), from);
            && start <= |data|
            && Whole(data[start..]) == Whole(data)[from..] && Torn(data[start..]) == Torn(data)
            && (from < |Whole(data)| ==>
                  && start < |data| && FindNewline(data[start..]) == |Whole(data)[from]| < |data| - start
                  && OffsetOf(Whole(data), from + 1) == start + |Whole(data)[from]| + 1)
  {
    hide Whole, Torn, Unlines, FindNewline;
    var lines, tail := Whole(data), Torn(data);
    FileIsLines(data);
    UnlinesConcat(lines[..from], lines[from..]);
    assert lines == lines[..from] + lines[from..];
    var start := OffsetOf(lines, from);
    assert data[start..] == Unlines(lines[from..]) + tail;
    LinesOfFile(lines[from..], tail);
    if from < |lines| {
      var line, rest := lines[from], Unlines(lines[from + 1..]);
      assert lines[from..] == [line] + lines[from + 1..];
      UnlinesCons(line, lines[from + 1..]);
      assert data[start..] == line + [NEWLINE] + (rest + tail);
      assert data[start..][..|line|] == line;
      NewlineAt(data[start..], |line|);
      assert lines[..from + 1] == lines[..from] + [line];
      UnlinesConcat(lines[..from], [line]);
      UnlinesCons(line, []);
      assert [line] + [] == [line];
      NoUnlines();
    }
  }

  /** The last line the index names is one of the lines it was built from. */
  lemma LastIndexed<R>(k: Codec<R>, s: Store, done: nat) returns (from: nat)
    requires ClosedWhole(s.segments) && Loadable(k, s.segments) && IndexedTo(k, s, done)
    ensures var n := |s.segments| - 1; var lines := Whole(s.segments[n]);
            from <= done && TailStart(s.segments[n], MaxOffset(s.rows, n)) == Some(OffsetOf(lines, from))
  {
    hide Whole, Torn, Extend, Ideal, FindNewline, Unlines;
    var n := |s.segments| - 1;
    var active := s.segments[n];
    var lines := Whole(active);
    var base := Ideal(k, s.segments[..n]);
    IdealSegments(k, s.segments[..n]);
    ExtendKeeps(k, lines[..done], n, 0, base);
    MaxOffsetOf(s.rows, n);
    var last := MaxOffset(s.rows, n);
    if last.None? {
      from := 0;
      NothingBefore(lines);
    } else {
      var i :| 0 <= i < |s.rows| && s.rows[i].segment == n && s.rows[i].offset == last.value;
      var j := ExtendRow(k, lines[..done], n, 0, base, i);
      assert lines[..done][..j] == lines[..j];
      TailOfFile(active, j);
      from := j + 1;
    }
  }

  /** The segments without a torn tail. */
  function Cut(segments: seq<seq<byte>>): seq<seq<byte>>
    requires segments != []
  {
    segments[..|segments| - 1] + [Unlines(Whole(segments[|segments| - 1]))]
  }

  lemma CutIsWhole<R>(k: Codec<R>, segments: seq<seq<byte>>)
    requires ClosedWhole(segments) && Loadable(k, segments)
    ensures var t := Cut(segments); var n := |segments| - 1;
            && |t| == |segments| && ClosedWhole(t) && Torn(t[n]) == [] && Loadable(k, t)
            && t[..n] == segments[..n] && Whole(t[n]) == Whole(segments[n])
            && |Torn(segments[n])| <= |segments[n]|
            && t[n] == segments[n][..|segments[n]| - |Torn(segments[n])|]
  {
    hide Whole, Torn, Unlines, AllLoad;
    var n := |segments| - 1;
    FileIsLines(segments[n]);
    var lines := Whole(segments[n]);
    LinesOfFile(lines, []);
    assert Unlines(lines) + [] == Unlines(lines);
  }

  /** Where reading starts: after the line at the largest offset the index names in the segment, if it is all there. */
  lemma TailStartExact(active: seq<byte>, rows: seq<Row>, n: nat)
    ensures var start := TailStart(active, MaxOffset(rows, n));
            && ((forall i :: 0 <= i < |rows| ==> rows[i].segment != n) ==> start == Some(0))
            && forall i :: 0 <= i < |rows| && LargestIn(rows, n, i) ==>
                             var o := rows[i].offset;
                             && (start == None <==> o >= |active| || NEWLINE !in active[o..])
                             && (start != None ==>
                                   && o < start.value <= |active| && active[start.value - 1] == NEWLINE
                                   && NEWLINE !in active[o..start.value - 1])
  {
    hide FindNewline;
    MaxOffsetOf(rows, n);
    var last := MaxOffset(rows, n);
    if last.Some? && last.value < |active| {
      var line := active[last.value..];
      SplitLine(line);
      var end := FindNewline(line);
      if end < |line| {
        assert line[end] == NEWLINE && line[..end] == active[last.value..last.value + end];
      } else {
        assert line[..end] == line;
      }
    }
  }

  ghost predicate LargestIn(rows: seq<Row>, segment: nat, i: nat)
    requires i < |rows|
  {
    rows[i].segment == segment
    && forall j :: 0 <= j < |rows| && rows[j].segment == segment ==> rows[j].offset <= rows[i].offset
  }

  /**
    When recovery refuses: an indexed line is not there in full, or a line after
    them is no record.  Then nothing is cut off, no row is lost, and appends stay
    refused.
  */
  lemma RecoverRefuses<R>(k: Codec<R>, s: Store, disk: LookupDisk)
    requires s.segments != []
    ensures var (t, r) := Recovered(k, s, disk);
            var n := |s.segments| - 1;
            var start := TailStart(s.segments[n], MaxOffset(s.rows, n));
            && (r.Err? <==>
                  || start == None
                  || exists i :: 0 <= i < |Whole(s.segments[n][start.value..])|
                                 && k.load(Whole(s.segments[n][start.value..])[i]) == None)
            && (r.Err? ==> r.error == Corrupt && t.segments == s.segments)
            && s.rows <= t.rows && (t.needsRecover <==> r.Err?)
  {
    hide Whole, Torn, Extend, TailStart, MaxOffset, Skipped, Fill;
    var n := |s.segments| - 1;
    var start := TailStart(s.segments[n], MaxOffset(s.rows, n));
    if start.Some? {
      var lines := Whole(s.segments[n][start.value..]);
      var good := Good(k, lines);
      ExtendKeeps(k, lines[..good], n, start.value, s.rows);
      forall i | 0 <= i < good
        ensures k.load(lines[i]).Some?
      {
        assert lines[..good][i] == lines[i];
      }
    }
  }

  /** Where recovery starts to read, and what it reads. */
  lemma TailRead<R>(k: Codec<R>, s: Store) returns (start: nat)
    requires Recoverable(k, s)
    ensures Loadable(k, Cut(s.segments))
    ensures var n := |s.segments| - 1; var active := s.segments[n]; var torn := Torn(active);
            && TailStart(active, MaxOffset(s.rows, n)) == Some(start)
            && start <= |active| && Torn(active[start..]) == torn && |torn| <= |active|
            && Cut(s.segments) == s.segments[..n] + [active[..|active| - |torn|]]
            && var lines := Whole(active[start..]);
               AllLoad(k, lines) && Extend(k, lines, n, start, s.rows) == Ideal(k, Cut(s.segments))
  {
    hide Whole, Torn, Extend, FindNewline, Unlines, TailStart, MaxOffset, Partial, OffsetOf, Cut;
    var n := |s.segments| - 1;
    var active := s.segments[n];
    var lines := Whole(active);
    var done: nat :| IndexedTo(k, s, done);
    var from := LastIndexed(k, s, done);
    TailOfFile(active, from);
    ReadOn(k, lines, n, Ideal(k, s.segments[..n]), done, from);
    CutIsWhole(k, s.segments);
    start := OffsetOf(lines, from);
    assert Cut(s.segments) == s.segments[..n] + [active[..|active| - |Torn(active)|]];
  }

  lemma GoodAll<R>(k: Codec<R>, lines: seq<seq<byte>>)
    requires AllLoad(k, lines)
    ensures Good(k, lines) == |lines| && lines[..Good(k, lines)] == lines
  {
  }

  /** What recovery computes, in terms of the segments alone. */
  lemma RecoveredIs<R>(k: Codec<R>, s: Store, disk: LookupDisk)
    requires Recoverable(k, s)
    ensures Loadable(k, Cut(s.segments)) && s.rows <= Ideal(k, Cut(s.segments))
    ensures var rows := Ideal(k, Cut(s.segments)); var (t, r) := Recovered(k, s, disk);
            && t == LookedUp(s.(segments := Cut(s.segments), rows := rows, needsRecover := false), disk)
            && r.Ok? && r.value.truncatedBytes == |Torn(s.segments[|s.segments| - 1])|
            && r.value.indexedSeqs == Seqs(rows[|s.rows|..])
            && r.value.lookupSeqs == Seqs(LookedUp(s, disk).lookup[|s.lookup|..])
  {
    hide Whole, Torn, Extend, TailStart, MaxOffset, Fill, Cut, Seqs, Skipped, Good, Ideal, Loadable, AllLoad;
    var start := TailRead(k, s);
    var n := |s.segments| - 1;
    var lines := Whole(s.segments[n][start..]);
    GoodAll(k, lines);
    ExtendKeeps(k, lines, n, start, s.rows);
  }

  /** However the lookup index answers, its rows stay rows of the records index, and it is complete if still in use. */
  lemma LookedUpKeeps(s: Store, disk: LookupDisk)
    requires Numbered(s.rows) && Partial(s.lookup, s.rows)
    ensures var t := LookedUp(s, disk); Partial(t.lookup, t.rows) && (t.lookupLive ==> Full(t.lookup, t.rows))
  {
    hide Fill;
    FillIsFull(s.lookup, s.rows, 0);
    assert s.rows[0..] == s.rows;
  }

  /**
    Recovery: from anything a crash may leave, and however the lookup index
    fares, it succeeds; the torn tail is gone and nothing else, and the indexes
    are exactly those of the segments.
  */
  lemma RecoverReconciles<R>(k: Codec<R>, s: Store, disk: LookupDisk)
    requires Recoverable(k, s)
    ensures var (t, r) := Recovered(k, s, disk);
            && r.Ok? && InSync(k, t) && !t.needsRecover && t.segments == Cut(s.segments) && s.rows <= t.rows
            && (t.lookupLive <==> s.lookupLive && disk.readable && |t.rows| <= |s.lookup| + disk.writes)
            && (t.lookupLive ==> Full(t.lookup, t.rows))
  {
    hide Whole, Torn, Extend, Partial, Full, Fill, Recovered, Cut, Ideal, LookedUp, Seqs;
    RecoveredIs(k, s, disk);
    CutIsWhole(k, s.segments);
    var full := s.(segments := Cut(s.segments), rows := Ideal(k, Cut(s.segments)), needsRecover := false);
    LookedUpOnly(full, disk);
    IdealSegments(k, full.segments);
    PartialGrows(s.lookup, s.rows, full.rows);
    LookedUpKeeps(full, disk);
    LookedUpLives(full, disk);
  }

  /** The lookup index stays in use exactly when it can be read and takes as many writes as rows are missing. */
  lemma LookedUpLives(s: Store, disk: LookupDisk)
    requires Numbered(s.rows) && Partial(s.lookup, s.rows)
    ensures LookedUp(s, disk).lookupLive <==> s.lookupLive && disk.readable && |s.rows| <= |s.lookup| + disk.writes
  {
    hide Fill, Partial, Full;
    FillIsFull(s.lookup, s.rows, 0);
    assert s.rows[0..] == s.rows;
    FullCount(Fill(s.lookup, s.rows), s.rows);
  }

  lemma LookedUpOnly(s: Store, disk: LookupDisk)
    ensures var t := LookedUp(s, disk);
            t == s.(lookup := t.lookup, lookupLive := t.lookupLive) && (t.lookupLive ==> s.lookupLive)
  {
    hide Fill;
  }

  /** Repeating recovery changes nothing, except that a lookup index that has become unreadable is dropped. */
  lemma RecoverTwice<R>(k: Codec<R>, s: Store, disk: LookupDisk)
    requires InSync(k, s) && !s.needsRecover
    ensures var (t, r) := Recovered(k, s, disk);
            && t == s.(lookupLive := s.lookupLive && disk.readable)
            && r.Ok? && r.value.truncatedBytes == 0 && r.value.indexedSeqs == [] && r.value.lookupSeqs == []
  {
    hide Whole, Torn, Extend, Partial, Fill, Recovered, Unlines;
    var n := |s.segments| - 1;
    var lines := Whole(s.segments[n]);
    assert lines[..|lines|] == lines;
    assert IndexedTo(k, s, |lines|);
    RecoveredIs(k, s, disk);
    FileIsLines(s.segments[n]);
    assert Unlines(lines) + [] == Unlines(lines);
    assert Cut(s.segments) == s.segments;
    if s.lookupLive {
      FillFull(s.lookup, s.rows);
    }
  }

  /** The lines a recovery passes over are those whose id an indexed or an earlier line already has. */
  lemma {:induction false} SkippedExact<R>(
    k: Codec<R>, lines: seq<seq<byte>>, segment: nat, offset: nat, rows: seq<Row>, o: nat)
    requires AllLoad(k, lines)
    ensures o in Skipped(k, lines, segment, offset, rows) <==>
            exists j: nat | j < |lines| :: o == offset + OffsetOf(lines, j) && Repeats(k, lines, rows, j)
    decreases |lines|
  {
    hide IdOf, Known, AddLine, OffsetOf;
    if lines != [] {
      var id := IdOf(k, lines[0]);
      var next, after := AddLine(rows, id, segment, offset), offset + |lines[0]| + 1;
      SkippedExact(k, lines[1..], segment, after, next, o);
      NothingBefore(lines);
      forall j: nat | 0 < j < |lines|
        ensures OffsetOf(lines, j) == |lines[0]| + 1 + OffsetOf(lines[1..], j - 1)
        ensures Repeats(k, lines, rows, j) <==> Repeats(k, lines[1..], next, j - 1)
      {
        OffsetNext(lines, j - 1);
        RepeatsNext(k, lines, segment, offset, rows, j - 1);
      }
      if o in Skipped(k, lines[1..], segment, after, next) {
        var j: nat :| j < |lines[1..]| && o == after + OffsetOf(lines[1..], j) && Repeats(k, lines[1..], next, j);
        assert o == offset + OffsetOf(lines, j + 1) && Repeats(k, lines, rows, j + 1);
      }
      if j: nat :| j < |lines| && o == offset + OffsetOf(lines, j) && Repeats(k, lines, rows, j) {
        if j > 0 {
          assert o == after + OffsetOf(lines[1..], j - 1) && Repeats(k, lines[1..], next, j - 1);
        }
      }
    }
  }

  ghost predicate Repeats<R>(k: Codec<R>, lines: seq<seq<byte>>, rows: seq<Row>, j: nat)
    requires AllLoad(k, lines) && j < |lines|
  {
    Known(rows, IdOf(k, lines[j])) || exists h: nat | h < j :: IdOf(k, lines[h]) == IdOf(k, lines[j])
  }

  lemma RepeatsNext<R>(k: Codec<R>, lines: seq<seq<byte>>, segment: nat, offset: nat, rows: seq<Row>, j: nat)
    requires AllLoad(k, lines) && j + 1 < |lines|
    ensures Repeats(k, lines, rows, j + 1) <==>
            Repeats(k, lines[1..], AddLine(rows, IdOf(k, lines[0]), segment, offset), j)
  {
    hide IdOf, Known, AddLine;
    var id := IdOf(k, lines[j + 1]);
    KnownAdded(rows, IdOf(k, lines[0]), segment, offset, id);
    if h: nat :| h < j + 1 && IdOf(k, lines[h]) == id {
      if h > 0 {
        assert IdOf(k, lines[1..][h - 1]) == id;
      }
    }
    if h: nat :| h < j && IdOf(k, lines[1..][h]) == id {
      assert IdOf(k, lines[h + 1]) == id;
    }
  }

  lemma KnownAdded(rows: seq<Row>, id: Hash, segment: nat, offset: nat, other: Hash)
    ensures Known(AddLine(rows, id, segment, offset), other) <==> Known(rows, other) || other == id
  {
    AddLineKnows(rows, id, segment, offset);
    if Known(rows, other) {
      KnownMore(rows, AddLine(rows, id, segment, offset), other);
    }
  }

  // ---- a recovery that breaks off ---------------------------------------------------------------

  /** How far a recovery got: lines read, rows added to the lookup index, and whether the torn tail was cut off. */
  datatype Progress = Progress(read: nat, looked: nat, cut: bool)

  /**
    What a recovery leaves that breaks off: the rows of the lines it had read, some
    of the lookup rows it would have added, and the torn tail, which is cut off last.
  */
  function Interrupted<R>(k: Codec<R>, s: Store, disk: LookupDisk, p: Progress): (t: Store)
    requires s.segments != []
    ensures t.segments != []
  {
    var n := |s.segments| - 1;
    var active := s.segments[n];
    match TailStart(active, MaxOffset(s.rows, n))
    case None => s.(needsRecover := true)
    case Some(start) =>
      var tail := active[start..];
      var lines := Whole(tail);
      var good := Good(k, lines);
      var read := if p.read <= good then p.read else good;
      assert lines[..read] == lines[..good][..read];
      var rows := Extend(k, lines[..read], n, start, s.rows);
      var t := LookedUp(s.(rows := rows, needsRecover := true), disk);
      var looked := if |s.lookup| + p.looked <= |t.lookup| then t.lookup[..|s.lookup| + p.looked] else t.lookup;
      var segments := if p.cut && read == |lines| && |Torn(tail)| <= |active|
                      then s.segments[..n] + [active[..|active| - |Torn(tail)|]] else s.segments;
      t.(segments := segments, lookup := looked)
  }

  /** Reading some of the lines after `from` gets as far as they reach, or changes nothing if they were all indexed. */
  lemma ReadSome<R>(k: Codec<R>, lines: seq<seq<byte>>, n: nat, base: seq<Row>, done: nat, from: nat, read: nat)
    returns (to: nat)
    requires AllLoad(k, lines) && from <= done <= |lines| && from + read <= |lines|
    ensures done <= to <= |lines| && AllLoad(k, lines[..done]) && AllLoad(k, lines[from..][..read])
    ensures AllLoad(k, lines[..to])
    ensures Extend(k, lines[from..][..read], n, OffsetOf(lines, from), Extend(k, lines[..done], n, 0, base)) ==
            Extend(k, lines[..to], n, 0, base)
  {
    hide Extend, Known, IdOf, Unlines;
    var rows := Extend(k, lines[..done], n, 0, base);
    var part := lines[from..][..read];
    assert part == lines[from..from + read];
    if from + read <= done {
      to := done;
      forall j | 0 <= j < |part|
        ensures Known(rows, IdOf(k, part[j]))
      {
        ExtendCovers(k, lines[..done], n, 0, base, from + j);
      }
      ExtendKnown(k, part, n, OffsetOf(lines, from), rows);
    } else {
      to := from + read;
      var some := lines[..to];
      ReadOn(k, some, n, base, done, from);
      assert some[..done] == lines[..done] && some[..from] == lines[..from] && some[from..] == part;
    }
  }

  lemma PartialPrefix(lookup: seq<Row>, rows: seq<Row>, n: nat)
    requires Partial(lookup, rows) && n <= |lookup|
    ensures Partial(lookup[..n], rows)
  {
  }

  /** Indexing a few lines of the active segment gives the first rows of the ideal index. */
  lemma IndexedIsPrefix<R>(k: Codec<R>, segments: seq<seq<byte>>, to: nat)
    requires segments != [] && Loadable(k, segments) && to <= |Whole(segments[|segments| - 1])|
    ensures var n := |segments| - 1;
            && AllLoad(k, Whole(segments[n])[..to]) && Loadable(k, segments[..n])
            && var rows := Extend(k, Whole(segments[n])[..to], n, 0, Ideal(k, segments[..n]));
               rows <= Ideal(k, segments) && Numbered(rows)
  {
    hide Extend, Whole, IdOf, Unlines;
    var n := |segments| - 1;
    var lines, base := Whole(segments[n]), Ideal(k, segments[..n]);
    assert lines == lines[..to] + lines[to..];
    ExtendConcat(k, lines[..to], lines[to..], n, 0, base);
    ExtendKeeps(k, lines[to..], n, |Unlines(lines[..to])|, Extend(k, lines[..to], n, 0, base));
    IdealLast(k, segments);
    IdealSegments(k, segments);
  }

  /** Where an interrupted recovery stopped, in terms of the segments alone. */
  lemma InterruptedIs<R>(k: Codec<R>, s: Store, disk: LookupDisk, p: Progress) returns (to: nat)
    requires Recoverable(k, s)
    ensures var n := |s.segments| - 1; var lines := Whole(s.segments[n]); var t := Interrupted(k, s, disk, p);
            && to <= |lines| && AllLoad(k, lines[..to]) && t.needsRecover
            && t.rows == Extend(k, lines[..to], n, 0, Ideal(k, s.segments[..n])) && s.rows <= t.rows
            && (t.segments == s.segments || t.segments == Cut(s.segments))
            && var full := LookedUp(s.(rows := t.rows, needsRecover := true), disk); t.lookup <= full.lookup
  {
    hide Whole, Torn, Extend, TailStart, MaxOffset, Partial, OffsetOf, Cut, Good, Unlines, FindNewline, LookedUp, Ideal;
    var n := |s.segments| - 1;
    var active := s.segments[n];
    var lines := Whole(active);
    var done: nat :| IndexedTo(k, s, done);
    var from := LastIndexed(k, s, done);
    TailOfFile(active, from);
    var start := OffsetOf(lines, from);
    var rest := lines[from..];
    AllLoadTail(k, lines, from);
    GoodAll(k, rest);
    var read := if p.read <= |rest| then p.read else |rest|;
    to := ReadSome(k, lines, n, Ideal(k, s.segments[..n]), done, from, read);
    ExtendKeeps(k, rest[..read], n, start, s.rows);
    CutIsWhole(k, s.segments);
    assert Cut(s.segments) == s.segments[..n] + [active[..|active| - |Torn(active)|]] by {
      CutShape(s.segments);
    }
    LookedUpOnly(s.(rows := Extend(k, rest[..read], n, start, s.rows), needsRecover := true), disk);
  }

  lemma CutShape(segments: seq<seq<byte>>)
    requires segments != []
    ensures var n := |segments| - 1;
            Cut(segments) == segments[..n] + [Cut(segments)[n]]
  {
    hide Whole, Unlines;
  }

  lemma AllLoadTail<R>(k: Codec<R>, lines: seq<seq<byte>>, from: nat)
    requires AllLoad(k, lines) && from <= |lines|
    ensures AllLoad(k, lines[from..])
  {
  }

  /** What an interrupted recovery leaves can be recovered. */
  lemma InterruptedRecoverable<R>(k: Codec<R>, s: Store, disk: LookupDisk, p: Progress)
    requires Recoverable(k, s)
    ensures Recoverable(k, Interrupted(k, s, disk, p)) && Interrupted(k, s, disk, p).needsRecover
  {
    hide Whole, Torn, Extend, Partial, Full, Interrupted, Cut, LookedUp, Ideal, AllLoad;
    var to := InterruptedIs(k, s, disk, p);
    var t := Interrupted(k, s, disk, p);
    CutIsWhole(k, s.segments);
    IndexedIsPrefix(k, s.segments, to);
    PartialGrows(s.lookup, s.rows, t.rows);
    var full := s.(rows := t.rows, needsRecover := true);
    LookedUpKeeps(full, disk);
    LookedUpOnly(full, disk);
    PartialPrefix(LookedUp(full, disk).lookup, t.rows, |t.lookup|);
    assert LookedUp(full, disk).lookup[..|t.lookup|] == t.lookup;
    assert IndexedTo(k, t, to);
  }

  /** However often it breaks off, recovery ends with the same files and rows as if it had not. */
  lemma ResumedRecovery<R>(
    k: Codec<R>, s: Store, disk: LookupDisk, p: Progress, again: LookupDisk, straight: LookupDisk)
    requires Recoverable(k, s)
    ensures var (t, r) := Recovered(k, Interrupted(k, s, disk, p), again);
            var (u, _) := Recovered(k, s, straight);
            r.Ok? && t.segments == u.segments && t.rows == u.rows
  {
    hide Whole, Torn, Extend, Partial, Full, Interrupted, Recovered, Cut, LookedUp, Ideal, AllLoad;
    InterruptedRecoverable(k, s, disk, p);
    var to := InterruptedIs(k, s, disk, p);
    RecoverReconciles(k, Interrupted(k, s, disk, p), again);
    RecoverReconciles(k, s, straight);
    CutTwice(k, s.segments);
  }

  lemma CutTwice<R>(k: Codec<R>, segments: seq<seq<byte>>)
    requires ClosedWhole(segments) && Loadable(k, segments)
    ensures Cut(segments) != [] && Cut(Cut(segments)) == Cut(segments)
  {
    hide Whole, Torn, Unlines, AllLoad;
    CutIsWhole(k, segments);
  }

  // ---- appending ------------------------------------------------------------------------------

  /** How an append ends: done, perhaps without its lookup row; or broken off after some bytes, perhaps with its row. */
  datatype Outcome = Done(looked: bool) | Broken(written: nat, indexed: bool)

  /** A broken append wrote part of the line, and a row only for a whole line. */
  predicate Possible<R>(k: Codec<R>, record: R, outcome: Outcome) {
    outcome.Broken? ==>
      var line := k.dump(record) + [NEWLINE];
      outcome.written <= |line| && (outcome.indexed ==> outcome.written == |line|)
  }

  function Appended<R>(k: Codec<R>, s: Store, record: R, outcome: Outcome): (Store, Result<Row, Error>)
    requires s.segments != [] && Possible(k, record, outcome)
  {
    var n := |s.segments| - 1;
    var active, id := s.segments[n], k.idOf(record);
    var line := k.dump(record) + [NEWLINE];
    var row := Row(|s.rows| + 1, id, n, |active|);
    if s.needsRecover then (s, Err(Corrupt))
    else if Known(s.rows, id) then (s, Err(Duplicate))
    else
      match outcome
      case Done(looked) =>
        (s.(segments := s.segments[..n] + [active + line], rows := s.rows + [row],
            lookup := if s.lookupLive && looked then s.lookup + [row] else s.lookup,
            lookupLive := s.lookupLive && looked), Ok(row))
      case Broken(written, indexed) =>
        (s.(segments := s.segments[..n] + [active + line[..written]],
            rows := if indexed then s.rows + [row] else s.rows, needsRecover := true), Err(Corrupt))
  }

  /**
    What an append does to the store and returns.  The lookup index stays in use
    exactly when it was and its write did not fail, and then has the new row.
  */
  lemma AppendOutcome<R>(k: Codec<R>, s: Store, record: R, outcome: Outcome)
    requires s.segments != [] && Possible(k, record, outcome)
    ensures var (t, r) := Appended(k, s, record, outcome); var n := |s.segments| - 1;
            var again := exists i :: 0 <= i < |s.rows| && s.rows[i].id == k.idOf(record);
            && (r == Err(Duplicate) <==> !s.needsRecover && again)
            && (s.needsRecover || again ==> t == s)
            && (r.Ok? <==> !s.needsRecover && !again && outcome.Done?)
            && (r.Ok? ==>
                  && r.value.id == k.idOf(record) && r.value.seqNo == |s.rows| + 1
                  && r.value.segment == n && r.value.offset == |s.segments[n]|
                  && t.rows == s.rows + [r.value] && !t.needsRecover
                  && t.segments == s.segments[..n] + [s.segments[n] + k.dump(record) + [NEWLINE]]
                  && (t.lookupLive <==> s.lookupLive && outcome.looked)
                  && t.lookup == s.lookup + if t.lookupLive then [r.value] else [])
            && (r.Err? && r.error != Duplicate ==>
                  r.error == Corrupt && t.needsRecover && t.lookupLive == s.lookupLive && t.lookup == s.lookup)
  {
    var active := s.segments[|s.segments| - 1];
    assert active + k.dump(record) + [NEWLINE] == active + (k.dump(record) + [NEWLINE]);
    assert s.lookup + [] == s.lookup;
  }

  /** Segments with one more line. */
  lemma IdealMore<R>(k: Codec<R>, segments: seq<seq<byte>>, line: seq<byte>)
    requires segments != [] && Loadable(k, segments) && Torn(segments[|segments| - 1]) == []
    requires NEWLINE !in line && k.load(line).Some?
    ensures var n := |segments| - 1; var active := segments[n];
            var more := segments[..n] + [active + (line + [NEWLINE])];
            && Whole(active + (line + [NEWLINE])) == Whole(active) + [line] && Torn(active + (line + [NEWLINE])) == []
            && Loadable(k, more)
            && Ideal(k, more) == AddLine(Ideal(k, segments), IdOf(k, line), n, |active|)
  {
    hide Whole, Torn, Unlines, AddLine, IdOf;
    var n := |segments| - 1;
    var active := segments[n];
    var lines := Whole(active);
    WholeMore(active, line);
    var more := segments[..n] + [active + (line + [NEWLINE])];
    assert more[..n] == segments[..n];
    FileIsLines(active);
    assert Unlines(lines) + [] == Unlines(lines);
    ExtendConcat(k, lines, [line], n, 0, Ideal(k, segments[..n]));
    ExtendOne(k, line, n, |active|, Ideal(k, segments));
  }

  lemma ExtendOne<R>(k: Codec<R>, line: seq<byte>, n: nat, offset: nat, rows: seq<Row>)
    requires k.load(line).Some?
    ensures AllLoad(k, [line]) && Extend(k, [line], n, offset, rows) == AddLine(rows, IdOf(k, line), n, offset)
  {
    hide AddLine, IdOf;
  }

  lemma WholeMore(data: seq<byte>, line: seq<byte>)
    requires Torn(data) == [] && NEWLINE !in line
    ensures Whole(data + (line + [NEWLINE])) == Whole(data) + [line] && Torn(data + (line + [NEWLINE])) == []
  {
    hide Whole, Torn, Unlines;
    var lines := Whole(data);
    FileIsLines(data);
    UnlinesConcat(lines, [line]);
    UnlinesCons(line, []);
    NoUnlines();
    assert [line] + [] == [line];
    LinesOfFile(lines + [line], []);
    assert Unlines(lines + [line]) + [] == data + (line + [NEWLINE]);
  }

  lemma WholePart(data: seq<byte>, part: seq<byte>)
    requires Torn(data) == [] && NEWLINE !in part
    ensures Whole(data + part) == Whole(data) && Torn(data + part) == part
  {
    hide Whole, Torn, Unlines;
    FileIsLines(data);
    assert data == Unlines(Whole(data));
    LinesOfFile(Whole(data), part);
  }

  lemma InSyncRecoverable<R>(k: Codec<R>, s: Store)
    requires InSync(k, s)
    ensures Recoverable(k, s)
  {
    hide Whole, Torn, Extend, Partial, Full;
    var n := |s.segments| - 1;
    var lines := Whole(s.segments[n]);
    assert lines[..|lines|] == lines;
    assert IndexedTo(k, s, |lines|);
  }

  lemma LineKnown<R>(k: Codec<R>, rows: seq<Row>, more: seq<Row>, id: Hash, n: nat, offset: nat)
    requires !Known(rows, id) && more == AddLine(rows, id, n, offset)
    ensures more == rows + [Row(|rows| + 1, id, n, offset)]
  {
  }

  /** An append that ends well keeps files and indexes in step; one that breaks off leaves what recovery takes. */
  lemma AppendKeeps<R(!new)>(k: Codec<R>, s: Store, record: R, outcome: Outcome)
    requires Faithful(k) && InSync(k, s) && !s.needsRecover && Possible(k, record, outcome)
    ensures var t := Appended(k, s, record, outcome).0;
            if t.needsRecover then Recoverable(k, t) else InSync(k, t)
  {
    hide Whole, Torn, Extend, Partial, Full, Known, AddLine, Faithful, Ideal;
    if !Known(s.rows, k.idOf(record)) {
      LineFacts(k, record);
      match outcome
      case Done(looked) =>
        DoneKeeps(k, s, record, looked);
      case Broken(written, indexed) =>
        BrokenLeaves(k, s, record, written, indexed);
    }
  }

  lemma LineFacts<R(!new)>(k: Codec<R>, record: R)
    requires Faithful(k)
    ensures NEWLINE !in k.dump(record) && k.load(k.dump(record)).Some? && IdOf(k, k.dump(record)) == k.idOf(record)
  {
  }

  lemma DoneKeeps<R(!new)>(k: Codec<R>, s: Store, record: R, looked: bool)
    requires Faithful(k) && InSync(k, s) && !s.needsRecover && !Known(s.rows, k.idOf(record))
    ensures InSync(k, Appended(k, s, record, Done(looked)).0)
  {
    hide Whole, Torn, Extend, Known, AddLine, Faithful, Ideal;
    LineFacts(k, record);
    var n := |s.segments| - 1;
    var active, line := s.segments[n], k.dump(record);
    var t := Appended(k, s, record, Done(looked)).0;
    IdealMore(k, s.segments, line);
    LineKnown(k, s.rows, Ideal(k, t.segments), k.idOf(record), n, |active|);
    PartialGrows(s.lookup, s.rows, t.rows);
    IdealSegments(k, s.segments);
    assert forall i | 0 <= i < n :: t.segments[i] == s.segments[i];
    if s.lookupLive && looked {
      var row := t.rows[|s.rows|];
      forall i | 0 <= i < |s.lookup|
        ensures s.lookup[i].seqNo != row.seqNo
      {
        assert s.lookup[i] in s.rows;
      }
    }
  }

  lemma BrokenLeaves<R(!new)>(k: Codec<R>, s: Store, record: R, written: nat, indexed: bool)
    requires Faithful(k) && InSync(k, s) && !s.needsRecover && !Known(s.rows, k.idOf(record))
    requires Possible(k, record, Broken(written, indexed))
    ensures var t := Appended(k, s, record, Broken(written, indexed)).0;
            && Recoverable(k, t)
            && Cut(t.segments) == if written == |k.dump(record)| + 1 then Appended(k, s, record, Done(true)).0.segments
                                  else s.segments
  {
    hide Whole, Torn, Extend, Known, AddLine, Faithful, Ideal, Partial, Full, Unlines;
    LineFacts(k, record);
    var n := |s.segments| - 1;
    var active, line := s.segments[n], k.dump(record);
    var full := line + [NEWLINE];
    var t := Appended(k, s, record, Broken(written, indexed)).0;
    var lines := Whole(active);
    assert t.segments[..n] == s.segments[..n];
    FileIsLines(active);
    FileIsLines(t.segments[n]);
    if written == |full| {
      assert full[..written] == full;
      IdealMore(k, s.segments, line);
      LineKnown(k, s.rows, Ideal(k, t.segments), k.idOf(record), n, |active|);
      var done := if indexed then |lines| + 1 else |lines|;
      assert Whole(t.segments[n])[..done] == if indexed then lines + [line] else lines;
      IdealLast(k, s.segments);
      IdealLast(k, t.segments);
      PartialGrows(s.lookup, s.rows, t.rows);
      assert IndexedTo(k, t, done);
      assert Unlines(Whole(t.segments[n])) + [] == Unlines(Whole(t.segments[n]));
    } else {
      assert full[..written] == line[..written];
      WholePart(active, line[..written]);
      IdealLast(k, s.segments);
      assert lines[..|lines|] == lines;
      assert IndexedTo(k, t, |lines|);
      assert Unlines(lines) + [] == Unlines(lines);
      assert s.segments == s.segments[..n] + [active];
    }
  }

  lemma IdealLast<R>(k: Codec<R>, segments: seq<seq<byte>>)
    requires segments != [] && Loadable(k, segments)
    ensures var n := |segments| - 1;
            Ideal(k, segments) == Extend(k, Whole(segments[n]), n, 0, Ideal(k, segments[..n]))
  {
    hide Whole, Extend;
  }

  /**
    A broken append, recovered, is an append that did not happen, or, when its
    whole line was written, one that did; a second recovery changes nothing.
  */
  lemma CrashedAppend<R(!new)>(
    k: Codec<R>, s: Store, record: R, written: nat, indexed: bool, disk: LookupDisk, again: LookupDisk)
    requires Faithful(k) && InSync(k, s) && !s.needsRecover && !Known(s.rows, k.idOf(record))
    requires Possible(k, record, Broken(written, indexed))
    ensures var crashed := Appended(k, s, record, Broken(written, indexed)).0;
            var whole := written == |k.dump(record)| + 1;
            var (t, r) := Recovered(k, crashed, disk);
            var goal := if whole then Appended(k, s, record, Done(true)).0 else s;
            && r.Ok? && t.segments == goal.segments && t.rows == goal.rows
            && (t.lookupLive ==> Full(t.lookup, t.rows))
            && Recovered(k, t, again).1.Ok?
            && Recovered(k, t, again).0 == t.(lookupLive := t.lookupLive && again.readable)
  {
    hide Whole, Torn, Extend, Known, AddLine, Faithful, Ideal, Recovered, Cut, Partial, Full, LookedUp, Seqs;
    var crashed := Appended(k, s, record, Broken(written, indexed)).0;
    BrokenLeaves(k, s, record, written, indexed);
    RecoverReconciles(k, crashed, disk);
    RecoverTwice(k, Recovered(k, crashed, disk).0, again);
    DoneKeeps(k, s, record, true);
  }

  // ---- whole runs ---------------------------------------------------------------------------------

  datatype Event<R> =
    | AppendEvent(record: R, outcome: Outcome)
    | RecoverEvent(disk: LookupDisk)
    | RecoverBroken(disk: LookupDisk, progress: Progress)
    | Restart

  /** A restarted process recovers before it appends. */
  function Step<R>(k: Codec<R>, s: Store, e: Event<R>): Store
    requires s.segments != [] && (e.AppendEvent? ==> Possible(k, e.record, e.outcome))
  {
    match e
    case AppendEvent(record, outcome) => Appended(k, s, record, outcome).0
    case RecoverEvent(disk) => Recovered(k, s, disk).0
    case RecoverBroken(disk, progress) => Interrupted(k, s, disk, progress)
    case Restart => s.(lookupLive := true, needsRecover := true)
  }

  ghost predicate Sound<R>(k: Codec<R>, s: Store) {
    if s.needsRecover then Recoverable(k, s) else InSync(k, s)
  }

  /** Every step of every run keeps the store in step with its index, or recoverable. */
  lemma StepKeeps<R(!new)>(k: Codec<R>, s: Store, e: Event<R>)
    requires Faithful(k) && Sound(k, s) && s.segments != [] && (e.AppendEvent? ==> Possible(k, e.record, e.outcome))
    ensures Sound(k, Step(k, s, e)) && Step(k, s, e).segments != []
  {
    hide Recoverable, InSync, Appended, Recovered, Interrupted, Faithful, Possible;
    match e
    case AppendEvent(record, outcome) =>
      if s.needsRecover {
        RefusedAppend(k, s, record, outcome);
      } else {
        AppendKeeps(k, s, record, outcome);
      }
      NonEmpty(k, Step(k, s, e));
    case RecoverEvent(disk) =>
      if !s.needsRecover {
        InSyncRecoverable(k, s);
      }
      RecoverReconciles(k, s, disk);
      NonEmpty(k, Step(k, s, e));
    case RecoverBroken(disk, progress) =>
      if !s.needsRecover {
        InSyncRecoverable(k, s);
      }
      InterruptedRecoverable(k, s, disk, progress);
    case Restart =>
      if !s.needsRecover {
        InSyncRecoverable(k, s);
      }
      RestartRecoverable(k, s);
  }

  /** No lookup read or write fails in this step. */
  predicate LookupAnswers<R>(k: Codec<R>, s: Store, e: Event<R>)
    requires s.segments != []
  {
    match e
    case AppendEvent(_, outcome) => outcome.Done? ==> outcome.looked
    case RecoverEvent(disk) => disk.readable && |Recovered(k, s, disk).0.rows| <= |s.lookup| + disk.writes
    case RecoverBroken(disk, progress) =>
      disk.readable && |Interrupted(k, s, disk, progress).rows| <= |s.lookup| + disk.writes
    case Restart => true
  }

  /** A step in which none fails keeps the lookup index in use, and a restart takes it in use again. */
  lemma LiveStep<R(!new)>(k: Codec<R>, s: Store, e: Event<R>)
    requires Sound(k, s) && s.segments != [] && (e.AppendEvent? ==> Possible(k, e.record, e.outcome))
    requires LookupAnswers(k, s, e) && (s.lookupLive || e.Restart?)
    ensures Step(k, s, e).lookupLive
  {
    hide Recoverable, InSync, Appended, Recovered, Interrupted, Possible;
    if !s.needsRecover {
      InSyncRecoverable(k, s);
    }
    match e
    case AppendEvent(record, outcome) => AppendOutcome(k, s, record, outcome);
    case RecoverEvent(disk) => RecoverReconciles(k, s, disk);
    case RecoverBroken(disk, progress) => InterruptedLives(k, s, disk, progress);
    case Restart =>
  }

  lemma InterruptedLives<R>(k: Codec<R>, s: Store, disk: LookupDisk, p: Progress)
    requires Recoverable(k, s) && s.lookupLive && disk.readable
    requires |Interrupted(k, s, disk, p).rows| <= |s.lookup| + disk.writes
    ensures Interrupted(k, s, disk, p).lookupLive
  {
    hide Whole, Torn, Extend, Partial, Full, Cut, LookedUp, Ideal, AllLoad, TailStart, MaxOffset, Good;
    var to := InterruptedIs(k, s, disk, p);
    var t := Interrupted(k, s, disk, p);
    IndexedIsPrefix(k, s.segments, to);
    PartialGrows(s.lookup, s.rows, t.rows);
    LookedUpOnly(s.(rows := t.rows, needsRecover := true), disk);
    LookedUpLives(s.(rows := t.rows, needsRecover := true), disk);
    InterruptedLookup(k, s, disk, p);
  }

  lemma InterruptedLookup<R>(k: Codec<R>, s: Store, disk: LookupDisk, p: Progress)
    requires s.segments != []
    ensures var t := Interrupted(k, s, disk, p);
            || t == s.(needsRecover := true)
            || t.lookupLive == LookedUp(s.(rows := t.rows, needsRecover := true), disk).lookupLive
  {
    hide Whole, Torn, Extend, Good, TailStart, MaxOffset, Fill;
  }

  ghost function RunStore<R>(k: Codec<R>, s: Store, events: seq<Event<R>>): Store
    decreases |events|
  {
    if events == [] then s
    else
      var e := events[0];
      if s.segments == [] || (e.AppendEvent? && !Possible(k, e.record, e.outcome)) then s
      else RunStore(k, Step(k, s, e), events[1..])
  }

  ghost predicate RunAnswers<R>(k: Codec<R>, s: Store, events: seq<Event<R>>)
    decreases |events|
  {
    events != [] ==>
      var e := events[0];
      && s.segments != [] && (e.AppendEvent? ==> Possible(k, e.record, e.outcome))
      && LookupAnswers(k, s, e) && RunAnswers(k, Step(k, s, e), events[1..])
  }

  /**
    Over any run in which no lookup read or write fails, from a store whose lookup
    index is in use, or that restarts first, it stays in use; and it is complete
    whenever the store is in step.
  */
  lemma {:induction false} LookupLives<R(!new)>(k: Codec<R>, s: Store, events: seq<Event<R>>)
    requires Faithful(k) && Sound(k, s) && RunAnswers(k, s, events)
    requires s.lookupLive || (events != [] && events[0].Restart?)
    ensures var t := RunStore(k, s, events);
            t.lookupLive && Sound(k, t) && (!t.needsRecover ==> Full(t.lookup, t.rows))
    decreases |events|
  {
    hide Recoverable, Step, Faithful, Possible, LookupAnswers, Full, Partial, Ideal, Whole, Torn;
    if events != [] {
      LiveStep(k, s, events[0]);
      StepKeeps(k, s, events[0]);
      LookupLives(k, Step(k, s, events[0]), events[1..]);
    }
  }

  lemma RefusedAppend<R>(k: Codec<R>, s: Store, record: R, outcome: Outcome)
    requires s.segments != [] && Possible(k, record, outcome) && s.needsRecover
    ensures Appended(k, s, record, outcome) == (s, Err(Corrupt))
  {
  }

  lemma NonEmpty<R>(k: Codec<R>, s: Store)
    ensures Recoverable(k, s) || InSync(k, s) ==> s.segments != []
  {
  }

  lemma RestartRecoverable<R>(k: Codec<R>, s: Store)
    requires Recoverable(k, s)
    ensures Recoverable(k, s.(lookupLive := true, needsRecover := true))
  {
    hide Extend, Ideal, Whole, Partial;
    var done: nat :| IndexedTo(k, s, done);
    assert IndexedTo(k, s.(lookupLive := true, needsRecover := true), done);
  }
}

module Ledger {
  import opened Wrappers
  import opened Bytes
  import opened Lines
  import opened Digests
  import opened LedgerSpec

  /** One entry of the segments: a line whose id no earlier line has. */
  datatype LeafLine = LeafLine(segment: nat, offset: nat, id: Hash)

  /** The rows of a list of entries, seqs from 1. */
  function NumberLeaves(leaves: seq<LeafLine>): (rows: seq<Row>)
    ensures |rows| == |leaves|
  {
    seq(|leaves|, i requires 0 <= i < |leaves| => Row(i + 1, leaves[i].id, leaves[i].segment, leaves[i].offset))
  }

  function NextSeq(rows: seq<Row>): int {
    if rows == [] then 1 else rows[|rows| - 1].seqNo + 1
  }

  function Summary(rows: seq<Row>): (int, int) {
    (|rows|, MaxSeq(rows))
  }

  function MaxSeq(rows: seq<Row>): int {
    if rows == [] then 0
    else
      var m := MaxSeq(rows[..|rows| - 1]);
      if rows[|rows| - 1].seqNo > m then rows[|rows| - 1].seqNo else m
  }

  class LedgerStore<R> {
    const codec: Codec<R>
    var segments: seq<seq<byte>>
    var rows: seq<Row>
    var lookup: seq<Row>
    var lookupLive: bool
    var needsRecover: bool

    constructor (codec: Codec<R>)
      ensures this.codec == codec && InSync(codec, Contents()) && !needsRecover
      ensures Contents() == Store([[]], [], [], true, false)
    {
      this.codec := codec;
      segments := [[]];
      rows := [];
      lookup := [];
      lookupLive := true;
      needsRecover := false;
      new;
      EmptyInSync(codec);
    }

    function Contents(): Store
      reads this
    {
      Store(segments, rows, lookup, lookupLive, needsRecover)
    }

    method Append(record: R, outcome: Outcome) returns (r: Result<Row, Error>)
      requires segments != [] && Possible(codec, record, outcome) && Numbered(rows)
      modifies this
      ensures (Contents(), r) == Appended(codec, old(Contents()), record, outcome)
    {
      if needsRecover {
        return Err(Corrupt);
      }
      var id := codec.idOf(record);
      if Known(rows, id) {
        return Err(Duplicate);
      }
      var last := |segments| - 1;
      var offset := |segments[last]|;
      var line := codec.dump(record) + [NEWLINE];
      var row := Row(NextSeq(rows), id, last, offset);
      if outcome.Broken? {
        segments := segments[..last] + [segments[last] + line[..outcome.written]];
        if outcome.indexed {
          rows := rows + [row];
        }
        needsRecover := true;
        return Err(Corrupt);
      }
      segments := segments[..last] + [segments[last] + line];
      rows := rows + [row];
      if lookupLive && outcome.looked {
        lookup := lookup + [row];
      }
      lookupLive := lookupLive && outcome.looked;
      return Ok(row);
    }

    /** Write one row to the lookup index, which is dropped when that fails. */
    method LookupRecord(row: Row, writes: nat) returns (ok: bool, left: nat)
      modifies `lookup, `lookupLive
      ensures ok <==> old(lookupLive) && writes > 0
      ensures lookupLive == ok && lookup == if ok then old(lookup) + [row] else old(lookup)
      ensures left == if ok then writes - 1 else writes
    {
      if !lookupLive {
        return false, writes;
      }
      if writes == 0 {
        lookupLive := false;
        return false, writes;
      }
      lookup := lookup + [row];
      return true, writes - 1;
    }

    /** Rows of the records index that are not in the lookup index are written to it, until a write fails. */
    method CatchUpLookup(disk: LookupDisk) returns (added: seq<int>, left: nat)
      requires Numbered(rows) && Partial(lookup, rows)
      modifies `lookup, `lookupLive
      ensures Contents() == LookedUp(old(Contents()), disk)
      ensures added == Seqs(lookup[|old(lookup)|..])
      ensures lookupLive ==> left + |added| == disk.writes
    {
      hide Partial, Fill, HasSeq, Seqs, Summary;
      added, left := [], disk.writes;
      NoSeqs();
      if !lookupLive {
        return;
      }
      if !disk.readable {
        lookupLive := false;
        return;
      }
      if Summary(lookup) == Summary(rows) {
        SameSummary(lookup, rows);
        return;
      }
      ghost var full := Fill(lookup, rows);
      for i := 0 to |rows|
        invariant lookupLive && old(lookup) <= lookup
        invariant added == Seqs(lookup[|old(lookup)|..]) && left + |added| == disk.writes
        invariant full == Fill(lookup, rows[i..])
      {
        assert rows[i..][0] == rows[i] && rows[i..][1..] == rows[i + 1..];
        FillStep(lookup, rows[i..]);
        if HasSeq(lookup, rows[i].seqNo) {
          continue;
        }
        ghost var before := lookup;
        var ok;
        ok, left := LookupRecord(rows[i], left);
        if !ok {
          assert before + [rows[i]] <= full;
          assert full[..|before|] == before;
          return;
        }
        SeqsMore(before, |old(lookup)|, rows[i]);
        added := added + [rows[i].seqNo];
      }
      FillNothing(lookup);
      assert rows[|rows|..] == [];
    }

    method Recover(disk: LookupDisk) returns (r: Result<RecoveryReport, Error>)
      requires segments != [] && Numbered(rows) && Partial(lookup, rows)
      modifies this
      ensures (Contents(), r) == Recovered(codec, old(Contents()), disk)
    {
      hide Whole, Torn, Extend, Fill, FindNewline, MaxOffset, Partial, AllLoad, LookedUp, Skipped, Seqs, TailStart,
        Good;
      ghost var before := Contents();
      needsRecover := true;
      var last := |segments| - 1;
      var active := segments[last];
      var start := TailStart(active, MaxOffset(rows, last));
      if start.None? {
        return Err(Corrupt);
      }
      var tail := active[start.value..];
      var lookedUp, writes := CatchUpLookup(disk);
      LookedUpFlag(before, true, disk);
      FileIsLines(tail);
      var truncated := |Torn(tail)|;
      var lines := Whole(tail);
      var skipped, indexed, ok := IndexLines(lines, last, start.value, writes);
      LookedUpMore(before, rows, disk, writes);
      LookedUpFlag(before.(rows := rows), true, disk);
      assert Contents() == LookedUp(before.(rows := rows, needsRecover := true), disk);
      if !ok {
        return Err(Corrupt);
      }
      segments := segments[..last] + [active[..|active| - truncated]];
      needsRecover := false;
      return Ok(RecoveryReport(truncated, indexed, skipped, lookedUp));
    }

    /** Rebuild the records index from the segments; a line that is no record leaves it as it was. */
    method Reindex() returns (r: Result<(), Error>)
      modifies this
      ensures r.Ok? <==> AllFilesLoad(codec, segments)
      ensures Contents() ==
              if r.Ok? then old(Contents()).(rows := IterationIndex(codec, segments), needsRecover := false)
              else old(Contents())
    {
      var leaves := Leaves(codec, segments);
      if leaves.None? {
        return Err(Corrupt);
      }
      var rebuilt := [];
      for i := 0 to |leaves.value|
        invariant rebuilt == NumberLeaves(leaves.value[..i])
      {
        var leaf := leaves.value[i];
        var row := Row(NextSeq(rebuilt), leaf.id, leaf.segment, leaf.offset);
        assert NumberLeaves(leaves.value[..i + 1]) == NumberLeaves(leaves.value[..i]) + [row];
        rebuilt := rebuilt + [row];
      }
      assert leaves.value[..|leaves.value|] == leaves.value;
      rows := rebuilt;
      needsRecover := false;
      return Ok(());
    }

    /** Regenerate the lookup index from the segments. */
    method RebuildLookup() returns (r: Result<(), Error>)
      modifies this
      ensures segments == old(segments) && rows == old(rows) && needsRecover == old(needsRecover)
      ensures r.Ok? <==> AllFilesLoad(codec, segments)
      ensures r.Ok? ==> lookup == IterationIndex(codec, segments) && lookupLive
    {
      lookup := [];
      lookupLive := true;
      var leaves := Leaves(codec, segments);
      if leaves.None? {
        return Err(Corrupt);
      }
      lookup := NumberLeaves(leaves.value);
      return Ok(());
    }

    /** Index complete lines in order, skipping those whose id is known, up to one that is no record. */
    method IndexLines(lines: seq<seq<byte>>, segment: nat, start: nat, writes: nat)
      returns (skipped: seq<nat>, indexed: seq<int>, ok: bool)
      requires Numbered(rows)
      modifies `rows, `lookup, `lookupLive
      ensures ok <==> Good(codec, lines) == |lines|
      ensures var read := lines[..Good(codec, lines)];
              && old(rows) <= rows == Extend(codec, read, segment, start, old(rows)) && Numbered(rows)
              && skipped == Skipped(codec, read, segment, start, old(rows))
              && indexed == Seqs(rows[|old(rows)|..])
      ensures Contents() == Written(old(Contents()).(rows := rows), rows[|old(rows)|..], writes)
    {
      hide Known, Extend, Skipped, Seqs, Good, Written, AllLoad, AddLine, IdOf, Numbered, NextSeq;
      skipped, indexed := [], [];
      NoSeqs();
      WrittenNone(Contents(), writes);
      var offset: nat := start;
      var left: nat := writes;
      ghost var good := Good(codec, lines);
      ghost var read := lines[..good];
      GoodLoads(codec, lines);
      assert read[0..] == read;
      for i := 0 to |lines|
        invariant i <= good && AllLoad(codec, read[i..])
        invariant old(rows) <= rows && Numbered(rows)
        invariant Extend(codec, read, segment, start, old(rows)) == Extend(codec, read[i..], segment, offset, rows)
        invariant Skipped(codec, read, segment, start, old(rows))
                  == skipped + Skipped(codec, read[i..], segment, offset, rows)
        invariant indexed == Seqs(rows[|old(rows)|..])
        invariant Contents() == Written(old(Contents()).(rows := rows), rows[|old(rows)|..], writes)
        invariant lookupLive ==> left + |indexed| == writes
      {
        var record := codec.load(lines[i]);
        if record.None? {
          ExtendNone(codec, segment, offset, rows);
          assert read[i..] == [];
          return skipped, indexed, false;
        }
        var id := codec.idOf(record.value);
        assert read[i..][1..] == read[i + 1..] && read[i..][0] == lines[i];
        IndexStep(codec, read[i..], segment, offset, rows, id);
        if Known(rows, id) {
          skipped := skipped + [offset];
        } else {
          var row := Row(NextSeq(rows), id, segment, offset);
          WrittenMore(old(Contents()), rows, |old(rows)|, row, writes);
          SeqsMore(rows, |old(rows)|, row);
          rows := rows + [row];
          var _, l := LookupRecord(row, left);
          left := l;
          indexed := indexed + [row.seqNo];
        }
        offset := offset + |lines[i]| + 1;
      }
      ExtendNone(codec, segment, offset, rows);
      assert read[|lines|..] == [];
      return skipped, indexed, true;
    }
  }

  /** `_leaves`: the first line per id, in segment order; `None` when a line is no record. */
  method Leaves<R>(k: Codec<R>, segments: seq<seq<byte>>) returns (r: Option<seq<LeafLine>>)
    ensures r.Some? <==> AllFilesLoad(k, segments)
    ensures r.Some? ==> NumberLeaves(r.value) == IterationIndex(k, segments)
  {
    hide Whole, Torn, Extend;
    var leaves: seq<LeafLine> := [];
    var seen: set<Hash> := {};
    assert segments[..0] == [];
    for segment := 0 to |segments|
      invariant AllFilesLoad(k, segments[..segment]) && NumberLeaves(leaves) == IterationIndex(k, segments[..segment])
      invariant forall id :: id in seen <==> Known(NumberLeaves(leaves), id)
    {
      var more := SegmentLeaves(k, segments[segment], segment, leaves, seen);
      assert segments[..segment + 1][..segment] == segments[..segment];
      if more.None? {
        assert !AllLoad(k, FileLines(segments[segment]));
        return None;
      }
      leaves, seen := more.value.0, more.value.1;
    }
    assert segments[..|segments|] == segments;
    return Some(leaves);
  }

  /** One segment's part of it. */
  method SegmentLeaves<R>(k: Codec<R>, data: seq<byte>, segment: nat, before: seq<LeafLine>, seenBefore: set<Hash>)
    returns (r: Option<(seq<LeafLine>, set<Hash>)>)
    requires forall id :: id in seenBefore <==> Known(NumberLeaves(before), id)
    ensures r.Some? <==> AllLoad(k, FileLines(data))
    ensures r.Some? ==>
              && NumberLeaves(r.value.0) == Extend(k, FileLines(data), segment, 0, NumberLeaves(before))
              && forall id :: id in r.value.1 <==> Known(NumberLeaves(r.value.0), id)
  {
    hide Whole, Torn, Extend, Known;
    var lines := FileLines(data);
    var leaves, seen := before, seenBefore;
    var offset: nat := 0;
    assert lines[0..] == lines;
    for i := 0 to |lines|
      invariant AllLoad(k, lines[..i])
      invariant AllLoad(k, lines) ==>
                  AllLoad(k, lines[i..])
                  && Extend(k, lines, segment, 0, NumberLeaves(before))
                     == Extend(k, lines[i..], segment, offset, NumberLeaves(leaves))
      invariant forall id :: id in seen <==> Known(NumberLeaves(leaves), id)
    {
      var record := k.load(lines[i]);
      if record.None? {
        return None;
      }
      if AllLoad(k, lines) {
        ExtendStep(k, lines[i..], segment, offset, NumberLeaves(leaves));
        assert lines[i..][1..] == lines[i + 1..];
      }
      var id := k.idOf(record.value);
      if id !in seen {
        SeenMore(leaves, LeafLine(segment, offset, id), seen);
        leaves := leaves + [LeafLine(segment, offset, id)];
        seen := seen + {id};
      }
      offset := offset + |lines[i]| + 1;
    }
    assert lines[..|lines|] == lines;
    if AllLoad(k, lines) {
      ExtendNone(k, segment, offset, NumberLeaves(leaves));
      assert lines[|lines|..] == [];
    }
    return Some((leaves, seen));
  }

  lemma SeenMore(leaves: seq<LeafLine>, leaf: LeafLine, seen: set<Hash>)
    requires forall id :: id in seen <==> Known(NumberLeaves(leaves), id)
    ensures NumberLeaves(leaves + [leaf]) ==
            NumberLeaves(leaves) + [Row(|leaves| + 1, leaf.id, leaf.segment, leaf.offset)]
    ensures forall id :: id in seen + {leaf.id} <==> Known(NumberLeaves(leaves + [leaf]), id)
  {
    var rows, more := NumberLeaves(leaves), NumberLeaves(leaves + [leaf]);
    assert more == rows + [Row(|leaves| + 1, leaf.id, leaf.segment, leaf.offset)];
    forall id
      ensures id in seen + {leaf.id} <==> Known(more, id)
    {
      if Known(rows, id) {
        KnownMore(rows, more, id);
      }
      if id == leaf.id {
        assert more[|leaves|].id == id;
      }
      if Known(more, id) && id != leaf.id {
        var i :| 0 <= i < |more| && more[i].id == id;
        assert rows[i].id == id;
      }
    }
  }

  /** What iterating over a file gives: its whole lines, and an incomplete last one if there is any. */
  function FileLines(data: seq<byte>): seq<seq<byte>> {
    Whole(data) + if Torn(data) == [] then [] else [Torn(data)]
  }

  /** Iterating over a file loses nothing: its lines are all of it, the last one completed if it was not. */
  lemma FileLinesExact(data: seq<byte>)
    ensures AreLines(FileLines(data))
    ensures Unlines(FileLines(data)) == if data == [] || data[|data| - 1] == NEWLINE then data else data + [NEWLINE]
  {
    hide Whole, Torn, Unlines;
    FileIsLines(data);
    var lines, torn := Whole(data), Torn(data);
    NoUnlines();
    if torn == [] {
      assert lines + [] == lines && Unlines(lines) + [] == data;
      if lines != [] {
        var k := |lines| - 1;
        assert lines == lines[..k] + [lines[k]];
        UnlinesConcat(lines[..k], [lines[k]]);
        UnlinesCons(lines[k], []);
        assert [lines[k]] + [] == [lines[k]];
      }
    } else {
      UnlinesConcat(lines, [torn]);
      UnlinesCons(torn, []);
      assert [torn] + [] == [torn];
      assert data[|data| - 1] == torn[|torn| - 1];
      assert Unlines(lines) + (torn + [NEWLINE]) == data + [NEWLINE];
    }
  }

  predicate AllFilesLoad<R>(k: Codec<R>, segments: seq<seq<byte>>) {
    forall i | 0 <= i < |segments| :: AllLoad(k, FileLines(segments[i]))
  }

  /** The index that iterating over whole files determines; `IdealOf` when every line is complete. */
  function IterationIndex<R>(k: Codec<R>, segments: seq<seq<byte>>): seq<Row>
    requires AllFilesLoad(k, segments)
  {
    if segments == [] then []
    else
      var n := |segments| - 1;
      Extend(k, FileLines(segments[n]), n, 0, IterationIndex(k, segments[..n]))
  }

  lemma {:induction false} IterationIsIdeal<R>(k: Codec<R>, segments: seq<seq<byte>>)
    requires AllFilesLoad(k, segments) && forall i | 0 <= i < |segments| :: Torn(segments[i]) == []
    ensures Loadable(k, segments) && IterationIndex(k, segments) == Ideal(k, segments)
  {
    hide Whole, Torn, Extend, AllLoad;
    forall i | 0 <= i < |segments|
      ensures FileLines(segments[i]) == Whole(segments[i])
    {
    }
    if segments != [] {
      IterationIsIdeal(k, segments[..|segments| - 1]);
    }
  }

  lemma EmptyInSync<R>(k: Codec<R>)
    ensures InSync(k, Store([[]], [], [], true, false))
  {
    assert Ideal(k, [[]]) == [];
  }

  lemma ExtendStep<R>(k: Codec<R>, lines: seq<seq<byte>>, segment: nat, offset: nat, rows: seq<Row>)
    requires lines != [] && AllLoad(k, lines)
    ensures AllLoad(k, lines[1..])
    ensures var id, after := IdOf(k, lines[0]), offset + |lines[0]| + 1;
            && Extend(k, lines, segment, offset, rows)
               == Extend(k, lines[1..], segment, after, AddLine(rows, id, segment, offset))
            && Skipped(k, lines, segment, offset, rows)
               == (if Known(rows, id) then [offset] else [])
                  + Skipped(k, lines[1..], segment, after, AddLine(rows, id, segment, offset))
  {
    hide AddLine, IdOf, Known;
  }

  lemma ExtendNone<R>(k: Codec<R>, segment: nat, offset: nat, rows: seq<Row>)
    ensures AllLoad(k, []) && Extend(k, [], segment, offset, rows) == rows
    ensures Skipped(k, [], segment, offset, rows) == []
  {
  }

  lemma GoodLoads<R>(k: Codec<R>, lines: seq<seq<byte>>)
    ensures forall i | 0 <= i < Good(k, lines) :: k.load(lines[i]).Some?
  {
    var n := Good(k, lines);
    assert forall i | 0 <= i < n :: lines[..n][i] == lines[i];
  }

  /** Reading one line, as the row that is added or not. */
  lemma IndexStep<R>(k: Codec<R>, lines: seq<seq<byte>>, segment: nat, offset: nat, rows: seq<Row>, id: Hash)
    requires lines != [] && AllLoad(k, lines) && Numbered(rows)
    requires k.load(lines[0]).Some? && id == k.idOf(k.load(lines[0]).value)
    ensures AllLoad(k, lines[1..])
    ensures var after := offset + |lines[0]| + 1;
            var more := if Known(rows, id) then rows else rows + [Row(NextSeq(rows), id, segment, offset)];
            && Numbered(more)
            && Extend(k, lines, segment, offset, rows) == Extend(k, lines[1..], segment, after, more)
            && Skipped(k, lines, segment, offset, rows)
               == (if Known(rows, id) then [offset] else []) + Skipped(k, lines[1..], segment, after, more)
  {
    hide Known, Extend, Skipped;
    ExtendStep(k, lines, segment, offset, rows);
  }

  lemma NoSeqs()
    ensures Seqs([]) == []
  {
  }

  lemma SeqsMore(rows: seq<Row>, n: nat, row: Row)
    requires n <= |rows|
    ensures Seqs((rows + [row])[n..]) == Seqs(rows[n..]) + [row.seqNo]
  {
  }

  // ---- writing the lookup index ---------------------------------------------------------------

  /** Rows written one after the other until a write fails. */
  function Written(s: Store, more: seq<Row>, writes: nat): Store {
    if !s.lookupLive then s
    else if |more| <= writes then s.(lookup := s.lookup + more)
    else s.(lookup := s.lookup + more[..writes], lookupLive := false)
  }

  lemma WrittenNone(s: Store, writes: nat)
    ensures Written(s, [], writes) == s
  {
    assert s.lookup + [] == s.lookup;
  }

  lemma WrittenMore(s: Store, rows: seq<Row>, n: nat, row: Row, writes: nat)
    requires n <= |rows|
    ensures var more := rows[n..];
            var t := Written(s.(rows := rows), more, writes);
            var u := Written(s.(rows := rows + [row]), (rows + [row])[n..], writes);
            var ok := t.lookupLive && |more| < writes;
            u == t.(rows := rows + [row], lookup := if ok then t.lookup + [row] else t.lookup, lookupLive := ok)
  {
    var more := rows[n..];
    assert (rows + [row])[n..] == more + [row];
    if s.lookupLive {
      if |more| < writes {
        assert s.lookup + (more + [row]) == s.lookup + more + [row];
      } else {
        assert (more + [row])[..writes] == more[..writes];
        if |more| == writes {
          assert more[..writes] == more;
        }
      }
    }
  }

  lemma LookedUpFlag(s: Store, flag: bool, disk: LookupDisk)
    ensures LookedUp(s.(needsRecover := flag), disk) == LookedUp(s, disk).(needsRecover := flag)
  {
    hide Fill;
  }

  /** Completing the lookup index and then writing new rows is completing it with the new rows. */
  lemma LookedUpMore(s: Store, rows: seq<Row>, disk: LookupDisk, left: nat)
    requires Numbered(s.rows) && Numbered(rows) && s.rows <= rows && Partial(s.lookup, s.rows)
    requires var t := LookedUp(s, disk); t.lookupLive ==> left + |t.lookup| == disk.writes + |s.lookup|
    ensures LookedUp(s.(rows := rows), disk) == Written(LookedUp(s, disk).(rows := rows), rows[|s.rows|..], left)
  {
    hide Fill, Partial, Numbered;
    var full, new_ := Fill(s.lookup, s.rows), rows[|s.rows|..];
    FillNew(s.lookup, s.rows, rows);
    var end := |s.lookup| + disk.writes;
    if end < |full| {
      assert (full + new_)[..end] == full[..end];
    } else if end < |full| + |new_| {
      assert (full + new_)[..end] == full + new_[..end - |full|];
    }
  }

  lemma FillStep(lookup: seq<Row>, rows: seq<Row>)
    requires rows != []
    ensures Fill(lookup, rows) == Fill(if HasSeq(lookup, rows[0].seqNo) then lookup else lookup + [rows[0]], rows[1..])
  {
    hide HasSeq;
  }

  lemma FillNothing(lookup: seq<Row>)
    ensures Fill(lookup, []) == lookup
  {
  }

  /** New rows, whose seqs are above all others, are all added. */
  lemma FillNew(lookup: seq<Row>, rows: seq<Row>, more: seq<Row>)
    requires Numbered(rows) && Numbered(more) && rows <= more && Partial(lookup, rows)
    ensures Fill(lookup, more) == Fill(lookup, rows) + more[|rows|..]
  {
    hide Fill;
    assert rows[0..] == rows;
    FillIsFull(lookup, rows, 0);
    assert more == rows + more[|rows|..];
    FillConcat(lookup, rows, more[|rows|..]);
    var full := Fill(lookup, rows);
    forall i | 0 <= i < |full|
      ensures full[i].seqNo <= |rows|
    {
      assert full[i] in rows;
    }
    FillAbove(full, more, |rows|);
  }

  lemma {:induction false} FillAbove(lookup: seq<Row>, more: seq<Row>, n: nat)
    requires Numbered(more) && n <= |more| && forall i | 0 <= i < |lookup| :: lookup[i].seqNo <= n
    ensures Fill(lookup, more[n..]) == lookup + more[n..]
    decreases |more| - n
  {
    hide Fill;
    if n < |more| {
      var row, rest := more[n], more[n + 1..];
      assert more[n..] == [row] + rest && more[n..][1..] == rest;
      FillStep(lookup, more[n..]);
      FillAbove(lookup + [row], more, n + 1);
      assert (lookup + [row]) + rest == lookup + more[n..];
    } else {
      assert more[n..] == [];
      FillNothing(lookup);
    }
  }

  lemma SameSummary(lookup: seq<Row>, rows: seq<Row>)
    requires Numbered(rows) && Partial(lookup, rows) && Summary(lookup) == Summary(rows)
    ensures Fill(lookup, rows) == lookup
  {
    SameCount(lookup, rows);
    FillFull(lookup, rows);
  }

  /** On whole segments, what recovery, reindexing and rebuilding the lookup index leave is the same index. */
  lemma RebuildsAgree<R>(k: Codec<R>, s: Store)
    requires InSync(k, s) && s.lookupLive
    ensures AllFilesLoad(k, s.segments) && IterationIndex(k, s.segments) == s.rows
    ensures Full(s.lookup, IterationIndex(k, s.segments))
  {
    hide Whole, Torn, Extend, AllLoad, Partial;
    forall i | 0 <= i < |s.segments|
      ensures FileLines(s.segments[i]) == Whole(s.segments[i])
    {
    }
    IterationIsIdeal(k, s.segments);
  }
}
