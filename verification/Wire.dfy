// Portable encodings: canonical decimals, and JSON objects for entries,
// witness rows and states.

module Decimals {
  import opened Wrappers

  const MAX_DECIMAL := 0x1_0000_0000_0000_0000  // 2^64

  function Digit(d: nat): char
    requires d < 10
  {
    '0' + d as char
  }

  predicate IsDigit(c: char) {
    '0' <= c <= '9'
  }

  function DigitValue(c: char): (d: nat)
    requires IsDigit(c)
    ensures d < 10 && Digit(d) == c
  {
    (c - '0') as nat
  }

  function FormatDecimal(n: nat): (s: string)
    ensures |s| > 0
  {
    if n < 10 then [Digit(n)] else FormatDecimal(n / 10) + [Digit(n % 10)]
  }

  /** A digit string without leading zeros. */
  predicate Canonical(s: string) {
    && |s| > 0 && (|s| > 1 ==> s[0] != '0')
    && forall i | 0 <= i < |s| :: IsDigit(s[i])
  }

  function DigitsValue(s: string): nat
    requires forall i | 0 <= i < |s| :: IsDigit(s[i])
  {
    if s == [] then 0
    else 10 * DigitsValue(s[..|s| - 1]) + DigitValue(s[|s| - 1])
  }

  /** Reads what `FormatDecimal` writes for a number of 64 bits, and nothing else. */
  function ParseDecimal(s: string): Option<nat> {
    if |s| > 20 || !Canonical(s) then None
    else if DigitsValue(s) >= MAX_DECIMAL then None
    else Some(DigitsValue(s))
  }

  lemma {:induction false} FormatIsCanonical(n: nat)
    ensures Canonical(FormatDecimal(n)) && DigitsValue(FormatDecimal(n)) == n
    ensures n > 0 ==> FormatDecimal(n)[0] != '0'
  {
    var s := FormatDecimal(n);
    if n < 10 {
      assert s[..0] == [];
    } else {
      FormatIsCanonical(n / 10);
      assert s[..|s| - 1] == FormatDecimal(n / 10);
    }
  }

  lemma {:induction false} FormatLength(n: nat, k: nat)
    requires k > 0 && n < Pow10(k)
    ensures |FormatDecimal(n)| <= k
  {
    if n >= 10 {
      FormatLength(n / 10, k - 1);
    }
  }

  function Pow10(k: nat): nat {
    if k == 0 then 1 else 10 * Pow10(k - 1)
  }

  /** Only the canonical spelling of a number parses, and every number of 64 bits has one. */
  lemma {:induction false} DigitsAreFormat(s: string)
    requires Canonical(s)
    ensures s == FormatDecimal(DigitsValue(s))
    ensures |s| > 1 ==> DigitsValue(s) >= 10
  {
    var t := s[..|s| - 1];
    if |s| == 1 {
      assert t == [];
      assert s == [s[0]];
    } else {
      DigitsAreFormat(t);
      assert s == t + [s[|s| - 1]];
      assert DigitsValue(t) > 0 by {
        if |t| == 1 {
          assert t[..0] == [];
        }
      }
    }
  }

  lemma DecimalRoundTrip(s: string, n: nat)
    ensures ParseDecimal(s) == Some(n) <==> n < MAX_DECIMAL && s == FormatDecimal(n)
  {
    FormatIsCanonical(n);
    if n < MAX_DECIMAL {
      assert Pow10(4) == 10_000 && Pow10(8) == 10000_0000 && Pow10(12) == 10000_0000_0000;
      assert Pow10(16) == 10000_0000_0000_0000 && Pow10(20) == 10000_0000_0000_0000_0000;
      FormatLength(n, 20);
    }
    if Canonical(s) {
      DigitsAreFormat(s);
    }
  }
}

module Wire {
  import opened Wrappers
  import opened Bytes
  import opened Lines
  import opened Decimals
  import opened Digests
  import opened Engine

  /** Field names. */
  datatype Key =
    | VersionKey | TypeKey | EntryKey | StateKey | WitnessKey
    | ExpectedSizeKey | ExpectedCheckpointKey | ExpectedAttemptsKey
    | SeqKey | ValueKey | AppendedAtKey
    | WitnessIdKey | CheckpointSizeKey | CheckpointKey | AttemptsKey | NextAttemptAtKey | PermanentKey
    | ReceiptKey | EntryHashKey | EntryHashSchemeKey | LeafIndexKey | TreeSizeKey | LastErrorKey
    | SizeKey | IndexedSeqKey | NodesKey | FirstPendingAtKey
    | CheckpointIndexedSeqKey | CheckpointPeaksKey | WitnessesKey
    | OtherKey(name: string)

  datatype Json =
    | Null
    | Bool(b: bool)
    | Num(n: int)
    | Str(s: string)
    | Arr(items: seq<Json>)
    | Obj(fields: map<Key, Json>)

  /**
    The library encodings the journal builds on: base64 text of binary values,
    the text of a time, and one line of compact JSON.
  */
  datatype Codec<!C> = Codec(
    bytes: C -> string, unbytes: string -> Option<C>,
    hash: Hash -> string, unhash: string -> Option<Hash>,
    octets: seq<byte> -> string, unoctets: string -> Option<seq<byte>>,
    time: int -> string, untime: string -> Option<int>,
    line: Json -> seq<byte>, unline: seq<byte> -> Option<Json>)

  const FIRST_TIME := -62135596800000  // the first millisecond of year 1
  const LAST_TIME := 253402300799999  // the last one of year 9999

  /** A time that the four-digit-year text can write. */
  predicate PortableTime(t: int) {
    FIRST_TIME <= t <= LAST_TIME
  }

  /** Binary values and times read back from their texts. */
  ghost predicate FaithfulTexts<C(!new)>(k: Codec<C>) {
    && (forall x :: k.unbytes(k.bytes(x)) == Some(x))
    && (forall x :: k.unhash(k.hash(x)) == Some(x))
    && (forall x :: k.unoctets(k.octets(x)) == Some(x))
    && (forall x :: PortableTime(x) ==> k.untime(k.time(x)) == Some(x))
  }

  /** The line of every event that the journal writes reads back, and holds no newline byte. */
  ghost predicate Faithful<C(!new)>(k: Codec<C>) {
    && FaithfulTexts(k)
    && forall e | EventFits(e) ::
         var j := EventToWire(k, e);
         k.unline(k.line(j)) == Some(j) && NEWLINE !in k.line(j)
  }

  // ---- fields -----------------------------------------------------------------------

  /** A field, `null` standing for an absent one. */
  function Get(wire: map<Key, Json>, key: Key): Json {
    if key in wire then wire[key] else Null
  }

  const FIELD_NAMES: set<Key> := {
    VersionKey, TypeKey, EntryKey, StateKey, WitnessKey, ExpectedSizeKey, ExpectedCheckpointKey, ExpectedAttemptsKey,
    SeqKey, ValueKey, AppendedAtKey, WitnessIdKey, CheckpointSizeKey, CheckpointKey, AttemptsKey, NextAttemptAtKey,
    PermanentKey, ReceiptKey, EntryHashKey, EntryHashSchemeKey, LeafIndexKey, TreeSizeKey, LastErrorKey,
    SizeKey, IndexedSeqKey, NodesKey, FirstPendingAtKey, CheckpointIndexedSeqKey, CheckpointPeaksKey, WitnessesKey}

  /** An object with a field for every name that has a value: absent values are absent fields, never `null`. */
  function Object(field: Key -> Json): (j: Json)
    ensures j.Obj?
    ensures forall key: Key :: !key.OtherKey? ==> Get(j.fields, key) == field(key)
    ensures forall key: Key :: field(key).Null? ==> key !in j.fields
  {
    Obj(map key <- FIELD_NAMES | !field(key).Null? :: field(key))
  }

  function OptString(o: Option<string>): Json {
    if o.None? then Null else Str(o.value)
  }

  function OptInteger(o: Option<int>): Json {
    if o.None? then Null else Num(o.value)
  }

  function AsObject(j: Json): Option<map<Key, Json>> {
    if j.Obj? then Some(j.fields) else None
  }

  function AsString(j: Json): Option<string> {
    if j.Str? then Some(j.s) else None
  }

  function AsInteger(j: Json): Option<int> {
    if j.Num? then Some(j.n) else None
  }

  function AsArray(j: Json): Option<seq<Json>> {
    if j.Arr? then Some(j.items) else None
  }

  function AsDecimal(j: Json): Option<nat> {
    if j.Str? then ParseDecimal(j.s) else None
  }

  function Decimal(n: nat): Json {
    Str(FormatDecimal(n))
  }

  function BytesText<C>(k: Codec<C>, x: C): Json {
    Str(k.bytes(x))
  }

  function BytesOf<C>(k: Codec<C>, j: Json): Option<C> {
    if j.Str? then k.unbytes(j.s) else None
  }

  function DigestText<C>(k: Codec<C>, x: Hash): Json {
    Str(k.hash(x))
  }

  function DigestOf<C>(k: Codec<C>, j: Json): Option<Hash> {
    if j.Str? then k.unhash(j.s) else None
  }

  function OctetsText<C>(k: Codec<C>, x: seq<byte>): Json {
    Str(k.octets(x))
  }

  function OctetsOf<C>(k: Codec<C>, j: Json): Option<seq<byte>> {
    if j.Str? then k.unoctets(j.s) else None
  }

  function TimeText<C>(k: Codec<C>, x: int): Json {
    Str(k.time(x))
  }

  function TimeOf<C>(k: Codec<C>, j: Json): Option<int> {
    if j.Str? then k.untime(j.s) else None
  }

  /** Each text field reads back as what was written. */
  lemma TextRoundTrip<C(!new)>(k: Codec<C>)
    requires FaithfulTexts(k)
    ensures forall x :: BytesText(k, x).Str? && BytesOf(k, BytesText(k, x)) == Some(x)
    ensures forall x :: DigestText(k, x).Str? && DigestOf(k, DigestText(k, x)) == Some(x)
    ensures forall x :: OctetsText(k, x).Str? && OctetsOf(k, OctetsText(k, x)) == Some(x)
    ensures forall x :: PortableTime(x) ==> TimeText(k, x).Str? && TimeOf(k, TimeText(k, x)) == Some(x)
    ensures forall o :: OptionalString(OptString(o)) == Some(o)
    ensures forall o :: OptionalInteger(OptInteger(o)) == Some(o)
    ensures forall o: Option<int> | o.Some? ==> PortableTime(o.value) :: OptionalTime(k, OptTime(k, o)) == Some(o)
    ensures forall o :: OptionalBytes(k, OptBytes(k, o)) == Some(o)
    ensures forall n: nat | n < MAX_DECIMAL :: Decimal(n).Str? && AsDecimal(Decimal(n)) == Some(n)
  {
    hide FormatDecimal, ParseDecimal;
    forall n: nat | n < MAX_DECIMAL
      ensures AsDecimal(Decimal(n)) == Some(n)
    {
      DecimalRoundTrip(FormatDecimal(n), n);
    }
  }

  // An optional field: absent is fine, present must decode.

  function OptionalString(j: Json): Option<Option<string>> {
    if j.Null? then Some(None) else if j.Str? then Some(Some(j.s)) else None
  }

  function OptionalInteger(j: Json): Option<Option<int>> {
    if j.Null? then Some(None) else if j.Num? then Some(Some(j.n)) else None
  }

  function OptionalTime<C>(k: Codec<C>, j: Json): Option<Option<int>> {
    if j.Null? then Some(None)
    else
      var t :- TimeOf(k, j);
      Some(Some(t))
  }

  function OptionalBytes<C>(k: Codec<C>, j: Json): Option<Option<C>> {
    if j.Null? then Some(None)
    else
      var b :- BytesOf(k, j);
      Some(Some(b))
  }

  function OptTime<C>(k: Codec<C>, o: Option<int>): Json {
    if o.None? then Null else TimeText(k, o.value)
  }

  function OptBytes<C>(k: Codec<C>, o: Option<C>): Json {
    if o.None? then Null else BytesText(k, o.value)
  }

  function All<T>(items: seq<Json>, decode: Json -> Option<T>): (r: Option<seq<T>>)
    ensures r.Some? ==> |r.value| == |items|
  {
    if items == [] then Some([])
    else
      var first :- decode(items[0]);
      var rest :- All(items[1..], decode);
      Some([first] + rest)
  }

  lemma {:induction false} AllOf<T>(values: seq<T>, items: seq<Json>, decode: Json -> Option<T>)
    requires |items| == |values| && forall i :: 0 <= i < |values| ==> decode(items[i]) == Some(values[i])
    ensures All(items, decode) == Some(values)
  {
    if values != [] {
      AllOf(values[1..], items[1..], decode);
      assert values == [values[0]] + values[1..];
    }
  }

  // ---- entries ------------------------------------------------------------------------

  function EntryToWire<C>(k: Codec<C>, e: Entry): Json
    requires e.seqNo >= 0
  {
    Object((key: Key) =>
      match key
      case SeqKey => Decimal(e.seqNo)
      case ValueKey => DigestText(k, e.value)
      case AppendedAtKey => TimeText(k, e.appendedAt)
      case _ => Null)
  }

  function EntryFromWire<C>(k: Codec<C>, j: Json): Option<Entry> {
    var wire :- AsObject(j);
    var seqNo :- AsDecimal(Get(wire, SeqKey));
    var value :- DigestOf(k, Get(wire, ValueKey));
    var appendedAt :- TimeOf(k, Get(wire, AppendedAtKey));
    Some(Entry(seqNo, value, appendedAt))
  }

  // ---- witness rows ---------------------------------------------------------------------

  predicate RowFits<C>(row: WitnessState<C>) {
    0 <= row.checkpointSize < MAX_DECIMAL && 0 <= row.attempts <= MAX_ATTEMPTS && PortableTime(row.nextAttemptAt)
  }

  function RowField<C>(k: Codec<C>, row: WitnessState<C>, key: Key): Json
    requires RowFits(row)
  {
    match key
    case WitnessIdKey => Str(row.witnessId)
    case CheckpointSizeKey => Decimal(row.checkpointSize)
    case CheckpointKey => BytesText(k, row.checkpoint)
    case AttemptsKey => Num(row.attempts)
    case NextAttemptAtKey => TimeText(k, row.nextAttemptAt)
    case PermanentKey => Bool(row.permanent)
    case LastErrorKey => OptString(row.lastError)
    case _ => if row.receipt.None? then Null else ReceiptField(k, row.receipt.value, key)
  }

  function ReceiptField<C>(k: Codec<C>, r: WitnessReceipt, key: Key): Json {
    match key
    case ReceiptKey => OctetsText(k, r.bytes)
    case EntryHashKey => OptString(r.entryHash)
    case EntryHashSchemeKey => OptString(r.entryHashScheme)
    case LeafIndexKey => OptInteger(r.leafIndex)
    case TreeSizeKey => OptInteger(r.treeSize)
    case _ => Null
  }

  function RowToWire<C>(k: Codec<C>, row: WitnessState<C>): Json
    requires RowFits(row)
  {
    Object((key: Key) => RowField(k, row, key))
  }

  /** Receipt metadata without receipt bytes is refused. */
  function ReceiptFromWire<C>(k: Codec<C>, wire: map<Key, Json>): Option<Option<WitnessReceipt>> {
    if Get(wire, ReceiptKey).Null? then
      if Get(wire, EntryHashKey).Null? && Get(wire, EntryHashSchemeKey).Null?
         && Get(wire, LeafIndexKey).Null? && Get(wire, TreeSizeKey).Null?
      then Some(None)
      else None
    else
      var entryHash :- OptionalString(Get(wire, EntryHashKey));
      var scheme :- OptionalString(Get(wire, EntryHashSchemeKey));
      var leafIndex :- OptionalInteger(Get(wire, LeafIndexKey));
      var treeSize :- OptionalInteger(Get(wire, TreeSizeKey));
      var bytes :- OctetsOf(k, Get(wire, ReceiptKey));
      Some(Some(WitnessReceipt(bytes, entryHash, scheme, leafIndex, treeSize)))
  }

  function RowFromWire<C>(k: Codec<C>, j: Json): Option<WitnessState<C>> {
    var wire :- AsObject(j);
    var attempts :- AsInteger(Get(wire, AttemptsKey));
    if !(0 <= attempts <= MAX_ATTEMPTS) || !Get(wire, PermanentKey).Bool? then None
    else
      var lastError :- OptionalString(Get(wire, LastErrorKey));
      var receipt :- ReceiptFromWire(k, wire);
      var witnessId :- AsString(Get(wire, WitnessIdKey));
      var size :- AsDecimal(Get(wire, CheckpointSizeKey));
      var checkpoint :- BytesOf(k, Get(wire, CheckpointKey));
      var nextAttemptAt :- TimeOf(k, Get(wire, NextAttemptAtKey));
      Some(WitnessState(
        witnessId, size, checkpoint, attempts, nextAttemptAt, receipt, Get(wire, PermanentKey).b, lastError))
  }

  lemma EntryRoundTrip<C(!new)>(k: Codec<C>, e: Entry)
    requires FaithfulTexts(k) && 0 <= e.seqNo < MAX_DECIMAL && PortableTime(e.appendedAt)
    ensures EntryFromWire(k, EntryToWire(k, e)) == Some(e)
  {
    hide FaithfulTexts, BytesText, BytesOf, DigestText, DigestOf, OctetsText, OctetsOf, TimeText, TimeOf, Decimal,
      AsDecimal, Get, Object, OptString, OptInteger, OptionalString, OptionalInteger, OptionalTime, OptionalBytes,
      OptTime, OptBytes;
    TextRoundTrip(k);
  }

  /** The receipt's fields are written as `ReceiptField` says, or all absent. */
  predicate ReceiptAt<C>(k: Codec<C>, r: Option<WitnessReceipt>, wire: map<Key, Json>) {
    && Get(wire, ReceiptKey) == (if r.None? then Null else OctetsText(k, r.value.bytes))
    && Get(wire, EntryHashKey) == (if r.None? then Null else OptString(r.value.entryHash))
    && Get(wire, EntryHashSchemeKey) == (if r.None? then Null else OptString(r.value.entryHashScheme))
    && Get(wire, LeafIndexKey) == (if r.None? then Null else OptInteger(r.value.leafIndex))
    && Get(wire, TreeSizeKey) == (if r.None? then Null else OptInteger(r.value.treeSize))
  }

  lemma ReceiptRoundTrip<C(!new)>(k: Codec<C>, r: Option<WitnessReceipt>, wire: map<Key, Json>)
    requires FaithfulTexts(k)
    requires ReceiptAt(k, r, wire)
    ensures ReceiptFromWire(k, wire) == Some(r)
  {
    hide FaithfulTexts, BytesText, BytesOf, DigestText, DigestOf, OctetsText, OctetsOf, TimeText, TimeOf, Decimal,
      AsDecimal, Get, Object, OptString, OptInteger, OptionalString, OptionalInteger, OptionalTime, OptionalBytes,
      OptTime, OptBytes;
    TextRoundTrip(k);
  }

  lemma RowGet<C>(k: Codec<C>, row: WitnessState<C>)
    requires RowFits(row)
    ensures RowToWire(k, row).Obj?
    ensures forall key: Key :: !key.OtherKey? ==> Get(RowToWire(k, row).fields, key) == RowField(k, row, key)
  {
    hide RowField, Get, RowFits;
  }

  /** Where each field of a row is written. */
  lemma RowFields<C>(k: Codec<C>, row: WitnessState<C>)
    requires RowFits(row)
    ensures RowToWire(k, row).Obj?
    ensures var wire := RowToWire(k, row).fields;
            && Get(wire, WitnessIdKey) == Str(row.witnessId)
            && Get(wire, CheckpointSizeKey) == Decimal(row.checkpointSize)
            && Get(wire, CheckpointKey) == BytesText(k, row.checkpoint)
            && Get(wire, AttemptsKey) == Num(row.attempts)
            && Get(wire, NextAttemptAtKey) == TimeText(k, row.nextAttemptAt)
            && Get(wire, PermanentKey) == Bool(row.permanent)
            && Get(wire, LastErrorKey) == OptString(row.lastError)
            && ReceiptAt(k, row.receipt, wire)
  {
    hide Get, RowToWire, OptString, OptInteger, TimeText, BytesText, Decimal, OctetsText;
    RowGet(k, row);
  }

  lemma RowRoundTrip<C(!new)>(k: Codec<C>, row: WitnessState<C>)
    requires FaithfulTexts(k) && RowFits(row)
    ensures RowFromWire(k, RowToWire(k, row)) == Some(row)
  {
    hide FaithfulTexts, BytesText, BytesOf, DigestText, DigestOf, OctetsText, OctetsOf, TimeText, TimeOf, Decimal,
      AsDecimal, Get, Object, OptString, OptInteger, OptionalString, OptionalInteger, OptionalTime, OptionalBytes,
      OptTime, OptBytes, ReceiptFromWire, ReceiptAt, RowToWire;
    RowFields(k, row);
    TextRoundTrip(k);
    ReceiptRoundTrip(k, row.receipt, RowToWire(k, row).fields);
  }

  // ---- states -----------------------------------------------------------------------------

  predicate StateFits<C>(v: CllState<C>) {
    && 0 <= v.size < MAX_DECIMAL && 0 <= v.indexedSeq < MAX_DECIMAL
    && (v.firstPendingAt.Some? ==> PortableTime(v.firstPendingAt.value))
    && (v.checkpoint.Some? ==>
          0 <= v.checkpoint.value.size < MAX_DECIMAL && 0 <= v.checkpoint.value.indexedSeq < MAX_DECIMAL)
    && forall i | 0 <= i < |v.witnesses| :: RowFits(v.witnesses[i])
  }

  function HashesToWire<C>(k: Codec<C>, hs: seq<Hash>): Json {
    Arr(seq(|hs|, i requires 0 <= i < |hs| => DigestText(k, hs[i])))
  }

  function HashDecoder<C>(k: Codec<C>): Json -> Option<Hash> {
    j => DigestOf(k, j)
  }

  function RowDecoder<C>(k: Codec<C>): Json -> Option<WitnessState<C>> {
    j => RowFromWire(k, j)
  }

  function RowsToWire<C>(k: Codec<C>, rows: seq<WitnessState<C>>): Json
    requires forall i | 0 <= i < |rows| :: RowFits(rows[i])
  {
    Arr(seq(|rows|, i requires 0 <= i < |rows| => RowToWire(k, rows[i])))
  }

  function CheckpointField<C>(k: Codec<C>, c: CheckpointState<C>, key: Key): Json
    requires c.size >= 0 && c.indexedSeq >= 0
  {
    match key
    case CheckpointKey => BytesText(k, c.bytes)
    case CheckpointSizeKey => Decimal(c.size)
    case CheckpointIndexedSeqKey => Decimal(c.indexedSeq)
    case CheckpointPeaksKey => HashesToWire(k, c.peaks)
    case _ => Null
  }

  function StateField<C>(k: Codec<C>, v: CllState<C>, key: Key): Json
    requires StateFits(v)
  {
    match key
    case SizeKey => Decimal(v.size)
    case IndexedSeqKey => Decimal(v.indexedSeq)
    case NodesKey => HashesToWire(k, v.nodes)
    case FirstPendingAtKey => OptTime(k, v.firstPendingAt)
    case WitnessesKey => RowsToWire(k, v.witnesses)
    case _ => if v.checkpoint.None? then Null else CheckpointField(k, v.checkpoint.value, key)
  }

  function StateToWire<C>(k: Codec<C>, v: CllState<C>): Json
    requires StateFits(v)
  {
    Object((key: Key) => StateField(k, v, key))
  }

  /** All four checkpoint fields or none of them. */
  function CheckpointFromWire<C>(k: Codec<C>, wire: map<Key, Json>): Option<Option<CheckpointState<C>>> {
    if Get(wire, CheckpointKey).Null? && Get(wire, CheckpointSizeKey).Null?
       && Get(wire, CheckpointIndexedSeqKey).Null? && Get(wire, CheckpointPeaksKey).Null?
    then Some(None)
    else if Get(wire, CheckpointKey).Null? || Get(wire, CheckpointSizeKey).Null?
            || Get(wire, CheckpointIndexedSeqKey).Null? || Get(wire, CheckpointPeaksKey).Null?
    then None
    else
      var bytes :- BytesOf(k, Get(wire, CheckpointKey));
      var size :- AsDecimal(Get(wire, CheckpointSizeKey));
      var indexedSeq :- AsDecimal(Get(wire, CheckpointIndexedSeqKey));
      var items :- AsArray(Get(wire, CheckpointPeaksKey));
      var peaks :- All(items, HashDecoder(k));
      Some(Some(CheckpointState(bytes, size, indexedSeq, peaks)))
  }

  function StateFromWire<C>(k: Codec<C>, j: Json): Option<CllState<C>> {
    var wire :- AsObject(j);
    var nodeItems :- AsArray(Get(wire, NodesKey));
    var rowItems :- AsArray(Get(wire, WitnessesKey));
    var checkpoint :- CheckpointFromWire(k, wire);
    var size :- AsDecimal(Get(wire, SizeKey));
    var indexedSeq :- AsDecimal(Get(wire, IndexedSeqKey));
    var nodes :- All(nodeItems, HashDecoder(k));
    var firstPendingAt :- OptionalTime(k, Get(wire, FirstPendingAtKey));
    var witnesses :- All(rowItems, RowDecoder(k));
    Some(CllState(size, nodes, indexedSeq, firstPendingAt, checkpoint, witnesses))
  }

  lemma HashesRoundTrip<C(!new)>(k: Codec<C>, hs: seq<Hash>)
    requires FaithfulTexts(k)
    ensures HashesToWire(k, hs).Arr? && All(HashesToWire(k, hs).items, HashDecoder(k)) == Some(hs)
  {
    hide FaithfulTexts, DigestText, DigestOf;
    TextRoundTrip(k);
    AllOf(hs, HashesToWire(k, hs).items, HashDecoder(k));
  }

  lemma RowsRoundTrip<C(!new)>(k: Codec<C>, rows: seq<WitnessState<C>>)
    requires FaithfulTexts(k) && forall i | 0 <= i < |rows| :: RowFits(rows[i])
    ensures RowsToWire(k, rows).Arr? && All(RowsToWire(k, rows).items, RowDecoder(k)) == Some(rows)
  {
    hide RowToWire, RowFromWire, RowFits;
    forall i | 0 <= i < |rows|
      ensures RowFromWire(k, RowToWire(k, rows[i])) == Some(rows[i])
    {
      RowRoundTrip(k, rows[i]);
    }
    AllOf(rows, RowsToWire(k, rows).items, RowDecoder(k));
  }

  predicate CheckpointAt<C>(k: Codec<C>, c: Option<CheckpointState<C>>, wire: map<Key, Json>)
    requires c.Some? ==> 0 <= c.value.size && 0 <= c.value.indexedSeq
  {
    && Get(wire, CheckpointKey) == (if c.None? then Null else BytesText(k, c.value.bytes))
    && Get(wire, CheckpointSizeKey) == (if c.None? then Null else Decimal(c.value.size))
    && Get(wire, CheckpointIndexedSeqKey) == (if c.None? then Null else Decimal(c.value.indexedSeq))
    && Get(wire, CheckpointPeaksKey) == (if c.None? then Null else HashesToWire(k, c.value.peaks))
  }

  lemma CheckpointRoundTrip<C(!new)>(k: Codec<C>, c: Option<CheckpointState<C>>, wire: map<Key, Json>)
    requires FaithfulTexts(k)
    requires c.Some? ==> 0 <= c.value.size < MAX_DECIMAL && 0 <= c.value.indexedSeq < MAX_DECIMAL
    requires CheckpointAt(k, c, wire)
    ensures CheckpointFromWire(k, wire) == Some(c)
  {
    hide FaithfulTexts, BytesText, BytesOf, DigestText, DigestOf, OctetsText, OctetsOf, TimeText, TimeOf, Decimal,
      AsDecimal, Get, Object, OptString, OptInteger, OptionalString, OptionalInteger, OptionalTime, OptionalBytes,
      OptTime, OptBytes, HashesToWire, HashDecoder;
    TextRoundTrip(k);
    if c.Some? {
      HashesRoundTrip(k, c.value.peaks);
    }
  }

  lemma StateGet<C>(k: Codec<C>, v: CllState<C>)
    requires StateFits(v)
    ensures StateToWire(k, v).Obj?
    ensures forall key: Key :: !key.OtherKey? ==> Get(StateToWire(k, v).fields, key) == StateField(k, v, key)
  {
    hide StateField, Get, StateFits;
  }

  /** Where each field of a state is written. */
  lemma StateFields<C>(k: Codec<C>, v: CllState<C>)
    requires StateFits(v)
    ensures StateToWire(k, v).Obj?
    ensures var wire := StateToWire(k, v).fields;
            && Get(wire, SizeKey) == Decimal(v.size) && Get(wire, IndexedSeqKey) == Decimal(v.indexedSeq)
            && Get(wire, NodesKey) == HashesToWire(k, v.nodes) && Get(wire, WitnessesKey) == RowsToWire(k, v.witnesses)
            && Get(wire, FirstPendingAtKey) == OptTime(k, v.firstPendingAt)
            && CheckpointAt(k, v.checkpoint, wire)
  {
    hide Get, StateToWire, OptTime, BytesText, Decimal, HashesToWire, RowsToWire;
    StateGet(k, v);
  }

  lemma StateRoundTrip<C(!new)>(k: Codec<C>, v: CllState<C>)
    requires FaithfulTexts(k) && StateFits(v)
    ensures StateFromWire(k, StateToWire(k, v)) == Some(v)
  {
    hide FaithfulTexts, BytesText, BytesOf, DigestText, DigestOf, OctetsText, OctetsOf, TimeText, TimeOf, Decimal,
      AsDecimal, Get, Object, OptString, OptInteger, OptionalString, OptionalInteger, OptionalTime, OptionalBytes,
      OptTime, OptBytes, RowFits, RowsToWire, HashesToWire, RowDecoder, HashDecoder, CheckpointFromWire, CheckpointAt,
      StateToWire;
    StateFields(k, v);
    TextRoundTrip(k);
    HashesRoundTrip(k, v.nodes);
    RowsRoundTrip(k, v.witnesses);
    CheckpointRoundTrip(k, v.checkpoint, StateToWire(k, v).fields);
  }

  // ---- journal events -----------------------------------------------------------------------

  datatype JournalEvent<C> =
    | Init
    | EntryAppend(entry: Entry)
    | CllCommit(expectedSize: int, expected: Option<C>, delta: CllState<C>)
    | WitnessCommit(expectedAttempts: int, row: WitnessState<C>)

  const SCHEMA_VERSION := 4

  predicate EventFits<C>(e: JournalEvent<C>) {
    match e
    case Init => true
    case EntryAppend(entry) => 0 <= entry.seqNo < MAX_DECIMAL && PortableTime(entry.appendedAt)
    case CllCommit(size, _, delta) => 0 <= size < MAX_DECIMAL && StateFits(delta)
    case WitnessCommit(attempts, row) => 0 <= attempts <= MAX_ATTEMPTS && RowFits(row)
  }

  function EventField<C>(k: Codec<C>, e: JournalEvent<C>, key: Key): Json
    requires EventFits(e)
  {
    match (key, e)
    case (VersionKey, _) => Num(SCHEMA_VERSION)
    case (TypeKey, Init) => Str("cll.init")
    case (TypeKey, EntryAppend(_)) => Str("entry.append")
    case (EntryKey, EntryAppend(entry)) => EntryToWire(k, entry)
    case (TypeKey, CllCommit(_, _, _)) => Str("cll.commit")
    case (ExpectedSizeKey, CllCommit(size, _, _)) => Decimal(size)
    case (ExpectedCheckpointKey, CllCommit(_, expected, _)) => OptBytes(k, expected)
    case (StateKey, CllCommit(_, _, delta)) => StateToWire(k, delta)
    case (TypeKey, WitnessCommit(_, _)) => Str("witness.commit")
    case (ExpectedAttemptsKey, WitnessCommit(attempts, _)) => Num(attempts)
    case (WitnessKey, WitnessCommit(_, row)) => RowToWire(k, row)
    case _ => Null
  }

  function EventToWire<C>(k: Codec<C>, e: JournalEvent<C>): Json
    requires EventFits(e)
  {
    Object((key: Key) => EventField(k, e, key))
  }

  function EventFromWire<C>(k: Codec<C>, j: Json): Option<JournalEvent<C>> {
    var wire :- AsObject(j);
    var version :- AsInteger(Get(wire, VersionKey));
    var kind :- AsString(Get(wire, TypeKey));
    if version != SCHEMA_VERSION then None
    else if kind == "cll.init" then
      if EntryKey in wire || StateKey in wire || WitnessKey in wire then None else Some(Init)
    else if kind == "entry.append" then
      var entry :- EntryFromWire(k, Get(wire, EntryKey));
      Some(EntryAppend(entry))
    else if kind == "cll.commit" then
      var size :- AsDecimal(Get(wire, ExpectedSizeKey));
      var expected :- OptionalBytes(k, Get(wire, ExpectedCheckpointKey));
      var delta :- StateFromWire(k, Get(wire, StateKey));
      Some(CllCommit(size, expected, delta))
    else if kind == "witness.commit" then
      var attempts :- AsInteger(Get(wire, ExpectedAttemptsKey));
      if !(0 <= attempts <= MAX_ATTEMPTS) then None
      else
        var row :- RowFromWire(k, Get(wire, WitnessKey));
        Some(WitnessCommit(attempts, row))
    else None
  }

  /** The type text of an event. */
  function KindOf<C>(e: JournalEvent<C>): string {
    match e
    case Init => "cll.init"
    case EntryAppend(_) => "entry.append"
    case CllCommit(_, _, _) => "cll.commit"
    case WitnessCommit(_, _) => "witness.commit"
  }

  /** Only the canonical text of a number of 64 bits is read as that number. */
  lemma DecimalSound(j: Json, n: nat)
    ensures AsDecimal(j) == Some(n) <==> j == Decimal(n) && n < MAX_DECIMAL
  {
    hide FormatDecimal, ParseDecimal;
    if j.Str? {
      DecimalRoundTrip(j.s, n);
    }
  }

  // ---- what reading refuses ------------------------------------------------------------------

  ghost predicate TimeSound<C>(k: Codec<C>, j: Json, t: int) {
    j.Str? && k.untime(j.s) == Some(t)
  }

  ghost predicate HashSound<C>(k: Codec<C>, j: Json, h: Hash) {
    j.Str? && k.unhash(j.s) == Some(h)
  }

  ghost predicate NumberSound(j: Json, n: int) {
    0 <= n < MAX_DECIMAL && j == Decimal(n)
  }

  ghost predicate EntrySound<C>(k: Codec<C>, j: Json, e: Entry) {
    && j.Obj? && NumberSound(Get(j.fields, SeqKey), e.seqNo)
    && HashSound(k, Get(j.fields, ValueKey), e.value) && TimeSound(k, Get(j.fields, AppendedAtKey), e.appendedAt)
  }

  ghost predicate ReceiptSound<C>(k: Codec<C>, wire: map<Key, Json>, receipt: Option<WitnessReceipt>) {
    match receipt
    case None =>
      && Get(wire, ReceiptKey).Null? && Get(wire, EntryHashKey).Null? && Get(wire, EntryHashSchemeKey).Null?
      && Get(wire, LeafIndexKey).Null? && Get(wire, TreeSizeKey).Null?
    case Some(r) =>
      && Get(wire, ReceiptKey).Str? && k.unoctets(Get(wire, ReceiptKey).s) == Some(r.bytes)
      && Get(wire, EntryHashKey) == OptString(r.entryHash)
      && Get(wire, EntryHashSchemeKey) == OptString(r.entryHashScheme)
      && Get(wire, LeafIndexKey) == OptInteger(r.leafIndex) && Get(wire, TreeSizeKey) == OptInteger(r.treeSize)
  }

  ghost predicate RowSound<C>(k: Codec<C>, j: Json, row: WitnessState<C>) {
    && j.Obj?
    && var wire := j.fields;
       && Get(wire, WitnessIdKey) == Str(row.witnessId)
       && NumberSound(Get(wire, CheckpointSizeKey), row.checkpointSize)
       && Get(wire, CheckpointKey).Str? && k.unbytes(Get(wire, CheckpointKey).s) == Some(row.checkpoint)
       && Get(wire, AttemptsKey) == Num(row.attempts) && 0 <= row.attempts <= 0xffff_ffff
       && TimeSound(k, Get(wire, NextAttemptAtKey), row.nextAttemptAt)
       && Get(wire, PermanentKey) == Bool(row.permanent) && Get(wire, LastErrorKey) == OptString(row.lastError)
       && ReceiptSound(k, wire, row.receipt)
  }

  ghost predicate HashesSound<C>(k: Codec<C>, j: Json, hs: seq<Hash>) {
    j.Arr? && |j.items| == |hs| && forall i | 0 <= i < |hs| :: HashSound(k, j.items[i], hs[i])
  }

  ghost predicate CheckpointSound<C>(k: Codec<C>, wire: map<Key, Json>, checkpoint: Option<CheckpointState<C>>) {
    match checkpoint
    case None =>
      && Get(wire, CheckpointKey).Null? && Get(wire, CheckpointSizeKey).Null?
      && Get(wire, CheckpointIndexedSeqKey).Null? && Get(wire, CheckpointPeaksKey).Null?
    case Some(c) =>
      && Get(wire, CheckpointKey).Str? && k.unbytes(Get(wire, CheckpointKey).s) == Some(c.bytes)
      && NumberSound(Get(wire, CheckpointSizeKey), c.size)
      && NumberSound(Get(wire, CheckpointIndexedSeqKey), c.indexedSeq)
      && HashesSound(k, Get(wire, CheckpointPeaksKey), c.peaks)
  }

  ghost predicate StateSound<C>(k: Codec<C>, j: Json, v: CllState<C>) {
    && j.Obj?
    && var wire := j.fields;
       && NumberSound(Get(wire, SizeKey), v.size) && NumberSound(Get(wire, IndexedSeqKey), v.indexedSeq)
       && HashesSound(k, Get(wire, NodesKey), v.nodes)
       && (if v.firstPendingAt.None? then Get(wire, FirstPendingAtKey).Null?
           else TimeSound(k, Get(wire, FirstPendingAtKey), v.firstPendingAt.value))
       && CheckpointSound(k, wire, v.checkpoint)
       && Get(wire, WitnessesKey).Arr? && |Get(wire, WitnessesKey).items| == |v.witnesses|
       && forall i | 0 <= i < |v.witnesses| :: RowSound(k, Get(wire, WitnessesKey).items[i], v.witnesses[i])
  }

  lemma {:induction false} AllSound<T>(items: seq<Json>, decode: Json -> Option<T>, i: nat)
    requires All(items, decode).Some? && i < |items|
    ensures decode(items[i]) == Some(All(items, decode).value[i])
  {
    if i > 0 {
      AllSound(items[1..], decode, i - 1);
    }
  }

  lemma HashesAreSound<C>(k: Codec<C>, j: Json, hs: seq<Hash>)
    requires j.Arr? && All(j.items, HashDecoder(k)) == Some(hs)
    ensures HashesSound(k, j, hs)
  {
    hide All;
    forall i: nat | i < |hs|
      ensures HashSound(k, j.items[i], hs[i])
    {
      AllSound(j.items, HashDecoder(k), i);
    }
  }

  lemma EntryIsSound<C>(k: Codec<C>, j: Json, e: Entry)
    requires EntryFromWire(k, j) == Some(e)
    ensures EntrySound(k, j, e)
  {
    hide ParseDecimal, FormatDecimal;
    DecimalSound(Get(j.fields, SeqKey), e.seqNo);
  }

  lemma RowIsSound<C>(k: Codec<C>, j: Json, row: WitnessState<C>)
    requires RowFromWire(k, j) == Some(row)
    ensures RowSound(k, j, row)
  {
    hide AsDecimal, Decimal, Get;
    DecimalSound(Get(j.fields, CheckpointSizeKey), row.checkpointSize);
  }

  lemma CheckpointIsSound<C>(k: Codec<C>, wire: map<Key, Json>, checkpoint: Option<CheckpointState<C>>)
    requires CheckpointFromWire(k, wire) == Some(checkpoint)
    ensures CheckpointSound(k, wire, checkpoint)
  {
    hide AsDecimal, Decimal, Get, All, HashesSound, HashDecoder;
    if checkpoint.Some? {
      DecimalSound(Get(wire, CheckpointSizeKey), checkpoint.value.size);
      DecimalSound(Get(wire, CheckpointIndexedSeqKey), checkpoint.value.indexedSeq);
      HashesAreSound(k, Get(wire, CheckpointPeaksKey), checkpoint.value.peaks);
    }
  }

  lemma StateIsSound<C>(k: Codec<C>, j: Json, v: CllState<C>)
    requires StateFromWire(k, j) == Some(v)
    ensures StateSound(k, j, v)
  {
    hide AsDecimal, Decimal, Get, All, HashesSound, HashDecoder, CheckpointFromWire, CheckpointSound, RowFromWire,
      RowSound;
    var wire := j.fields;
    DecimalSound(Get(wire, SizeKey), v.size);
    DecimalSound(Get(wire, IndexedSeqKey), v.indexedSeq);
    HashesAreSound(k, Get(wire, NodesKey), v.nodes);
    CheckpointIsSound(k, wire, v.checkpoint);
    forall i: nat | i < |v.witnesses|
      ensures RowSound(k, Get(wire, WitnessesKey).items[i], v.witnesses[i])
    {
      AllSound(Get(wire, WitnessesKey).items, RowDecoder(k), i);
      RowIsSound(k, Get(wire, WitnessesKey).items[i], v.witnesses[i]);
    }
  }

  /**
    What reading refuses: an event is read only from an object of schema version 4
    with that event's type and mandatory fields, each of which reads as its value.
  */
  lemma EventSound<C>(k: Codec<C>, j: Json, e: JournalEvent<C>)
    requires EventFromWire(k, j) == Some(e)
    ensures j.Obj? && VersionKey in j.fields && TypeKey in j.fields
    ensures j.fields[VersionKey] == Num(4) && j.fields[TypeKey] == Str(KindOf(e))
    ensures match e
            case Init => EntryKey !in j.fields && StateKey !in j.fields && WitnessKey !in j.fields
            case EntryAppend(entry) => EntrySound(k, Get(j.fields, EntryKey), entry)
            case CllCommit(size, expected, delta) =>
              && NumberSound(Get(j.fields, ExpectedSizeKey), size)
              && StateSound(k, Get(j.fields, StateKey), delta)
              && var j' := Get(j.fields, ExpectedCheckpointKey);
                 if expected.None? then j' == Null else j'.Str? && k.unbytes(j'.s) == expected
            case WitnessCommit(attempts, row) =>
              && Get(j.fields, ExpectedAttemptsKey) == Num(attempts) && 0 <= attempts <= 0xffff_ffff
              && RowSound(k, Get(j.fields, WitnessKey), row)
  {
    hide StateFromWire, RowFromWire, EntryFromWire, FormatDecimal, ParseDecimal, StateSound, RowSound, EntrySound;
    var wire := j.fields;
    match e
    case Init =>
    case EntryAppend(entry) => EntryIsSound(k, Get(wire, EntryKey), entry);
    case CllCommit(size, _, delta) =>
      DecimalSound(Get(wire, ExpectedSizeKey), size);
      StateIsSound(k, Get(wire, StateKey), delta);
    case WitnessCommit(_, row) => RowIsSound(k, Get(wire, WitnessKey), row);
  }

  /** Every event within the 64-bit ranges reads back as it was written. */
  lemma EventRoundTrip<C(!new)>(k: Codec<C>, e: JournalEvent<C>)
    requires FaithfulTexts(k) && EventFits(e)
    ensures EventFromWire(k, EventToWire(k, e)) == Some(e)
  {
    hide FaithfulTexts, BytesText, BytesOf, DigestText, DigestOf, OctetsText, OctetsOf, TimeText, TimeOf, Decimal,
      AsDecimal, Get, Object, OptString, OptInteger, OptionalString, OptionalInteger, OptionalTime, OptionalBytes,
      OptTime, OptBytes, EntryToWire, EntryFromWire, StateToWire, StateFromWire, RowToWire, RowFromWire, StateFits,
      RowFits;
    TextRoundTrip(k);
    match e
    case Init =>
    case EntryAppend(entry) => EntryRoundTrip(k, entry);
    case CllCommit(size, expected, delta) => StateRoundTrip(k, delta);
    case WitnessCommit(attempts, row) => RowRoundTrip(k, row);
  }
}
