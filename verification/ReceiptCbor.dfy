// The encoding rule for witness receipts: the decoder that builds a value, the
// walk that only checks bytes, and the encoder both are measured against.

module ReceiptEncoding {
  import opened Wrappers
  import opened Bytes
  import opened CborHeads
  import opened Parsing

  const MAX_DEPTH := 16

  datatype Item =
    | Num(n: int)
    | Bool(b: bool)
    | Null
    | Blob(bytes: seq<byte>)
    | Text(t: seq<byte>)
    | Array(items: seq<Item>)
    | Map(entries: seq<Pair>)
    | Sign1(item: Item)  // tag 18

  datatype Pair = Pair(key: Item, value: Item)

  predicate IsLabel(v: Item) {
    v.Num? || v.Text?
  }

  predicate DistinctLabels(entries: seq<Pair>) {
    forall i, j | 0 <= i < j < |entries| :: entries[i].key != entries[j].key
  }

  /** The rule, on values. */
  predicate Obeys(v: Item, depth: nat, topTag: bool) {
    depth <= MAX_DEPTH &&
    match v
    case Num(n) => -0x8000_0000_0000_0000 <= n < MAX_ARGUMENT
    case Bool(_) => true
    case Null => true
    case Blob(b) => |b| < MAX_ARGUMENT
    case Text(t) => |t| < MAX_ARGUMENT && Utf8(t)
    case Array(items) => |items| < MAX_ARGUMENT && forall i | 0 <= i < |items| :: Obeys(items[i], depth + 1, false)
    case Map(entries) =>
      && |entries| < MAX_ARGUMENT && DistinctLabels(entries)
      && forall i | 0 <= i < |entries| ::
           && IsLabel(entries[i].key) && Obeys(entries[i].key, depth + 1, false)
           && Obeys(entries[i].value, depth + 1, false)
    case Sign1(item) => depth == 0 && topTag && Obeys(item, 1, false)
  }

  /** Shortest heads, definite lengths, entries in the order given. */
  function Encode(v: Item, depth: nat, topTag: bool): (s: seq<byte>)
    requires Obeys(v, depth, topTag)
    decreases v, 1
  {
    match v
    case Num(n) => if n >= 0 then Head(0, n) else Head(1, -1 - n)
    case Bool(b) => if b then [0xF5] else [0xF4]
    case Null => [0xF6]
    case Blob(b) => Head(2, |b|) + b
    case Text(t) => Head(3, |t|) + t
    case Array(items) => Head(4, |items|) + Flatten(ItemEncodings(v, depth))
    case Map(entries) => Head(5, |entries|) + Flatten(PairEncodings(v, depth))
    case Sign1(item) => Head(6, 18) + Encode(item, 1, false)
  }

  function ItemEncodings(v: Item, depth: nat): (es: seq<seq<byte>>)
    requires v.Array? && Obeys(v, depth, false)
    decreases v, 0
  {
    seq(|v.items|, i requires 0 <= i < |v.items| => Encode(v.items[i], depth + 1, false))
  }

  function PairEncodings(v: Item, depth: nat): (es: seq<seq<byte>>)
    requires v.Map? && Obeys(v, depth, false)
    decreases v, 0
  {
    seq(|v.entries|, i requires 0 <= i < |v.entries| =>
      Encode(v.entries[i].key, depth + 1, false) + Encode(v.entries[i].value, depth + 1, false))
  }

  // ---- decoding ----------------------------------------------------------------------

  function Parse(s: seq<byte>, depth: nat, topTag: bool): (r: Parsed<Item>)
    ensures r.Some? ==> |r.value.1| < |s| && IsTail(s, r.value.1)
    decreases |s|, 0
  {
    hide ReadHead, IsTail;
    TailAfter(s, 1);
    if depth > MAX_DEPTH || s == [] then None
    else if s[0] / 32 == 7 then
      if s[0] == 0xF4 then Some((Bool(false), s[1..]))
      else if s[0] == 0xF5 then Some((Bool(true), s[1..]))
      else if s[0] == 0xF6 then Some((Null, s[1..]))
      else None
    else
      var h :- ReadHead(s);
      TailAfter(s, h.size);
      var r := ParseBody(h.major, h.argument, s[h.size..], depth, topTag);
      if r.Some? then
        TailOfTail(s, s[h.size..], r.value.1);
        TailLength(s[h.size..], r.value.1);
        r
      else None
  }

  /** What follows a head. */
  function ParseBody(major: nat, n: nat, t: seq<byte>, depth: nat, topTag: bool): (r: Parsed<Item>)
    ensures r.Some? ==> IsTail(t, r.value.1)
    decreases |t|, 2
  {
    if major == 0 then Some((Num(n), t))
    else if major == 1 then if n >= 0x8000_0000_0000_0000 then None else Some((Num(-1 - n), t))
    else if major == 2 then if n > |t| then None else Some((Blob(t[..n]), t[n..]))
    else if major == 3 then if n > |t| || !Utf8(t[..n]) then None else Some((Text(t[..n]), t[n..]))
    else if major == 6 then
      if !(depth == 0 && topTag && n == 18) then None
      else
        var (item, rest) :- Parse(t, depth + 1, false);
        Some((Sign1(item), rest))
    else if n > |t| then None
    else if major == 4 then
      var (items, rest) :- ParseItems(t, n, depth + 1);
      Some((Array(items), rest))
    else
      var (entries, rest) :- ParsePairs(t, n, {}, depth + 1);
      Some((Map(entries), rest))
  }

  function ParseItems(s: seq<byte>, n: nat, depth: nat): (r: Parsed<seq<Item>>)
    ensures r.Some? ==> IsTail(s, r.value.1)
    decreases |s|, 1
  {
    if n == 0 then Some(([], s))
    else
      var (first, t) :- Parse(s, depth, false);
      var (others, rest) :- ParseItems(t, n - 1, depth);
      Some(([first] + others, rest))
  }

  /** Entries whose keys are labels not among `seen`. */
  function ParsePairs(s: seq<byte>, n: nat, seen: set<Item>, depth: nat): (r: Parsed<seq<Pair>>)
    ensures r.Some? ==> IsTail(s, r.value.1)
    decreases |s|, 1
  {
    hide Parse, IsLabel, IsTail;
    TailSelf(s);
    if n == 0 then Some(([], s))
    else
      var (key, t) :- Parse(s, depth, false);
      if !IsLabel(key) || key in seen then None
      else
        var (value, u) :- Parse(t, depth, false);
        var (others, rest) :- ParsePairs(u, n - 1, seen + {key}, depth);
        TailOfTail(s, t, u);
        TailOfTail(s, u, rest);
        Some(([Pair(key, value)] + others, rest))
  }

  /** `decodeReceiptItem`: one item and nothing after it. */
  function DecodeItem(data: seq<byte>, topTag: bool): Option<Item> {
    var (v, rest) :- Parse(data, 0, topTag);
    if rest == [] then Some(v) else None
  }

  // ---- decoding undoes encoding ---------------------------------------------------------

  lemma ParseHead(major: nat, n: nat, t: seq<byte>, depth: nat, topTag: bool)
    requires major < 7 && n < MAX_ARGUMENT && depth <= MAX_DEPTH
    ensures Parse(Head(major, n) + t, depth, topTag) == ParseBody(major, n, t, depth, topTag)
  {
    hide ReadHead, ParseBody;
    HeadReads(major, n, t);
    FirstByte(major, n);
    var s := Head(major, n) + t;
    assert s[0] == Head(major, n)[0];
    assert s[|Head(major, n)|..] == t;
  }

  lemma FirstByte(major: nat, n: nat)
    requires major < 8 && n < MAX_ARGUMENT
    ensures Head(major, n)[0] / 32 == major
  {
  }

  /** An item reads back from its encoding, whatever follows it. */
  ghost predicate ReadsBack(e: seq<byte>, v: Item, depth: nat, topTag: bool) {
    e != [] && forall r :: Parse(e + r, depth, topTag) == Some((v, r))
  }

  lemma {:induction false} ItemsReadBack(items: seq<Item>, es: seq<seq<byte>>, depth: nat, rest: seq<byte>)
    requires |es| == |items| && forall i | 0 <= i < |items| :: ReadsBack(es[i], items[i], depth, false)
    ensures ParseItems(Flatten(es) + rest, |items|, depth) == Some((items, rest))
    ensures |items| <= |Flatten(es)|
  {
    hide Parse;
    if items != [] {
      ItemsReadBack(items[1..], es[1..], depth, rest);
      assert ReadsBack(es[0], items[0], depth, false);
      assert Flatten(es) + rest == es[0] + (Flatten(es[1..]) + rest);
      assert [items[0]] + items[1..] == items;
    } else {
      assert Flatten(es) + rest == rest;
    }
  }

  /** Encodings of entries, as parts that read back. */
  ghost predicate PairsReadBack(entries: seq<Pair>, ks: seq<seq<byte>>, vs: seq<seq<byte>>, depth: nat) {
    && |ks| == |vs| == |entries|
    && forall i | 0 <= i < |entries| ::
         && IsLabel(entries[i].key)
         && ReadsBack(ks[i], entries[i].key, depth, false) && ReadsBack(vs[i], entries[i].value, depth, false)
  }

  function Joined(ks: seq<seq<byte>>, vs: seq<seq<byte>>): (es: seq<seq<byte>>)
    requires |ks| == |vs|
    ensures |es| == |ks| && forall i :: 0 <= i < |es| ==> es[i] == ks[i] + vs[i]
  {
    seq(|ks|, i requires 0 <= i < |ks| => ks[i] + vs[i])
  }

  lemma NoPairs(s: seq<byte>, seen: set<Item>, depth: nat)
    ensures ParsePairs(s, 0, seen, depth) == Some(([], s))
  {
  }

  lemma PairStep(p: Pair, k: seq<byte>, v: seq<byte>, u: seq<byte>, n: nat, seen: set<Item>, depth: nat)
    requires n > 0 && IsLabel(p.key) && p.key !in seen
    requires ReadsBack(k, p.key, depth, false) && ReadsBack(v, p.value, depth, false)
    ensures k != [] && var others := ParsePairs(u, n - 1, seen + {p.key}, depth);
            ParsePairs(k + (v + u), n, seen, depth) ==
            if others.None? then None else Some(([p] + others.value.0, others.value.1))
  {
    hide Parse, IsLabel;
  }

  lemma {:induction false} EntriesReadBack(entries: seq<Pair>, ks: seq<seq<byte>>, vs: seq<seq<byte>>,
                                           seen: set<Item>, depth: nat, rest: seq<byte>)
    requires PairsReadBack(entries, ks, vs, depth) && DistinctLabels(entries)
    requires forall i | 0 <= i < |entries| :: entries[i].key !in seen
    ensures ParsePairs(Flatten(Joined(ks, vs)) + rest, |entries|, seen, depth) == Some((entries, rest))
    ensures |entries| <= |Flatten(Joined(ks, vs))|
  {
    hide Parse, ParsePairs, ReadsBack, IsLabel, Joined;
    var es := Joined(ks, vs);
    if entries != [] {
      var first, others := entries[0], entries[1..];
      assert es[1..] == Joined(ks[1..], vs[1..]);
      EntriesReadBack(others, ks[1..], vs[1..], seen + {first.key}, depth, rest);
      var u := Flatten(es[1..]) + rest;
      assert Flatten(es) + rest == ks[0] + (vs[0] + u);
      PairStep(first, ks[0], vs[0], u, |entries|, seen, depth);
      assert [first] + others == entries;
    } else {
      NoPairs(rest, seen, depth);
      assert Flatten(es) + rest == rest;
    }
  }

  lemma {:induction false} EncodeReadsBack(v: Item, depth: nat, topTag: bool)
    requires Obeys(v, depth, topTag)
    ensures ReadsBack(Encode(v, depth, topTag), v, depth, topTag)
    decreases v
  {
    hide Parse, ParseItems, ParsePairs, Head, Utf8, Flatten;
    var e := Encode(v, depth, topTag);
    if v.Array? {
      forall i | 0 <= i < |v.items|
        ensures ReadsBack(ItemEncodings(v, depth)[i], v.items[i], depth + 1, false)
      {
        EncodeReadsBack(v.items[i], depth + 1, false);
      }
    } else if v.Map? {
      forall i | 0 <= i < |v.entries|
        ensures ReadsBack(Encode(v.entries[i].key, depth + 1, false), v.entries[i].key, depth + 1, false)
        ensures ReadsBack(Encode(v.entries[i].value, depth + 1, false), v.entries[i].value, depth + 1, false)
      {
        EncodeReadsBack(v.entries[i].key, depth + 1, false);
        EncodeReadsBack(v.entries[i].value, depth + 1, false);
      }
    } else if v.Sign1? {
      EncodeReadsBack(v.item, 1, false);
    }
    forall r
      ensures Parse(e + r, depth, topTag) == Some((v, r))
    {
      EncodeParses(v, depth, topTag, r);
    }
  }

  /** The same for one continuation, given that the parts read back. */
  lemma EncodeParses(v: Item, depth: nat, topTag: bool, r: seq<byte>)
    requires Obeys(v, depth, topTag)
    requires v.Array? ==>
               forall i | 0 <= i < |v.items| :: ReadsBack(ItemEncodings(v, depth)[i], v.items[i], depth + 1, false)
    requires v.Map? ==> forall i | 0 <= i < |v.entries| ::
                          && ReadsBack(Encode(v.entries[i].key, depth + 1, false), v.entries[i].key, depth + 1, false)
                          && ReadsBack(Encode(v.entries[i].value, depth + 1, false), v.entries[i].value, depth + 1,
                            false)
    requires v.Sign1? ==> ReadsBack(Encode(v.item, 1, false), v.item, 1, false)
    ensures Encode(v, depth, topTag) != []
    ensures Parse(Encode(v, depth, topTag) + r, depth, topTag) == Some((v, r))
  {
    hide Parse, ParseBody, Head, Utf8, Flatten, Joined, ItemEncodings, PairEncodings, ReadsBack;
    match v
    case Num(n) => NumberParses(n, r, depth, topTag);
    case Bool(_) => SimpleParses(r, depth, topTag);
    case Null => SimpleParses(r, depth, topTag);
    case Blob(b) => StringParses(2, b, r, depth, topTag);
    case Text(t) => StringParses(3, t, r, depth, topTag);
    case Array(_) => ArrayParses(v, depth, topTag, r);
    case Map(_) => MapParses(v, depth, topTag, r);
    case Sign1(item) => TagParses(item, Encode(item, 1, false), r);
  }

  lemma NumberParses(n: int, r: seq<byte>, depth: nat, topTag: bool)
    requires -0x8000_0000_0000_0000 <= n < MAX_ARGUMENT && depth <= MAX_DEPTH
    ensures Parse((if n >= 0 then Head(0, n) else Head(1, -1 - n)) + r, depth, topTag) == Some((Num(n), r))
  {
    hide Parse, ParseItems, ParsePairs, Head;
    ParseHead(if n >= 0 then 0 else 1, if n >= 0 then n else -1 - n, r, depth, topTag);
  }

  lemma TagParses(item: Item, e: seq<byte>, r: seq<byte>)
    requires ReadsBack(e, item, 1, false)
    ensures Parse(Head(6, 18) + e + r, 0, true) == Some((Sign1(item), r))
  {
    hide Parse, ParseItems, ParsePairs, Head, Utf8;
    ParseHead(6, 18, e + r, 0, true);
    assert Head(6, 18) + e + r == Head(6, 18) + (e + r);
  }

  lemma ArrayParses(v: Item, depth: nat, topTag: bool, r: seq<byte>)
    requires v.Array? && Obeys(v, depth, topTag)
    requires forall i | 0 <= i < |v.items| :: ReadsBack(ItemEncodings(v, depth)[i], v.items[i], depth + 1, false)
    ensures Parse(Encode(v, depth, topTag) + r, depth, topTag) == Some((v, r))
  {
    hide Parse, ParseItems, ParsePairs, Head, Utf8, Flatten, ReadsBack;
    var es := ItemEncodings(v, depth);
    ItemsReadBack(v.items, es, depth + 1, r);
    ParseHead(4, |v.items|, Flatten(es) + r, depth, topTag);
    assert Encode(v, depth, topTag) + r == Head(4, |v.items|) + (Flatten(es) + r);
  }

  lemma SimpleParses(r: seq<byte>, depth: nat, topTag: bool)
    requires depth <= MAX_DEPTH
    ensures Parse([0xF4] + r, depth, topTag) == Some((Bool(false), r))
    ensures Parse([0xF5] + r, depth, topTag) == Some((Bool(true), r))
    ensures Parse([0xF6] + r, depth, topTag) == Some((Null, r))
  {
    hide ReadHead, ParseBody;
    assert ([0xF4] + r)[1..] == r && ([0xF5] + r)[1..] == r && ([0xF6] + r)[1..] == r;
  }

  lemma StringParses(major: nat, b: seq<byte>, r: seq<byte>, depth: nat, topTag: bool)
    requires (major == 2 || major == 3) && |b| < MAX_ARGUMENT && depth <= MAX_DEPTH
    requires major == 3 ==> Utf8(b)
    ensures Parse(Head(major, |b|) + b + r, depth, topTag) == Some((if major == 2 then Blob(b) else Text(b), r))
  {
    hide Parse, ParseItems, ParsePairs, Head, Utf8;
    ParseHead(major, |b|, b + r, depth, topTag);
    assert Head(major, |b|) + b + r == Head(major, |b|) + (b + r);
    assert (b + r)[..|b|] == b && (b + r)[|b|..] == r;
  }

  lemma MapParses(v: Item, depth: nat, topTag: bool, r: seq<byte>)
    requires v.Map? && Obeys(v, depth, topTag)
    requires forall i | 0 <= i < |v.entries| ::
               && ReadsBack(Encode(v.entries[i].key, depth + 1, false), v.entries[i].key, depth + 1, false)
               && ReadsBack(Encode(v.entries[i].value, depth + 1, false), v.entries[i].value, depth + 1, false)
    ensures Parse(Encode(v, depth, topTag) + r, depth, topTag) == Some((v, r))
  {
    hide Parse, ParseItems, ParsePairs, Head, Utf8, Flatten, Joined, ReadsBack, ItemEncodings;
    var entries := v.entries;
    var ks := seq(|entries|, i requires 0 <= i < |entries| => Encode(entries[i].key, depth + 1, false));
    var vs := seq(|entries|, i requires 0 <= i < |entries| => Encode(entries[i].value, depth + 1, false));
    assert PairEncodings(v, depth) == Joined(ks, vs);
    EntriesReadBack(entries, ks, vs, {}, depth + 1, r);
    ParseHead(5, |entries|, Flatten(Joined(ks, vs)) + r, depth, topTag);
    assert Encode(v, depth, topTag) + r == Head(5, |entries|) + (Flatten(Joined(ks, vs)) + r);
  }

  // ---- only encodings decode ---------------------------------------------------------------

  ghost predicate AreItems(items: seq<Item>, es: seq<seq<byte>>, depth: nat) {
    && |es| == |items|
    && forall i | 0 <= i < |items| :: Obeys(items[i], depth, false) && es[i] == Encode(items[i], depth, false)
  }

  ghost predicate ArePairs(entries: seq<Pair>, es: seq<seq<byte>>, depth: nat) {
    && |es| == |entries|
    && forall i | 0 <= i < |entries| ::
         var p := entries[i];
         && IsLabel(p.key) && Obeys(p.key, depth, false) && Obeys(p.value, depth, false)
         && es[i] == Encode(p.key, depth, false) + Encode(p.value, depth, false)
  }

  lemma {:induction false} ParseSound(s: seq<byte>, depth: nat, topTag: bool)
    requires Parse(s, depth, topTag).Some?
    ensures var (v, rest) := Parse(s, depth, topTag).value;
            Obeys(v, depth, topTag) && s == Encode(v, depth, topTag) + rest
    decreases |s|, 0
  {
    hide ReadHead, ParseBody, Head, Utf8, Flatten, ItemEncodings, PairEncodings;
    if s[0] / 32 == 7 {
      assert s == [s[0]] + s[1..];
    } else {
      HeadIsShortest(s);
      MajorOf(s);
      var h := ReadHead(s).value;
      var t := s[h.size..];
      BodySound(h.major, h.argument, t, depth, topTag);
      assert s == Head(h.major, h.argument) + t;
    }
  }

  lemma MajorOf(s: seq<byte>)
    requires ReadHead(s).Some?
    ensures ReadHead(s).value.major == s[0] / 32
  {
    hide FromBytes;
  }

  lemma {:induction false} BodySound(major: nat, n: nat, t: seq<byte>, depth: nat, topTag: bool)
    requires major < 7 && n < MAX_ARGUMENT && depth <= MAX_DEPTH
    requires ParseBody(major, n, t, depth, topTag).Some?
    ensures var (v, rest) := ParseBody(major, n, t, depth, topTag).value;
            Obeys(v, depth, topTag) && Head(major, n) + t == Encode(v, depth, topTag) + rest
    decreases |t|, 2
  {
    hide Parse, ParseItems, ParsePairs, Head, Utf8, Flatten, ItemEncodings, PairEncodings, AreItems, ArePairs,
      DistinctLabels, IsTail;
    if major == 2 || major == 3 {
      assert t == t[..n] + t[n..];
    } else if major == 4 {
      var es := ItemsSound(t, n, depth + 1);
      ArrayOf(ParseItems(t, n, depth + 1).value.0, es, depth, topTag);
    } else if major == 5 {
      var es := PairsSound(t, n, {}, depth + 1);
      MapOf(ParsePairs(t, n, {}, depth + 1).value.0, es, depth, topTag);
    } else if major == 6 {
      ParseSound(t, 1, false);
    }
  }

  lemma ArrayOf(items: seq<Item>, es: seq<seq<byte>>, depth: nat, topTag: bool)
    requires AreItems(items, es, depth + 1) && |items| < MAX_ARGUMENT && depth <= MAX_DEPTH
    ensures Obeys(Array(items), depth, topTag)
    ensures Encode(Array(items), depth, topTag) == Head(4, |items|) + Flatten(es)
  {
    hide Head, Flatten;
    assert es == ItemEncodings(Array(items), depth);
  }

  lemma MapOf(entries: seq<Pair>, es: seq<seq<byte>>, depth: nat, topTag: bool)
    requires ArePairs(entries, es, depth + 1) && DistinctLabels(entries)
    requires |entries| < MAX_ARGUMENT && depth <= MAX_DEPTH
    ensures Obeys(Map(entries), depth, topTag)
    ensures Encode(Map(entries), depth, topTag) == Head(5, |entries|) + Flatten(es)
  {
    hide Head, Flatten, IsLabel;
    assert es == PairEncodings(Map(entries), depth);
  }

  lemma {:induction false} ItemsSound(s: seq<byte>, n: nat, depth: nat) returns (es: seq<seq<byte>>)
    requires ParseItems(s, n, depth).Some?
    ensures var (items, rest) := ParseItems(s, n, depth).value;
            AreItems(items, es, depth) && |items| == n && s == Flatten(es) + rest
    decreases |s|, 1
  {
    hide Parse, Encode, Obeys, Flatten, AreItems, IsTail;
    if n == 0 {
      es := [];
      Nothing(s, depth);
    } else {
      ParseSound(s, depth, false);
      var (first, t) := Parse(s, depth, false).value;
      var others := ItemsSound(t, n - 1, depth);
      es := [Encode(first, depth, false)] + others;
      FlattenCons(Encode(first, depth, false), others);
      MoreItems(first, ParseItems(t, n - 1, depth).value.0, others, depth);
    }
  }

  lemma {:induction false} PairsSound(s: seq<byte>, n: nat, seen: set<Item>, depth: nat) returns (es: seq<seq<byte>>)
    requires ParsePairs(s, n, seen, depth).Some?
    ensures var (entries, rest) := ParsePairs(s, n, seen, depth).value;
            && ArePairs(entries, es, depth) && |entries| == n && s == Flatten(es) + rest
            && DistinctLabels(entries) && forall p <- entries :: p.key !in seen
    decreases |s|, 1
  {
    hide Parse, Encode, Obeys, Flatten, ArePairs, IsTail, IsLabel;
    if n == 0 {
      es := [];
      Nothing(s, depth);
    } else {
      ParseSound(s, depth, false);
      var (key, t) := Parse(s, depth, false).value;
      ParseSound(t, depth, false);
      var (value, u) := Parse(t, depth, false).value;
      var others := PairsSound(u, n - 1, seen + {key}, depth);
      var e := Encode(key, depth, false) + Encode(value, depth, false);
      es := [e] + others;
      FlattenCons(e, others);
      MorePairs(Pair(key, value), ParsePairs(u, n - 1, seen + {key}, depth).value.0, others, depth);
    }
  }

  lemma Nothing(s: seq<byte>, depth: nat)
    ensures AreItems([], [], depth) && ArePairs([], [], depth) && s == Flatten([]) + s
  {
  }

  lemma MoreItems(first: Item, others: seq<Item>, es: seq<seq<byte>>, depth: nat)
    requires Obeys(first, depth, false) && AreItems(others, es, depth)
    ensures AreItems([first] + others, [Encode(first, depth, false)] + es, depth)
  {
    hide Encode, Obeys;
  }

  lemma MorePairs(first: Pair, others: seq<Pair>, es: seq<seq<byte>>, depth: nat)
    requires IsLabel(first.key) && Obeys(first.key, depth, false) && Obeys(first.value, depth, false)
    requires ArePairs(others, es, depth) && DistinctLabels(others) && forall p <- others :: p.key != first.key
    ensures var encoded := Encode(first.key, depth, false) + Encode(first.value, depth, false);
            ArePairs([first] + others, [encoded] + es, depth)
    ensures DistinctLabels([first] + others)
  {
    hide Encode, Obeys, IsLabel;
    var all := [first] + others;
    forall i, j | 0 <= i < j < |all|
      ensures all[i].key != all[j].key
    {
      assert all[j] in others;
    }
  }

  /** The decoder accepts exactly the encodings of values that obey the rule, and undoes them. */
  lemma DecodeExact(data: seq<byte>, topTag: bool, v: Item)
    ensures DecodeItem(data, topTag) == Some(v) <==> Obeys(v, 0, topTag) && Encode(v, 0, topTag) == data
  {
    hide Parse, Encode, Obeys;
    if Parse(data, 0, topTag).Some? {
      ParseSound(data, 0, topTag);
    }
    if Obeys(v, 0, topTag) {
      EncodeReadsBack(v, 0, topTag);
      assert Parse(Encode(v, 0, topTag) + [], 0, topTag) == Some((v, []));
      assert Encode(v, 0, topTag) + [] == Encode(v, 0, topTag);
    }
  }

  // ---- the walk that checks bytes only ---------------------------------------------------------

  /** The tail after one item that obeys the rule. */
  function Walk(s: seq<byte>, depth: nat, topTag: bool): (r: Option<seq<byte>>)
    ensures r.Some? ==> |r.value| < |s| && IsTail(s, r.value)
    decreases |s|, 0
  {
    if depth > MAX_DEPTH || s == [] then None
    else if s[0] / 32 == 7 then if 20 <= s[0] % 32 <= 22 then Some(s[1..]) else None
    else
      var h :- ReadHead(s);
      WalkBody(h.major, h.argument, s[h.size..], depth, topTag)
  }

  function WalkBody(major: nat, n: nat, t: seq<byte>, depth: nat, topTag: bool): (r: Option<seq<byte>>)
    ensures r.Some? ==> IsTail(t, r.value)
    decreases |t|, 2
  {
    if major == 0 then Some(t)
    else if major == 1 then if n >= 0x8000_0000_0000_0000 then None else Some(t)
    else if major == 2 || major == 3 then
      if n > |t| || (major == 3 && !Utf8(t[..n])) then None else Some(t[n..])
    else if major == 6 then
      if !(depth == 0 && topTag && n == 18) then None else Walk(t, depth + 1, false)
    else if n > |t| then None
    else if major == 4 then WalkItems(t, n, depth + 1)
    else WalkPairs(t, n, {}, depth + 1)
  }

  function WalkItems(s: seq<byte>, n: nat, depth: nat): (r: Option<seq<byte>>)
    ensures r.Some? ==> IsTail(s, r.value)
    decreases |s|, 1
  {
    if n == 0 then Some(s)
    else
      var t :- Walk(s, depth, false);
      WalkItems(t, n - 1, depth)
  }

  /** Keys are told apart by their bytes. */
  function WalkPairs(s: seq<byte>, n: nat, seen: set<seq<byte>>, depth: nat): (r: Option<seq<byte>>)
    ensures r.Some? ==> IsTail(s, r.value)
    decreases |s|, 1
  {
    if n == 0 then Some(s)
    else if s == [] || !(s[0] / 32 in {0, 1, 3}) then None
    else
      var t :- Walk(s, depth, false);
      var keyBytes := s[..|s| - |t|];
      if keyBytes in seen then None
      else
        var u :- Walk(t, depth, false);
        WalkPairs(u, n - 1, seen + {keyBytes}, depth)
  }

  function TailOf<T>(p: Parsed<T>): Option<seq<byte>> {
    if p.None? then None else Some(p.value.1)
  }

  /** The byte walk accepts exactly what the decoder accepts, and ends where it ends. */
  lemma {:induction false} WalkIsParse(s: seq<byte>, depth: nat, topTag: bool)
    ensures Walk(s, depth, topTag) == TailOf(Parse(s, depth, topTag))
    decreases |s|, 0
  {
    hide ReadHead, ParseBody, WalkBody;
    if depth <= MAX_DEPTH && s != [] && s[0] / 32 != 7 && ReadHead(s).Some? {
      var h := ReadHead(s).value;
      WalkBodyIsParse(h.major, h.argument, s[h.size..], depth, topTag);
    }
  }

  lemma {:induction false} WalkBodyIsParse(major: nat, n: nat, t: seq<byte>, depth: nat, topTag: bool)
    ensures WalkBody(major, n, t, depth, topTag) == TailOf(ParseBody(major, n, t, depth, topTag))
    decreases |t|, 2
  {
    hide Parse, ParseItems, ParsePairs, Walk, WalkItems, WalkPairs, Utf8;
    if major == 6 {
      WalkIsParse(t, depth + 1, false);
    } else if major == 4 {
      WalkItemsIsParse(t, n, depth + 1);
    } else if major > 4 {
      WalkPairsIsParse(t, n, {}, {}, depth + 1);
    }
  }

  lemma {:induction false} WalkItemsIsParse(s: seq<byte>, n: nat, depth: nat)
    ensures WalkItems(s, n, depth) == TailOf(ParseItems(s, n, depth))
    decreases |s|, 1
  {
    hide Parse, Walk;
    if n > 0 {
      WalkIsParse(s, depth, false);
      if Walk(s, depth, false).Some? {
        WalkItemsIsParse(Walk(s, depth, false).value, n - 1, depth);
      }
    }
  }

  /** The same keys, as values and as bytes. */
  ghost predicate SameKeys(seen: set<Item>, bytes: set<seq<byte>>, depth: nat) {
    && (forall k <- seen :: Obeys(k, depth, false) && Encode(k, depth, false) in bytes)
    && (forall b <- bytes :: exists k <- seen :: Obeys(k, depth, false) && b == Encode(k, depth, false))
  }

  /** One turn of the loop over entries. */
  lemma PairCases(s: seq<byte>, n: nat, seen: set<Item>, depth: nat)
    requires n > 0
    ensures ParsePairs(s, n, seen, depth) ==
            var p := Parse(s, depth, false);
            if p.None? || !IsLabel(p.value.0) || p.value.0 in seen then None
            else
              var x := Parse(p.value.1, depth, false);
              if x.None? then None
              else
                var others := ParsePairs(x.value.1, n - 1, seen + {p.value.0}, depth);
                if others.None? then None
                else Some(([Pair(p.value.0, x.value.0)] + others.value.0, others.value.1))
  {
    hide Parse, IsLabel;
  }

  /** The same for the walk. */
  lemma WalkCases(s: seq<byte>, n: nat, seen: set<seq<byte>>, depth: nat)
    requires n > 0
    ensures WalkPairs(s, n, seen, depth) ==
            if s == [] || !(s[0] / 32 in {0, 1, 3}) then None
            else
              var t := Walk(s, depth, false);
              if t.None? || s[..|s| - |t.value|] in seen then None
              else
                var u := Walk(t.value, depth, false);
                if u.None? then None else WalkPairs(u.value, n - 1, seen + {s[..|s| - |t.value|]}, depth)
  {
    hide Walk;
  }

  lemma {:induction false} WalkPairsIsParse(s: seq<byte>, n: nat, seen: set<Item>, bytes: set<seq<byte>>, depth: nat)
    requires SameKeys(seen, bytes, depth)
    ensures WalkPairs(s, n, bytes, depth) == TailOf(ParsePairs(s, n, seen, depth))
    decreases |s|, 1
  {
    hide Parse, Walk, Obeys, Encode, SameKeys, IsLabel, ParsePairs, WalkPairs;
    if n == 0 {
      NoPairs(s, seen, depth);
      NoPairsWalked(s, bytes, depth);
    } else {
      PairCases(s, n, seen, depth);
      WalkCases(s, n, bytes, depth);
      WalkIsParse(s, depth, false);
      var p := Parse(s, depth, false);
      if p.Some? {
        var (key, t) := p.value;
        LabelByte(s, depth);
        KeyBytes(s, seen, bytes, depth);
        WalkIsParse(t, depth, false);
        var x := Parse(t, depth, false);
        if x.Some? {
          WalkPairsIsParse(x.value.1, n - 1, seen + {key}, bytes + {s[..|s| - |t|]}, depth);
        }
      }
    }
  }

  lemma NoPairsWalked(s: seq<byte>, bytes: set<seq<byte>>, depth: nat)
    ensures WalkPairs(s, 0, bytes, depth) == Some(s)
  {
  }

  /** A key is a label exactly when its first byte says so. */
  lemma LabelByte(s: seq<byte>, depth: nat)
    requires Parse(s, depth, false).Some?
    ensures IsLabel(Parse(s, depth, false).value.0) <==> s[0] / 32 in {0, 1, 3}
  {
    hide ReadHead, ParseItems, ParsePairs, Utf8;
    if s[0] / 32 != 7 {
      MajorOf(s);
      HeadIsShortest(s);
    }
  }

  /** Equal keys have equal bytes, and only those. */
  lemma KeyBytes(s: seq<byte>, seen: set<Item>, bytes: set<seq<byte>>, depth: nat)
    requires Parse(s, depth, false).Some? && SameKeys(seen, bytes, depth)
    ensures var (key, t) := Parse(s, depth, false).value;
            var e := s[..|s| - |t|];
            && (key in seen <==> e in bytes)
            && SameKeys(seen + {key}, bytes + {e}, depth)
  {
    hide Parse, Obeys, Encode;
    ParseSound(s, depth, false);
    var (key, t) := Parse(s, depth, false).value;
    var e := s[..|s| - |t|];
    assert e == Encode(key, depth, false);
    forall k <- seen | Obeys(k, depth, false) && Encode(k, depth, false) == e
      ensures k == key
    {
      EncodeReadsBack(k, depth, false);
      EncodeReadsBack(key, depth, false);
      assert Parse(e + [], depth, false) == Some((k, []));
      assert Parse(e + [], depth, false) == Some((key, []));
    }
  }
}

module ReceiptDecoder {
  import opened Wrappers
  import opened Bytes
  import opened CborHeads
  import opened Parsing
  import opened ReceiptEncoding

  /** `decodeReceiptItem`: a decoder that advances one offset through the data. */
  class ItemDecoder {
    const data: seq<byte>
    const topTag: bool
    var offset: nat

    constructor (data: seq<byte>, topTag: bool)
      ensures this.data == data && this.topTag == topTag && offset == 0
    {
      this.data := data;
      this.topTag := topTag;
      offset := 0;
    }

    function Rest(): seq<byte>
      requires offset <= |data|
      reads this
    {
      data[offset..]
    }

    method Decode() returns (r: Option<Item>)
      requires offset == 0
      modifies this
      ensures r == DecodeItem(data, topTag)
    {
      hide Parse;
      assert Rest() == data;
      var value := ReadItem(0);
      if value.None? || offset != |data| {
        return None;
      }
      return value;
    }

    method ReadItem(depth: nat) returns (r: Option<Item>)
      requires offset <= |data|
      modifies this
      ensures offset <= |data|
      ensures var p := Parse(old(Rest()), depth, depth == 0 && topTag);
              if p.None? then r.None? else r == Some(p.value.0) && Rest() == p.value.1 && offset > old(offset)
      decreases |data| - offset, 2
    {
      hide ReadHead, ParseBody;
      ghost var s := Rest();
      if depth > MAX_DEPTH || offset == |data| {
        return None;
      }
      var first := data[offset];
      if first / 32 == 7 {
        offset := offset + 1;
        assert Rest() == s[1..];
        match first % 32 {
          case 20 => return Some(Bool(false));
          case 21 => return Some(Bool(true));
          case 22 => return Some(Null);
          case _ => return None;
        }
      }
      var length := Argument();
      if length.None? {
        return None;
      }
      r := ReadBody(first / 32, length.value, depth);
    }

    /** The argument of the head at the offset: bytes gathered one by one, and only its shortest form. */
    method Argument() returns (r: Option<nat>)
      requires offset < |data|
      modifies this
      ensures offset <= |data|
      ensures var h := ReadHead(old(Rest()));
              if h.None? then r.None?
              else
                && r == Some(h.value.argument) && h.value.major == data[old(offset)] / 32
                && Rest() == old(Rest())[h.value.size..] && offset > old(offset)
    {
      hide FromBytes;
      ghost var s := Rest();
      NoBytes();
      var add := data[offset] % 32;
      offset := offset + 1;
      if add < 24 {
        assert Rest() == s[1..];
        return Some(add);
      }
      if add > 27 {
        return None;
      }
      var width := Width(add);
      var value := 0;
      assert s[1..1] == [];
      for i := 0 to width
        invariant offset == old(offset) + 1 + i <= |data|
        invariant value == FromBytes(s[1..1 + i])
      {
        if offset == |data| {
          return None;
        }
        assert s[1..1 + i + 1] == s[1..1 + i] + [data[offset]];
        FromBytesSnoc(s[1..1 + i], data[offset]);
        value := value * 256 + data[offset];
        offset := offset + 1;
      }
      if value < Smallest(add) {
        return None;
      }
      assert Rest() == s[1 + width..];
      return Some(value);
    }

    method ReadBody(major: nat, n: nat, depth: nat) returns (r: Option<Item>)
      requires offset <= |data| && major < 7
      modifies this
      ensures offset <= |data|
      ensures var p := ParseBody(major, n, old(Rest()), depth, depth == 0 && topTag);
              if p.None? then r.None? else r == Some(p.value.0) && Rest() == p.value.1 && offset >= old(offset)
      decreases |data| - offset, 4
    {
      hide Parse, ParseItems, ParsePairs, Utf8;
      ghost var t := Rest();
      match major {
        case 0 => return Some(Num(n));
        case 1 =>
          if -1 - n < -0x8000_0000_0000_0000 {
            return None;
          }
          return Some(Num(-1 - n));
        case 2 =>
          var b := Take(n);
          if b.None? {
            return None;
          }
          return Some(Blob(b.value));
        case 3 =>
          var b := Take(n);
          if b.None? || !Utf8(b.value) {
            return None;
          }
          return Some(Text(b.value));
        case 6 =>
          if !(depth == 0 && topTag && n == 18) {
            return None;
          }
          var item := ReadItem(depth + 1);
          if item.None? {
            return None;
          }
          return Some(Sign1(item.value));
        case _ =>
      }
      if n > |data| - offset {
        return None;
      }
      if major == 4 {
        var items := ReadItems(n, depth + 1);
        if items.None? {
          return None;
        }
        return Some(Array(items.value));
      }
      var entries := ReadPairs(n, depth + 1);
      if entries.None? {
        return None;
      }
      return Some(Map(entries.value));
    }

    method Take(length: nat) returns (r: Option<seq<byte>>)
      requires offset <= |data|
      modifies this
      ensures offset <= |data|
      ensures var t := old(Rest());
              if length > |t| then r.None? && offset == old(offset)
              else r == Some(t[..length]) && Rest() == t[length..] && offset >= old(offset)
    {
      if offset + length > |data| {
        return None;
      }
      ghost var t := Rest();
      var value := data[offset..offset + length];
      assert value == t[..length];
      offset := offset + length;
      assert Rest() == t[length..];
      return Some(value);
    }

    method ReadItems(n: nat, depth: nat) returns (r: Option<seq<Item>>)
      requires offset <= |data| && depth > 0
      modifies this
      ensures offset <= |data|
      ensures var p := ParseItems(old(Rest()), n, depth);
              if p.None? then r.None? else r == Some(p.value.0) && Rest() == p.value.1 && offset >= old(offset)
      decreases |data| - offset, 3
    {
      hide Parse, ParseItems;
      ghost var p := ParseItems(Rest(), n, depth);
      var out: seq<Item> := [];
      AfterNone(p);
      for i := 0 to n
        invariant old(offset) <= offset <= |data|
        invariant p == After(out, ParseItems(Rest(), n - i, depth))
      {
        ItemCases(Rest(), n - i, depth);
        var item := ReadItem(depth);
        if item.None? {
          return None;
        }
        AfterStep(out, item.value, ParseItems(Rest(), n - i - 1, depth));
        out := out + [item.value];
      }
      NoItems(Rest(), depth);
      assert out + [] == out;
      return Some(out);
    }

    method ReadPairs(n: nat, depth: nat) returns (r: Option<seq<Pair>>)
      requires offset <= |data| && depth > 0
      modifies this
      ensures offset <= |data|
      ensures var p := ParsePairs(old(Rest()), n, {}, depth);
              if p.None? then r.None? else r == Some(p.value.0) && Rest() == p.value.1 && offset >= old(offset)
      decreases |data| - offset, 3
    {
      hide Parse, ParsePairs, IsLabel;
      ghost var p := ParsePairs(Rest(), n, {}, depth);
      var entries: seq<Pair> := [];
      var keys: set<Item> := {};
      AfterNone(p);
      for i := 0 to n
        invariant old(offset) <= offset <= |data|
        invariant p == After(entries, ParsePairs(Rest(), n - i, keys, depth))
      {
        PairCases(Rest(), n - i, keys, depth);
        var key := ReadItem(depth);
        if key.None? || !IsLabel(key.value) || key.value in keys {
          return None;
        }
        var value := ReadItem(depth);
        if value.None? {
          return None;
        }
        keys := keys + {key.value};
        AfterStep(entries, Pair(key.value, value.value), ParsePairs(Rest(), n - i - 1, keys, depth));
        entries := entries + [Pair(key.value, value.value)];
      }
      NoPairs(Rest(), keys, depth);
      assert entries + [] == entries;
      return Some(entries);
    }
  }

  lemma NoItems(s: seq<byte>, depth: nat)
    ensures ParseItems(s, 0, depth) == Some(([], s))
  {
  }

  lemma ItemCases(s: seq<byte>, n: nat, depth: nat)
    requires n > 0
    ensures ParseItems(s, n, depth) ==
            var p := Parse(s, depth, false);
            if p.None? then None
            else
              var others := ParseItems(p.value.1, n - 1, depth);
              if others.None? then None else Some(([p.value.0] + others.value.0, others.value.1))
  {
    hide Parse;
  }
}

/** `_receipt_walk`: the check on bytes alone, by offsets. */
module ReceiptWalker {
  import opened Wrappers
  import opened Bytes
  import opened CborHeads
  import opened ReceiptEncoding

  /** A tail of `data` as an offset. */
  function Offset(data: seq<byte>, rest: Option<seq<byte>>): Option<int> {
    if rest.None? then None else Some(|data| - |rest.value|)
  }

  /** Accepts exactly the byte strings that the decoder accepts. */
  method ReceiptItem(data: seq<byte>, topTag: bool) returns (ok: bool)
    ensures ok <==> DecodeItem(data, topTag).Some?
  {
    hide Parse, Walk;
    var end := ReceiptWalk(data, 0, 0, topTag);
    assert data[0..] == data;
    WalkIsParse(data, 0, topTag);
    return end == Some(|data|);
  }

  method ReceiptWalk(data: seq<byte>, start: nat, depth: nat, topTag: bool) returns (r: Option<nat>)
    requires start <= |data|
    ensures r == Offset(data, Walk(data[start..], depth, topTag))
    decreases |data| - start, 2
  {
    hide WalkItems, WalkPairs, Utf8;
    if depth > MAX_DEPTH || start == |data| {
      return None;
    }
    ghost var s := data[start..];
    var major, info := data[start] / 32, data[start] % 32;
    if major == 7 {
      if info == 20 || info == 21 || info == 22 {
        return Some(start + 1);
      }
      return None;
    }
    if info > 27 {
      return None;
    }
    var arg, i := info, start + 1;
    if info >= 24 {
      var width := Width(info);
      if start + 1 + width > |data| {
        return None;
      }
      arg := FromBytes(data[start + 1..start + 1 + width]);
      assert data[start + 1..start + 1 + width] == s[1..1 + width];
      if arg < Smallest(info) {
        return None;
      }
      i := start + 1 + width;
    }
    assert ReadHead(s) == Some(HeadInfo(major, arg, i - start)) && s[i - start..] == data[i..];
    r := WalkArgument(data, i, major, arg, depth, topTag);
  }

  method WalkArgument(data: seq<byte>, i: nat, major: nat, arg: nat, depth: nat, topTag: bool) returns (r: Option<nat>)
    requires i <= |data| && major < 7
    ensures r == Offset(data, WalkBody(major, arg, data[i..], depth, topTag))
    decreases |data| - i, 4
  {
    hide Walk, WalkItems, WalkPairs, Utf8;
    ghost var t := data[i..];
    if major == 0 {
      return Some(i);
    }
    if major == 1 {
      if arg >= 0x8000_0000_0000_0000 {
        return None;
      }
      return Some(i);
    }
    if major == 2 || major == 3 {
      if i + arg > |data| {
        return None;
      }
      assert t[..arg] == data[i..i + arg];
      if major == 3 && !Utf8(data[i..i + arg]) {
        return None;
      }
      return Some(i + arg);
    }
    if major == 6 {
      if !(depth == 0 && topTag && arg == 18) {
        return None;
      }
      r := ReceiptWalk(data, i, depth + 1, false);
      return;
    }
    if arg > |data| - i {
      return None;
    }
    if major == 4 {
      r := WalkElements(data, i, arg, depth + 1);
      return;
    }
    r := WalkEntries(data, i, arg, depth + 1);
  }

  method WalkElements(data: seq<byte>, start: nat, n: nat, depth: nat) returns (r: Option<nat>)
    requires start <= |data|
    ensures r == Offset(data, WalkItems(data[start..], n, depth))
    decreases |data| - start, 3
  {
    hide Walk;
    var i := start;
    for j := 0 to n
      invariant start <= i <= |data|
      invariant WalkItems(data[start..], n, depth) == WalkItems(data[i..], n - j, depth)
    {
      var next := ReceiptWalk(data, i, depth, false);
      if next.None? {
        return None;
      }
      TailAt(data, i, depth);
      i := next.value;
    }
    return Some(i);
  }

  method WalkEntries(data: seq<byte>, start: nat, n: nat, depth: nat) returns (r: Option<nat>)
    requires start <= |data|
    ensures r == Offset(data, WalkPairs(data[start..], n, {}, depth))
    decreases |data| - start, 3
  {
    hide Walk, WalkPairs;
    var i := start;
    var keys: set<seq<byte>> := {};
    for j := 0 to n
      invariant start <= i <= |data|
      invariant WalkPairs(data[start..], n, {}, depth) == WalkPairs(data[i..], n - j, keys, depth)
    {
      WalkCases(data[i..], n - j, keys, depth);
      if i == |data| || !(data[i] / 32 in {0, 1, 3}) {
        return None;
      }
      var end := ReceiptWalk(data, i, depth, false);
      if end.None? {
        return None;
      }
      TailAt(data, i, depth);
      if data[i..end.value] in keys {
        return None;
      }
      var next := ReceiptWalk(data, end.value, depth, false);
      if next.None? {
        return None;
      }
      TailAt(data, end.value, depth);
      keys := keys + {data[i..end.value]};
      i := next.value;
    }
    NoPairsWalked(data[i..], keys, depth);
    return Some(i);
  }

  lemma TailAt(data: seq<byte>, i: nat, depth: nat)
    requires i <= |data|
    ensures var rest := Walk(data[i..], depth, false);
            rest.Some? ==>
              var at := |data| - |rest.value|;
              i < at <= |data| && data[at..] == rest.value && data[i..at] == data[i..][..|data[i..]| - |rest.value|]
  {
    hide Walk;
  }
}
