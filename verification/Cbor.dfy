// CBOR: heads in shortest form, deterministic encoding (section 4.2.1 of RFC
// 8949), and the encoding rule for witness receipts.

module Bytes {
  type byte = b: int | 0 <= b < 256

  function Pow256(w: nat): (r: nat)
    ensures r > 0
  {
    if w == 0 then 1 else 256 * Pow256(w - 1)
  }

  /** Big-endian, `w` bytes. */
  function ToBytes(n: nat, w: nat): (s: seq<byte>)
    ensures |s| == w
  {
    if w == 0 then [] else ToBytes(n / 256, w - 1) + [n % 256]
  }

  function FromBytes(s: seq<byte>): (n: nat) {
    if s == [] then 0 else FromBytes(s[..|s| - 1]) * 256 + s[|s| - 1]
  }

  lemma NoBytes()
    ensures FromBytes([]) == 0
  {
  }

  lemma FromBytesSnoc(s: seq<byte>, b: byte)
    ensures FromBytes(s + [b]) == FromBytes(s) * 256 + b
  {
    assert (s + [b])[..|s|] == s;
  }

  lemma {:induction false} FromToBytes(n: nat, w: nat)
    requires n < Pow256(w)
    ensures FromBytes(ToBytes(n, w)) == n
  {
    if w > 0 {
      FromToBytes(n / 256, w - 1);
      assert ToBytes(n, w)[..w - 1] == ToBytes(n / 256, w - 1);
    }
  }

  lemma {:induction false} ToFromBytes(s: seq<byte>)
    ensures FromBytes(s) < Pow256(|s|) && ToBytes(FromBytes(s), |s|) == s
  {
    if s != [] {
      var t := s[..|s| - 1];
      ToFromBytes(t);
      assert s == t + [s[|s| - 1]];
      assert FromBytes(s) / 256 == FromBytes(t) && FromBytes(s) % 256 == s[|s| - 1];
    }
  }

  // ---- bytewise lexicographic order ------------------------------------------------

  predicate Less(a: seq<byte>, b: seq<byte>) {
    b != [] && (a == [] || a[0] < b[0] || (a[0] == b[0] && Less(a[1..], b[1..])))
  }

  lemma {:induction false} LessIrreflexive(a: seq<byte>)
    ensures !Less(a, a)
  {
    if a != [] {
      LessIrreflexive(a[1..]);
    }
  }

  lemma {:induction false} LessTransitive(a: seq<byte>, b: seq<byte>, c: seq<byte>)
    requires Less(a, b) && Less(b, c)
    ensures Less(a, c)
  {
    if a != [] && a[0] == b[0] && b[0] == c[0] {
      LessTransitive(a[1..], b[1..], c[1..]);
    }
  }

  lemma {:induction false} LessTotal(a: seq<byte>, b: seq<byte>)
    ensures Less(a, b) || Less(b, a) || a == b
  {
    if a != [] && b != [] && a[0] == b[0] {
      LessTotal(a[1..], b[1..]);
      assert a == [a[0]] + a[1..] && b == [b[0]] + b[1..];
    }
  }

  /** The first place where they differ decides, or the shorter one comes first. */
  lemma {:induction false} LessMeaning(a: seq<byte>, b: seq<byte>)
    ensures Less(a, b) <==>
            exists n: nat | n <= |a| && n < |b| :: a[..n] == b[..n] && (n == |a| || a[n] < b[n])
  {
    if a == [] {
      if b != [] {
        assert a[..0] == b[..0];
      }
    } else if b != [] {
      LessMeaning(a[1..], b[1..]);
      if a[0] == b[0] && Less(a[1..], b[1..]) {
        var n: nat :| n <= |a| - 1 && n < |b| - 1 && a[1..][..n] == b[1..][..n]
                      && (n == |a| - 1 || a[1..][n] < b[1..][n]);
        assert a[..n + 1] == [a[0]] + a[1..][..n] && b[..n + 1] == [b[0]] + b[1..][..n];
      } else if a[0] < b[0] {
        assert a[..0] == b[..0];
      }
      if n: nat :| n <= |a| && n < |b| && a[..n] == b[..n] && (n == |a| || a[n] < b[n]) {
        if n > 0 {
          assert a[0] == a[..n][0] == b[..n][0] == b[0];
          assert a[1..][..n - 1] == a[..n][1..] && b[1..][..n - 1] == b[..n][1..];
        }
      }
    }
  }

  // ---- UTF-8 (section 4 of RFC 3629) --------------------------------------------------

  predicate Tail(s: seq<byte>, i: nat) {
    i < |s| && 0x80 <= s[i] <= 0xBF
  }

  /** Length of the well-formed character at the start, or 0. */
  function CharLength(s: seq<byte>): (n: nat)
    ensures n <= |s|
  {
    if s == [] then 0
    else if s[0] <= 0x7F then 1
    else if 0xC2 <= s[0] <= 0xDF && Tail(s, 1) then 2
    else if 0xE0 <= s[0] <= 0xEF && Tail(s, 1) && Tail(s, 2)
            && (s[0] == 0xE0 ==> s[1] >= 0xA0) && (s[0] == 0xED ==> s[1] <= 0x9F) then 3
    else if 0xF0 <= s[0] <= 0xF4 && Tail(s, 1) && Tail(s, 2) && Tail(s, 3)
            && (s[0] == 0xF0 ==> s[1] >= 0x90) && (s[0] == 0xF4 ==> s[1] <= 0x8F) then 4
    else 0
  }

  predicate Utf8(s: seq<byte>) {
    s == [] || (CharLength(s) > 0 && Utf8(s[CharLength(s)..]))
  }
}

/** What UTF-8 is, by arithmetic on Unicode scalar values (section 3 of RFC 3629). */
module Unicode {
  import opened Bytes

  /** A code point that is no surrogate. */
  predicate Scalar(c: nat) {
    c < 0x110000 && !(0xD800 <= c < 0xE000)
  }

  function EncodeScalar(c: nat): (s: seq<byte>)
    requires Scalar(c)
    ensures |s| > 0
  {
    if c < 0x80 then [c]
    else if c < 0x800 then [0xC0 + c / 0x40, 0x80 + c % 0x40]
    else if c < 0x1_0000 then [0xE0 + c / 0x1000, 0x80 + c / 0x40 % 0x40, 0x80 + c % 0x40]
    else [0xF0 + c / 0x4_0000, 0x80 + c / 0x1000 % 0x40, 0x80 + c / 0x40 % 0x40, 0x80 + c % 0x40]
  }

  predicate AllScalars(cs: seq<nat>) {
    forall i | 0 <= i < |cs| :: Scalar(cs[i])
  }

  function EncodeScalars(cs: seq<nat>): seq<byte>
    requires AllScalars(cs)
  {
    if cs == [] then [] else EncodeScalar(cs[0]) + EncodeScalars(cs[1..])
  }

  /** An encoded scalar value is one well-formed character, whatever follows. */
  lemma EncodedChar(c: nat, rest: seq<byte>)
    requires Scalar(c)
    ensures CharLength(EncodeScalar(c) + rest) == |EncodeScalar(c)|
  {
    var e := EncodeScalar(c);
    var s := e + rest;
    assert s[0] == e[0];
    if |e| > 1 {
      assert s[1] == e[1];
    }
    if |e| > 2 {
      assert s[2] == e[2];
    }
    if |e| > 3 {
      assert s[3] == e[3];
    }
  }

  /** The scalar value of the well-formed character at the start. */
  function ScalarAt(s: seq<byte>): nat
    requires CharLength(s) > 0
  {
    var n := CharLength(s);
    if n == 1 then s[0]
    else if n == 2 then (s[0] as int - 0xC0) * 0x40 + (s[1] as int - 0x80)
    else if n == 3 then (s[0] as int - 0xE0) * 0x1000 + (s[1] as int - 0x80) * 0x40 + (s[2] as int - 0x80)
    else
      (s[0] as int - 0xF0) * 0x4_0000 + (s[1] as int - 0x80) * 0x1000 + (s[2] as int - 0x80) * 0x40
      + (s[3] as int - 0x80)
  }

  /** A well-formed character is the encoding of its scalar value. */
  lemma CharIsEncoded(s: seq<byte>)
    requires CharLength(s) > 0
    ensures Scalar(ScalarAt(s)) && s[..CharLength(s)] == EncodeScalar(ScalarAt(s))
  {
    hide EncodeScalar;
    var n := CharLength(s);
    if n == 1 {
      assert s[..1] == [s[0]];
      OneByte(s[0]);
    } else if n == 2 {
      assert s[..2] == [s[0], s[1]];
      TwoBytes(s[0], s[1]);
    } else if n == 3 {
      assert s[..3] == [s[0], s[1], s[2]];
      ThreeBytes(s[0], s[1], s[2]);
    } else {
      assert s[..4] == [s[0], s[1], s[2], s[3]];
      FourBytes(s[0], s[1], s[2], s[3]);
    }
  }

  lemma OneByte(a: byte)
    requires a <= 0x7F
    ensures EncodeScalar(a) == [a]
  {
  }

  lemma TwoBytes(a: byte, b: byte)
    requires 0xC2 <= a <= 0xDF && 0x80 <= b <= 0xBF
    ensures EncodeScalar((a as int - 0xC0) * 0x40 + (b as int - 0x80)) == [a, b]
  {
  }

  lemma ThreeBytes(a: byte, b: byte, c: byte)
    requires 0xE0 <= a <= 0xEF && 0x80 <= b <= 0xBF && 0x80 <= c <= 0xBF
    requires (a == 0xE0 ==> b >= 0xA0) && (a == 0xED ==> b <= 0x9F)
    ensures var n := (a as int - 0xE0) * 0x1000 + (b as int - 0x80) * 0x40 + (c as int - 0x80);
            Scalar(n) && EncodeScalar(n) == [a, b, c]
  {
    var n := (a as int - 0xE0) * 0x1000 + (b as int - 0x80) * 0x40 + (c as int - 0x80);
    assert n / 0x40 == (a as int - 0xE0) * 0x40 + (b as int - 0x80);
  }

  lemma FourBytes(a: byte, b: byte, c: byte, d: byte)
    requires 0xF0 <= a <= 0xF4 && 0x80 <= b <= 0xBF && 0x80 <= c <= 0xBF && 0x80 <= d <= 0xBF
    requires (a == 0xF0 ==> b >= 0x90) && (a == 0xF4 ==> b <= 0x8F)
    ensures var n := (a as int - 0xF0) * 0x4_0000 + (b as int - 0x80) * 0x1000 + (c as int - 0x80) * 0x40
                     + (d as int - 0x80);
            Scalar(n) && EncodeScalar(n) == [a, b, c, d]
  {
    var n := (a as int - 0xF0) * 0x4_0000 + (b as int - 0x80) * 0x1000 + (c as int - 0x80) * 0x40 + (d as int - 0x80);
    assert n / 0x40 == (a as int - 0xF0) * 0x1000 + (b as int - 0x80) * 0x40 + (c as int - 0x80);
    assert n / 0x1000 == (a as int - 0xF0) * 0x40 + (b as int - 0x80);
  }

  lemma {:induction false} EncodedIsUtf8(cs: seq<nat>)
    requires AllScalars(cs)
    ensures Utf8(EncodeScalars(cs))
  {
    hide CharLength, EncodeScalar, Scalar;
    if cs != [] {
      var e, rest := EncodeScalar(cs[0]), EncodeScalars(cs[1..]);
      EncodedIsUtf8(cs[1..]);
      EncodedChar(cs[0], rest);
      assert (e + rest)[|e|..] == rest;
    }
  }

  /** The scalar values of a well-formed text. */
  lemma {:induction false} Utf8IsEncoded(s: seq<byte>) returns (cs: seq<nat>)
    requires Utf8(s)
    ensures AllScalars(cs) && s == EncodeScalars(cs)
    decreases |s|
  {
    hide CharLength, EncodeScalar, Scalar, ScalarAt;
    if s == [] {
      cs := [];
    } else {
      var n, c := CharLength(s), ScalarAt(s);
      CharIsEncoded(s);
      var rest := Utf8IsEncoded(s[n..]);
      cs := [c] + rest;
      assert cs[1..] == rest && s == s[..n] + s[n..];
    }
  }

  /** Well-formed texts are exactly the encodings of scalar values. */
  lemma Utf8Exact(s: seq<byte>)
    ensures Utf8(s) <==> exists cs :: AllScalars(cs) && s == EncodeScalars(cs)
  {
    if Utf8(s) {
      var cs := Utf8IsEncoded(s);
    }
    if cs :| AllScalars(cs) && s == EncodeScalars(cs) {
      EncodedIsUtf8(cs);
    }
  }

  /** Different texts have different encodings. */
  lemma {:induction false} EncodingInjective(a: seq<nat>, b: seq<nat>)
    requires AllScalars(a) && AllScalars(b) && EncodeScalars(a) == EncodeScalars(b)
    ensures a == b
  {
    hide CharLength, EncodeScalar, Scalar, ScalarAt;
    if a != [] && b != [] {
      var s := EncodeScalars(a);
      EncodedChar(a[0], EncodeScalars(a[1..]));
      EncodedChar(b[0], EncodeScalars(b[1..]));
      var n := CharLength(s);
      assert s[..n] == EncodeScalar(a[0]) && s[..n] == EncodeScalar(b[0]);
      assert s[n..] == EncodeScalars(a[1..]) && s[n..] == EncodeScalars(b[1..]);
      ScalarInjective(a[0], b[0]);
      EncodingInjective(a[1..], b[1..]);
      assert a == [a[0]] + a[1..] && b == [b[0]] + b[1..];
    }
  }

  lemma ScalarInjective(c: nat, d: nat)
    requires Scalar(c) && Scalar(d) && EncodeScalar(c) == EncodeScalar(d)
    ensures c == d
  {
    var s := EncodeScalar(c);
    if |s| == 2 {
      var n := (s[0] as int - 0xC0) * 0x40 + (s[1] as int - 0x80);
      assert c == n && d == n;
    } else if |s| == 3 {
      ThreeParts(c);
      ThreeParts(d);
    } else if |s| == 4 {
      FourParts(c);
      FourParts(d);
    }
  }

  lemma ThreeParts(c: nat)
    ensures c == c / 0x1000 * 0x1000 + c / 0x40 % 0x40 * 0x40 + c % 0x40
  {
    assert c / 0x40 / 0x40 == c / 0x1000;
  }

  lemma FourParts(c: nat)
    ensures c == c / 0x4_0000 * 0x4_0000 + c / 0x1000 % 0x40 * 0x1000 + c / 0x40 % 0x40 * 0x40 + c % 0x40
  {
    ThreeParts(c);
    assert c / 0x1000 / 0x40 == c / 0x4_0000;
  }
}

module CborHeads {
  import opened Wrappers
  import opened Bytes

  const MAX_ARGUMENT := 0x1_0000_0000_0000_0000  // 2^64

  /** Bytes of argument that follow additional information 24 to 27. */
  function Width(info: nat): (w: nat)
    requires 24 <= info <= 27
    ensures w > 0
  {
    if info == 24 then 1 else if info == 25 then 2 else if info == 26 then 4 else 8
  }

  /** The smallest argument that needs them. */
  function Smallest(info: nat): nat
    requires 24 <= info <= 27
  {
    if info == 24 then 24 else if info == 25 then 0x100 else if info == 26 then 0x1_0000 else 0x1_0000_0000
  }

  lemma Widths()
    ensures Pow256(1) == 0x100 && Pow256(2) == 0x1_0000 && Pow256(4) == 0x1_0000_0000 && Pow256(8) == MAX_ARGUMENT
  {
    assert Pow256(3) == 0x100_0000 && Pow256(5) == 0x100_0000_0000;
    assert Pow256(6) == 0x1_0000_0000_0000 && Pow256(7) == 0x100_0000_0000_0000;
  }

  function InfoOf(n: nat): (info: nat)
    requires n < MAX_ARGUMENT
    ensures info < 28
  {
    if n < 24 then n else if n < 0x100 then 24 else if n < 0x1_0000 then 25 else if n < 0x1_0000_0000 then 26 else 27
  }

  /** A head in its shortest form. */
  function Head(major: nat, n: nat): (s: seq<byte>)
    requires major < 8 && n < MAX_ARGUMENT
    ensures |s| > 0
  {
    var info := InfoOf(n);
    [major * 32 + info] + if n < 24 then [] else ToBytes(n, Width(info))
  }

  datatype HeadInfo = HeadInfo(major: nat, argument: nat, size: nat)

  /** The head at the start of `s`, if it is complete, definite and in its shortest form. */
  function ReadHead(s: seq<byte>): (r: Option<HeadInfo>)
    ensures r.Some? ==> 0 < r.value.size <= |s| && r.value.major < 8
  {
    if s == [] then None
    else
      var major, info := s[0] / 32, s[0] % 32;
      if info < 24 then Some(HeadInfo(major, info, 1))
      else if info > 27 || 1 + Width(info) > |s| then None
      else
        var n := FromBytes(s[1..1 + Width(info)]);
        if n < Smallest(info) then None else Some(HeadInfo(major, n, 1 + Width(info)))
  }

  /** Reading a head undoes writing it. */
  lemma HeadReads(major: nat, n: nat, rest: seq<byte>)
    requires major < 8 && n < MAX_ARGUMENT
    ensures ReadHead(Head(major, n) + rest) == Some(HeadInfo(major, n, |Head(major, n)|))
  {
    hide Pow256, ToBytes, FromBytes;
    Widths();
    var info := InfoOf(n);
    var s := Head(major, n) + rest;
    assert s[0] == major * 32 + info;
    if n >= 24 {
      assert s[1..1 + Width(info)] == ToBytes(n, Width(info));
      FromToBytes(n, Width(info));
    }
  }

  /** And only shortest heads are read. */
  lemma HeadIsShortest(s: seq<byte>)
    requires ReadHead(s).Some?
    ensures var h := ReadHead(s).value;
            h.argument < MAX_ARGUMENT && s[..h.size] == Head(h.major, h.argument)
  {
    hide Pow256, ToBytes, FromBytes;
    Widths();
    var major, info := s[0] / 32, s[0] % 32;
    assert s[0] == major * 32 + info;
    if info >= 24 {
      var t := s[1..1 + Width(info)];
      ToFromBytes(t);
      assert s[..1 + Width(info)] == [s[0]] + t;
    } else {
      assert s[..1] == [s[0]];
    }
  }
}

/** Parsers that return what they read and what is left. */
module Parsing {
  import opened Wrappers
  import opened Bytes

  type Parsed<T> = Option<(T, seq<byte>)>

  predicate IsTail(s: seq<byte>, rest: seq<byte>) {
    |rest| <= |s| && s[|s| - |rest|..] == rest
  }

  lemma TailSelf(s: seq<byte>)
    ensures IsTail(s, s)
  {
  }

  lemma TailOfTail(s: seq<byte>, t: seq<byte>, u: seq<byte>)
    requires IsTail(s, t) && IsTail(t, u)
    ensures IsTail(s, u)
  {
  }

  lemma TailAfter(s: seq<byte>, n: nat)
    ensures n <= |s| ==> IsTail(s, s[n..])
  {
  }

  lemma TailLength(s: seq<byte>, rest: seq<byte>)
    requires IsTail(s, rest)
    ensures |rest| <= |s|
  {
  }

  function Flatten(ss: seq<seq<byte>>): seq<byte> {
    if ss == [] then [] else ss[0] + Flatten(ss[1..])
  }

  lemma FlattenCons(e: seq<byte>, es: seq<seq<byte>>)
    ensures Flatten([e] + es) == e + Flatten(es)
  {
    assert ([e] + es)[1..] == es;
  }

  /** A parse whose first results were already read. */
  function After<T>(out: seq<T>, p: Parsed<seq<T>>): Parsed<seq<T>> {
    if p.None? then None else Some((out + p.value.0, p.value.1))
  }

  lemma AfterNone<T>(p: Parsed<seq<T>>)
    ensures After([], p) == p
  {
    if p.Some? {
      assert [] + p.value.0 == p.value.0;
    }
  }

  lemma AfterStep<T>(out: seq<T>, x: T, p: Parsed<seq<T>>)
    ensures p.Some? ==> After(out, Some(([x] + p.value.0, p.value.1))) == After(out + [x], p)
  {
    if p.Some? {
      assert out + ([x] + p.value.0) == out + [x] + p.value.0;
    }
  }
}

/** The deterministic encoding: shortest heads, definite lengths, map keys in bytewise order. */
module DeterministicCbor {
  import opened Wrappers
  import opened Bytes
  import opened CborHeads
  import opened Parsing

  /** Map keys: integers, text and byte strings.  Text is its UTF-8 bytes. */
  datatype Key = KeyInt(n: int) | KeyBytes(b: seq<byte>) | KeyText(t: seq<byte>)

  datatype Value =
    | Scalar(key: Key)
    | List(items: seq<Value>)
    | Dict(entries: map<Key, Value>)

  predicate KeyFits(k: Key) {
    match k
    case KeyInt(n) => -MAX_ARGUMENT <= n < MAX_ARGUMENT
    case KeyBytes(b) => |b| < MAX_ARGUMENT
    case KeyText(t) => |t| < MAX_ARGUMENT && Utf8(t)
  }

  /** Integers of 64 bits with a sign, and lengths that a head can hold. */
  predicate Fits(v: Value) {
    match v
    case Scalar(k) => KeyFits(k)
    case List(items) => |items| < MAX_ARGUMENT && forall i | 0 <= i < |items| :: Fits(items[i])
    case Dict(entries) => |entries| < MAX_ARGUMENT && forall k <- entries :: KeyFits(k) && Fits(entries[k])
  }

  function EncodeKey(k: Key): (s: seq<byte>)
    requires KeyFits(k)
    ensures |s| > 0
  {
    match k
    case KeyInt(n) => if n >= 0 then Head(0, n) else Head(1, -1 - n)
    case KeyBytes(b) => Head(2, |b|) + b
    case KeyText(t) => Head(3, |t|) + t
  }

  ghost predicate IsLeast(keys: set<seq<byte>>, k: seq<byte>) {
    k in keys && forall j <- keys | j != k :: Less(k, j)
  }

  /** Key and value encodings joined in the order of the keys' bytes. */
  ghost function JoinSorted(m: map<seq<byte>, seq<byte>>): seq<byte>
    decreases |m|
  {
    if m == map[] then []
    else
      LeastExists(m.Keys);
      var k :| IsLeast(m.Keys, k);
      k + m[k] + JoinSorted(m - {k})
  }

  /** Deterministic encoding of a value within range. */
  ghost function Encode(v: Value): (s: seq<byte>)
    requires Fits(v)
    decreases v, 1
  {
    match v
    case Scalar(k) => EncodeKey(k)
    case List(items) => Head(4, |items|) + Flatten(ItemEncodings(v))
    case Dict(entries) => Head(5, |entries|) + JoinSorted(EntryEncodings(v))
  }

  ghost function ItemEncodings(v: Value): (es: seq<seq<byte>>)
    requires v.List? && Fits(v)
    decreases v, 0
  {
    seq(|v.items|, i requires 0 <= i < |v.items| => Encode(v.items[i]))
  }

  ghost function EntryEncodings(v: Value): (enc: map<seq<byte>, seq<byte>>)
    requires v.Dict? && Fits(v)
    decreases v, 0
  {
    hide EncodeKey, KeyFits;
    KeysInjective();
    map k <- v.entries :: EncodeKey(k) := Encode(v.entries[k])
  }

  lemma {:induction false} LeastExists(keys: set<seq<byte>>)
    requires keys != {}
    ensures exists k :: IsLeast(keys, k)
    decreases |keys|
  {
    var j :| j in keys;
    var rest := keys - {j};
    if rest == {} {
      assert keys == {j};
      assert IsLeast(keys, j);
    } else {
      LeastExists(rest);
      var k :| IsLeast(rest, k);
      LessTotal(j, k);
      if Less(j, k) {
        forall i <- keys | i != j
          ensures Less(j, i)
        {
          if i != k {
            LessTransitive(j, k, i);
          }
        }
        assert IsLeast(keys, j);
      } else {
        assert IsLeast(keys, k);
      }
    }
  }

  lemma LeastUnique(keys: set<seq<byte>>, j: seq<byte>, k: seq<byte>)
    requires IsLeast(keys, j) && IsLeast(keys, k)
    ensures j == k
  {
    if j != k {
      LessTransitive(j, k, j);
      LessIrreflexive(j);
      assert false;
    }
  }

  // ---- decoding ------------------------------------------------------------------------

  /** One item at the start of `s`, and what follows it. */
  function Parse(s: seq<byte>): (r: Parsed<Value>)
    ensures r.Some? ==> |r.value.1| < |s| && IsTail(s, r.value.1)
    decreases |s|, 0
  {
    var h :- ReadHead(s);
    var n, t := h.argument, s[h.size..];
    if h.major == 0 then Some((Scalar(KeyInt(n)), t))
    else if h.major == 1 then Some((Scalar(KeyInt(-1 - n)), t))
    else if h.major == 2 then if n > |t| then None else Some((Scalar(KeyBytes(t[..n])), t[n..]))
    else if h.major == 3 then if n > |t| || !Utf8(t[..n]) then None else Some((Scalar(KeyText(t[..n])), t[n..]))
    else if h.major == 4 then
      var (items, rest) :- ParseItems(t, n);
      Some((List(items), rest))
    else if h.major == 5 then
      var (entries, rest) :- ParseEntries(t, n, None);
      Some((Dict(entries), rest))
    else None
  }

  function ParseItems(s: seq<byte>, n: nat): (r: Parsed<seq<Value>>)
    ensures r.Some? ==> IsTail(s, r.value.1) && |r.value.0| == n
    decreases |s|, 1
  {
    if n == 0 then Some(([], s))
    else
      var (first, t) :- Parse(s);
      var (others, rest) :- ParseItems(t, n - 1);
      Some(([first] + others, rest))
  }

  /** Entries whose encoded keys rise strictly, from above `previous` on. */
  function ParseEntries(s: seq<byte>, n: nat, previous: Option<seq<byte>>): (r: Parsed<map<Key, Value>>)
    ensures r.Some? ==> IsTail(s, r.value.1)
    decreases |s|, 1
  {
    if n == 0 then Some((map[], s))
    else
      var (first, t) :- Parse(s);
      var keyBytes := s[..|s| - |t|];
      if !first.Scalar? || (previous.Some? && !Less(previous.value, keyBytes)) then None
      else
        var (value, u) :- Parse(t);
        var (others, rest) :- ParseEntries(u, n - 1, Some(keyBytes));
        Some((others[first.key := value], rest))
  }

  // ---- decoding undoes encoding ------------------------------------------------------------

  lemma KeyParses(k: Key, rest: seq<byte>)
    requires KeyFits(k)
    ensures Parse(EncodeKey(k) + rest) == Some((Scalar(k), rest))
    ensures EncodeKey(k) != []
  {
    hide ReadHead, Head, Utf8;
    var s := EncodeKey(k) + rest;
    match k
    case KeyInt(n) =>
      HeadReads(if n >= 0 then 0 else 1, if n >= 0 then n else -1 - n, rest);
    case KeyBytes(b) =>
      HeadReads(2, |b|, b + rest);
      assert s == Head(2, |b|) + (b + rest);
      assert (b + rest)[..|b|] == b && (b + rest)[|b|..] == rest;
    case KeyText(t) =>
      HeadReads(3, |t|, t + rest);
      assert s == Head(3, |t|) + (t + rest);
      assert (t + rest)[..|t|] == t && (t + rest)[|t|..] == rest;
  }

  lemma KeysInjective()
    ensures forall j, k | KeyFits(j) && KeyFits(k) && EncodeKey(j) == EncodeKey(k) :: j == k
  {
    hide EncodeKey, KeyFits, Parse;
    forall j, k | KeyFits(j) && KeyFits(k) && EncodeKey(j) == EncodeKey(k)
      ensures j == k
    {
      KeyParses(j, []);
      KeyParses(k, []);
    }
  }

  ghost predicate EncodesItems(items: seq<Value>, es: seq<seq<byte>>) {
    |es| == |items| && forall i | 0 <= i < |items| :: Fits(items[i]) && es[i] == Encode(items[i])
  }

  ghost predicate EncodesEntries(entries: map<Key, Value>, enc: map<seq<byte>, seq<byte>>) {
    && (forall k <- entries :: KeyFits(k) && Fits(entries[k]))
    && (forall k <- entries :: EncodeKey(k) in enc && enc[EncodeKey(k)] == Encode(entries[k]))
    && (forall e <- enc :: exists k <- entries :: e == EncodeKey(k))
  }

  lemma EncodeList(items: seq<Value>, es: seq<seq<byte>>)
    requires EncodesItems(items, es) && |items| < MAX_ARGUMENT
    ensures Fits(List(items)) && Encode(List(items)) == Head(4, |items|) + Flatten(es)
  {
    hide Head, Flatten, EncodeKey, KeyFits, JoinSorted, EntryEncodings;
    assert es == ItemEncodings(List(items));
  }

  lemma EntriesEncoded(entries: map<Key, Value>)
    requires Fits(Dict(entries))
    ensures EncodesEntries(entries, EntryEncodings(Dict(entries)))
  {
    hide EncodeKey, KeyFits, Encode;
    KeysInjective();
  }

  lemma EncodingsUnique(entries: map<Key, Value>, enc: map<seq<byte>, seq<byte>>, other: map<seq<byte>, seq<byte>>)
    requires EncodesEntries(entries, enc) && EncodesEntries(entries, other)
    ensures enc == other
  {
    hide EncodeKey, KeyFits, Encode, Fits;
    assert enc.Keys == other.Keys;
  }

  lemma EncodeDict(entries: map<Key, Value>, enc: map<seq<byte>, seq<byte>>)
    requires EncodesEntries(entries, enc) && |entries| < MAX_ARGUMENT
    ensures Fits(Dict(entries)) && Encode(Dict(entries)) == Head(5, |entries|) + JoinSorted(enc)
  {
    hide Head, Flatten, EncodeKey, KeyFits, JoinSorted, EntryEncodings, ItemEncodings;
    EntriesEncoded(entries);
    EncodingsUnique(entries, enc, EntryEncodings(Dict(entries)));
  }

  lemma JoinStep(m: map<seq<byte>, seq<byte>>, k: seq<byte>)
    requires IsLeast(m.Keys, k)
    ensures JoinSorted(m) == k + m[k] + JoinSorted(m - {k})
  {
    hide Less;
    forall j | IsLeast(m.Keys, j)
      ensures j == k
    {
      LeastUnique(m.Keys, j, k);
    }
    LeastExists(m.Keys);
  }

  lemma {:induction false} ItemsParse(items: seq<Value>, es: seq<seq<byte>>, rest: seq<byte>)
    requires |es| == |items|
    requires forall i, r | 0 <= i < |items| :: Parse(es[i] + r) == Some((items[i], r))
    ensures ParseItems(Flatten(es) + rest, |items|) == Some((items, rest))
  {
    hide Parse, ParseItems, Flatten;
    if items != [] {
      ItemsParse(items[1..], es[1..], rest);
      FlattenCons(es[0], es[1..]);
      assert es == [es[0]] + es[1..];
      assert Flatten(es) + rest == es[0] + (Flatten(es[1..]) + rest);
      ItemCases(es[0] + (Flatten(es[1..]) + rest), |items|);
      assert [items[0]] + items[1..] == items;
    } else {
      NoItems(rest);
      assert es == [];
      assert Flatten(es) + rest == rest;
    }
  }

  /** One turn of the loop over items. */
  lemma ItemCases(s: seq<byte>, n: nat)
    requires n > 0
    ensures ParseItems(s, n) ==
            var p := Parse(s);
            if p.None? then None
            else
              var others := ParseItems(p.value.1, n - 1);
              if others.None? then None else Some(([p.value.0] + others.value.0, others.value.1))
  {
    hide Parse, IsTail;
  }

  /** The entry whose key comes first. */
  lemma FirstEntry(entries: map<Key, Value>, enc: map<seq<byte>, seq<byte>>) returns (k: Key)
    requires EncodesEntries(entries, enc) && entries != map[]
    ensures k in entries && KeyFits(k) && IsLeast(enc.Keys, EncodeKey(k))
  {
    hide EncodeKey, KeyFits, Less, Encode, Fits;
    var some :| some in entries;
    LeastExists(enc.Keys);
    var e :| IsLeast(enc.Keys, e);
    k :| k in entries && e == EncodeKey(k);
  }

  lemma OtherEntries(entries: map<Key, Value>, enc: map<seq<byte>, seq<byte>>, k: Key)
    requires EncodesEntries(entries, enc) && k in entries
    ensures EncodesEntries(entries - {k}, enc - {EncodeKey(k)})
    ensures |entries - {k}| == |entries| - 1 && entries == (entries - {k})[k := entries[k]]
  {
    hide EncodeKey, KeyFits, Less, Encode, Fits;
    KeysInjective();
    assert (entries - {k}).Keys == entries.Keys - {k};
  }

  ghost predicate EntriesReadBack(entries: map<Key, Value>, enc: map<seq<byte>, seq<byte>>)
    requires EncodesEntries(entries, enc)
  {
    forall k, r | k in entries :: Parse(enc[EncodeKey(k)] + r) == Some((entries[k], r))
  }

  lemma {:induction false} EntriesParse(entries: map<Key, Value>, enc: map<seq<byte>, seq<byte>>,
                                        previous: Option<seq<byte>>, rest: seq<byte>)
    requires EncodesEntries(entries, enc)
    requires previous.Some? ==> forall e <- enc :: Less(previous.value, e)
    requires EntriesReadBack(entries, enc)
    ensures ParseEntries(JoinSorted(enc) + rest, |entries|, previous) == Some((entries, rest))
    decreases |entries|
  {
    hide Parse, EncodeKey, KeyFits, Less, Encode, Fits, JoinSorted, ParseEntries;
    if entries == map[] {
      assert enc == map[];
      NothingJoined();
      assert [] + rest == rest;
      NoEntries(rest, previous);
    } else {
      var k := FirstEntry(entries, enc);
      var e, encoded := EncodeKey(k), enc[EncodeKey(k)];
      var others, otherEnc := entries - {k}, enc - {e};
      OtherEntries(entries, enc, k);
      OthersReadBack(entries, enc, k);
      JoinStep(enc, e);
      var u := JoinSorted(otherEnc) + rest;
      assert JoinSorted(enc) + rest == e + (encoded + u);
      EntriesParse(others, otherEnc, Some(e), rest);
      EntryStep(k, encoded, u, entries[k], |entries|, previous);
    }
  }

  lemma NoEntries(s: seq<byte>, previous: Option<seq<byte>>)
    ensures ParseEntries(s, 0, previous) == Some((map[], s))
  {
  }

  lemma OthersReadBack(entries: map<Key, Value>, enc: map<seq<byte>, seq<byte>>, k: Key)
    requires EncodesEntries(entries, enc) && EntriesReadBack(entries, enc) && k in entries
    requires EncodesEntries(entries - {k}, enc - {EncodeKey(k)})
    ensures EntriesReadBack(entries - {k}, enc - {EncodeKey(k)})
  {
    hide Parse, EncodeKey, KeyFits, Encode, Fits;
  }

  /** One entry read. */
  lemma EntryStep(k: Key, encoded: seq<byte>, u: seq<byte>, value: Value, n: nat, previous: Option<seq<byte>>)
    requires KeyFits(k) && n > 0 && Parse(encoded + u) == Some((value, u))
    requires previous.Some? ==> Less(previous.value, EncodeKey(k))
    ensures var others := ParseEntries(u, n - 1, Some(EncodeKey(k)));
            ParseEntries(EncodeKey(k) + (encoded + u), n, previous) ==
            if others.None? then None else Some((others.value.0[k := value], others.value.1))
  {
    hide Parse, EncodeKey, KeyFits, Less;
    var e := EncodeKey(k);
    KeyParses(k, encoded + u);
    assert (e + (encoded + u))[..|e|] == e;
  }

  lemma NothingJoined()
    ensures JoinSorted(map[]) == []
  {
  }

  lemma ParseCollection(major: nat, n: nat, t: seq<byte>)
    requires (major == 4 || major == 5) && n < MAX_ARGUMENT
    ensures major == 4 ==>
              var r := ParseItems(t, n);
              Parse(Head(4, n) + t) == if r.None? then None else Some((List(r.value.0), r.value.1))
    ensures major == 5 ==>
              var r := ParseEntries(t, n, None);
              Parse(Head(5, n) + t) == if r.None? then None else Some((Dict(r.value.0), r.value.1))
  {
    hide ReadHead, Head, Utf8, ParseItems, ParseEntries;
    HeadReads(major, n, t);
    assert (Head(major, n) + t)[|Head(major, n)|..] == t;
  }

  /** Decoding what was encoded gives the value back, and stops where it ends. */
  lemma {:induction false} DecodeEncode(v: Value, rest: seq<byte>)
    requires Fits(v)
    ensures Parse(Encode(v) + rest) == Some((v, rest))
    decreases v
  {
    hide Parse, Head, EncodeKey, KeyFits, JoinSorted, Flatten, ParseItems, ParseEntries, EntryEncodings;
    match v
    case Scalar(k) => KeyParses(k, rest);
    case List(items) =>
      var es := ItemEncodings(v);
      forall i, r | 0 <= i < |items|
        ensures Parse(es[i] + r) == Some((items[i], r))
      {
        DecodeEncode(items[i], r);
      }
      ItemsParse(items, es, rest);
      ParseCollection(4, |items|, Flatten(es) + rest);
      assert Encode(v) + rest == Head(4, |items|) + (Flatten(es) + rest);
    case Dict(entries) =>
      var enc := EntryEncodings(v);
      EntriesEncoded(entries);
      assert EntriesReadBack(entries, enc) by {
        forall k, r | k in entries
          ensures Parse(enc[EncodeKey(k)] + r) == Some((entries[k], r))
        {
          DecodeEncode(entries[k], r);
        }
      }
      EntriesParse(entries, enc, None, rest);
      ParseCollection(5, |entries|, JoinSorted(enc) + rest);
      assert Encode(v) + rest == Head(5, |entries|) + (JoinSorted(enc) + rest);
  }

  // ---- only encodings decode ------------------------------------------------------------------

  /** One more entry, with the least key. */
  lemma AddLeast(others: map<Key, Value>, enc: map<seq<byte>, seq<byte>>, k: Key, x: Value)
    requires EncodesEntries(others, enc) && KeyFits(k) && Fits(x)
    requires forall e <- enc :: Less(EncodeKey(k), e)
    ensures k !in others && EncodesEntries(others[k := x], enc[EncodeKey(k) := Encode(x)])
    ensures JoinSorted(enc[EncodeKey(k) := Encode(x)]) == EncodeKey(k) + Encode(x) + JoinSorted(enc)
  {
    hide EncodeKey, KeyFits, Less, Encode, Fits, JoinSorted;
    KeysInjective();
    var e := EncodeKey(k);
    LessIrreflexive(e);
    var more := enc[e := Encode(x)];
    JoinStep(more, e);
    assert more - {e} == enc;
  }

  lemma {:induction false} ParseSound(s: seq<byte>)
    requires Parse(s).Some?
    ensures var (v, rest) := Parse(s).value;
            Fits(v) && s == Encode(v) + rest
    decreases |s|, 0
  {
    hide ReadHead, Head, Utf8, JoinSorted, Flatten, ParseItems, ParseEntries, Encode, Fits, KeyFits, EncodesItems,
      EncodesEntries, IsTail;
    HeadIsShortest(s);
    var h := ReadHead(s).value;
    var n, t := h.argument, s[h.size..];
    assert s == Head(h.major, n) + t;
    if h.major == 4 {
      var es := ItemsSound(t, n);
      EncodeList(ParseItems(t, n).value.0, es);
    } else if h.major == 5 {
      var enc := EntriesSound(t, n, None);
      EncodeDict(ParseEntries(t, n, None).value.0, enc);
    } else {
      ScalarSound(h.major, n, t);
    }
  }

  lemma ScalarSound(major: nat, n: nat, t: seq<byte>)
    requires n < MAX_ARGUMENT
    ensures major == 0 ==> var v := Scalar(KeyInt(n)); Fits(v) && Encode(v) == Head(0, n)
    ensures major == 1 ==> var v := Scalar(KeyInt(-1 - n)); Fits(v) && Encode(v) == Head(1, n)
    ensures major == 2 && n <= |t| ==>
              var v := Scalar(KeyBytes(t[..n])); Fits(v) && Encode(v) + t[n..] == Head(2, n) + t
    ensures major == 3 && n <= |t| && Utf8(t[..n]) ==>
              var v := Scalar(KeyText(t[..n])); Fits(v) && Encode(v) + t[n..] == Head(3, n) + t
  {
    hide Head, Utf8;
    if n <= |t| {
      assert t == t[..n] + t[n..];
    }
  }

  lemma TailShorter(s: seq<byte>)
    ensures Parse(s).Some? ==> |Parse(s).value.1| < |s|
  {
    hide Parse;
  }

  lemma NoItems(s: seq<byte>)
    ensures EncodesItems([], []) && s == Flatten([]) + s && Flatten([]) == []
    ensures ParseItems(s, 0) == Some(([], s))
  {
  }

  lemma MoreItems(first: Value, others: seq<Value>, es: seq<seq<byte>>)
    requires Fits(first) && EncodesItems(others, es)
    ensures EncodesItems([first] + others, [Encode(first)] + es)
    ensures Flatten([Encode(first)] + es) == Encode(first) + Flatten(es)
  {
    hide Fits, Encode, Flatten;
    FlattenCons(Encode(first), es);
  }

  lemma {:induction false} ItemsSound(s: seq<byte>, n: nat) returns (es: seq<seq<byte>>)
    requires ParseItems(s, n).Some?
    ensures var (items, rest) := ParseItems(s, n).value;
            EncodesItems(items, es) && s == Flatten(es) + rest
    decreases |s|, 1
  {
    hide Parse, Encode, Fits, EncodesItems, Flatten, IsTail;
    if n == 0 {
      es := [];
      NoItems(s);
    } else {
      ParseSound(s);
      var (first, t) := Parse(s).value;
      TailShorter(s);
      var others := ItemsSound(t, n - 1);
      es := [Encode(first)] + others;
      MoreItems(first, ParseItems(t, n - 1).value.0, others);
    }
  }

  lemma AboveAll(p: seq<byte>, e: seq<byte>, others: set<seq<byte>>)
    requires Less(p, e) && forall f <- others :: Less(e, f)
    ensures forall f <- others :: Less(p, f)
  {
    hide Less;
    forall f <- others
      ensures Less(p, f)
    {
      LessTransitive(p, e, f);
    }
  }

  lemma NoEntriesEncoded()
    ensures EncodesEntries(map[], map[])
  {
  }

  lemma ScalarEncoding(v: Value)
    requires v.Scalar? && Fits(v)
    ensures KeyFits(v.key) && Encode(v) == EncodeKey(v.key)
  {
    hide KeyFits, EncodeKey;
  }

  /** One turn of the loop over entries. */
  lemma EntryCases(s: seq<byte>, n: nat, previous: Option<seq<byte>>)
    requires n > 0
    ensures ParseEntries(s, n, previous) ==
            var p := Parse(s);
            if p.None? then None
            else
              var keyBytes := s[..|s| - |p.value.1|];
              if !p.value.0.Scalar? || (previous.Some? && !Less(previous.value, keyBytes)) then None
              else
                var x := Parse(p.value.1);
                if x.None? then None
                else
                  var others := ParseEntries(x.value.1, n - 1, Some(keyBytes));
                  if others.None? then None
                  else Some((others.value.0[p.value.0.key := x.value.0], others.value.1))
  {
    hide Parse, Less, IsTail;
  }

  lemma {:induction false} EntriesSound(s: seq<byte>, n: nat, previous: Option<seq<byte>>)
    returns (enc: map<seq<byte>, seq<byte>>)
    requires ParseEntries(s, n, previous).Some?
    ensures var (entries, rest) := ParseEntries(s, n, previous).value;
            EncodesEntries(entries, enc) && |entries| == n && s == JoinSorted(enc) + rest
    ensures previous.Some? ==> forall e <- enc :: Less(previous.value, e)
    decreases |s|, 1
  {
    hide Parse, EncodeKey, KeyFits, Less, JoinSorted, Encode, Fits, EncodesEntries, IsTail, ParseEntries;
    if n == 0 {
      NoEntries(s, previous);
      enc := map[];
      NothingJoined();
      NoEntriesEncoded();
    } else {
      EntryCases(s, n, previous);
      ParseSound(s);
      TailShorter(s);
      var (first, t) := Parse(s).value;
      ScalarEncoding(first);
      var e := EncodeKey(first.key);
      assert s[..|s| - |t|] == e;
      ParseSound(t);
      TailShorter(t);
      var (value, u) := Parse(t).value;
      var others := EntriesSound(u, n - 1, Some(e));
      AddLeast(ParseEntries(u, n - 1, Some(e)).value.0, others, first.key, value);
      enc := others[e := Encode(value)];
      if previous.Some? {
        AboveAll(previous.value, e, others.Keys);
      }
    }
  }

  /** `decode`: one item and nothing after it. */
  function DecodeSpec(b: seq<byte>): Option<Value> {
    var (v, rest) :- Parse(b);
    if rest == [] then Some(v) else None
  }

  /** Deterministic CBOR is a bijection: decoding and encoding undo each other, in both directions. */
  lemma Bijection(b: seq<byte>, v: Value)
    ensures DecodeSpec(b) == Some(v) <==> Fits(v) && Encode(v) == b
  {
    hide Parse, Encode, Fits;
    if Parse(b).Some? {
      ParseSound(b);
    }
    if Fits(v) {
      DecodeEncode(v, []);
      assert Encode(v) + [] == Encode(v);
    }
  }
}

/** The strict decoder on byte offsets. */
module CborDecoder {
  import opened Wrappers
  import opened Bytes
  import opened CborHeads
  import opened Parsing
  import opened DeterministicCbor

  /** A parse of a suffix of `b`, with the end as an offset. */
  function Located<T>(b: seq<byte>, p: Parsed<T>): Option<(T, int)> {
    if p.None? then None else Some((p.value.0, |b| - |p.value.1|))
  }

  method Decode(b: seq<byte>) returns (r: Option<Value>)
    ensures r == DecodeSpec(b)
  {
    hide Parse;
    var decoded := Dec(b, 0);
    assert b[0..] == b;
    if decoded.None? || decoded.value.1 != |b| {
      return None;
    }
    return Some(decoded.value.0);
  }

  method Dec(b: seq<byte>, i: nat) returns (r: Option<(Value, nat)>)
    requires i <= |b|
    ensures r == Located(b, Parse(b[i..]))
    decreases |b| - i, 0
  {
    hide Head, Utf8, ParseItems, ParseEntries;
    var s := b[i..];
    var head := ReadHead(s);
    if head.None? {
      return None;
    }
    var major, n, at := head.value.major, head.value.argument, i + head.value.size;
    assert s[head.value.size..] == b[at..];
    match major {
      case 0 => return Some((Scalar(KeyInt(n)), at));
      case 1 => return Some((Scalar(KeyInt(-1 - n)), at));
      case 2 =>
        if at + n > |b| {
          return None;
        }
        assert b[at..][..n] == b[at..at + n];
        return Some((Scalar(KeyBytes(b[at..at + n])), at + n));
      case 3 =>
        if at + n > |b| {
          return None;
        }
        assert b[at..][..n] == b[at..at + n];
        if !Utf8(b[at..at + n]) {
          return None;
        }
        return Some((Scalar(KeyText(b[at..at + n])), at + n));
      case 4 =>
        var items := DecItems(b, at, n);
        if items.None? {
          return None;
        }
        return Some((List(items.value.0), items.value.1));
      case 5 =>
        var entries := DecEntries(b, at, n);
        if entries.None? {
          return None;
        }
        return Some((Dict(entries.value.0), entries.value.1));
      case _ => return None;
    }
  }

  method DecItems(b: seq<byte>, start: nat, n: nat) returns (r: Option<(seq<Value>, nat)>)
    requires start <= |b|
    ensures r == Located(b, ParseItems(b[start..], n))
    decreases |b| - start, 1
  {
    hide Parse;
    var out: seq<Value> := [];
    var i := start;
    AfterNone(ParseItems(b[start..], n));
    for j := 0 to n
      invariant start <= i <= |b|
      invariant ParseItems(b[start..], n) == After(out, ParseItems(b[i..], n - j))
    {
      var x := Dec(b, i);
      if x.None? {
        return None;
      }
      SuffixOf(b, i);
      AfterStep(out, x.value.0, ParseItems(b[x.value.1..], n - j - 1));
      out := out + [x.value.0];
      i := x.value.1;
    }
    assert out + [] == out;
    return Some((out, i));
  }

  /** Entries read before others. */
  function Merge(out: map<Key, Value>, p: Parsed<map<Key, Value>>): Parsed<map<Key, Value>> {
    if p.None? then None else Some((p.value.0 + out, p.value.1))
  }

  /** All keys so far are encoded at or before `previous`. */
  ghost predicate Before(out: map<Key, Value>, previous: Option<seq<byte>>) {
    && (previous.None? ==> out == map[])
    && forall k <- out :: KeyFits(k) && (EncodeKey(k) == previous.value || Less(EncodeKey(k), previous.value))
  }

  method DecEntries(b: seq<byte>, start: nat, n: nat) returns (r: Option<(map<Key, Value>, nat)>)
    requires start <= |b|
    ensures r == Located(b, ParseEntries(b[start..], n, None))
    decreases |b| - start, 1
  {
    hide Parse, Less, EncodeKey, KeyFits, Before, IsTail, ParseEntries;
    var out: map<Key, Value> := map[];
    var previous: Option<seq<byte>> := None;
    var i := start;
    NoneBefore();
    MergeNone(ParseEntries(b[start..], n, None));
    for j := 0 to n
      invariant start <= i <= |b| && Before(out, previous)
      invariant ParseEntries(b[start..], n, None) == Merge(out, ParseEntries(b[i..], n - j, previous))
    {
      EntryCases(b[i..], n - j, previous);
      var key := Dec(b, i);
      if key.None? {
        return None;
      }
      var ks, at := i, key.value.1;
      SuffixOf(b, i);
      var keyBytes := b[ks..at];
      if !key.value.0.Scalar? || (previous.Some? && !Less(previous.value, keyBytes)) {
        return None;
      }
      var x := Dec(b, at);
      if x.None? {
        return None;
      }
      SuffixOf(b, at);
      KeyAfter(b[i..], out, previous, x.value.0);
      MergeStep(out, key.value.0.key, x.value.0, ParseEntries(b[x.value.1..], n - j - 1, Some(keyBytes)));
      previous := Some(keyBytes);
      out := out[key.value.0.key := x.value.0];
      i := x.value.1;
    }
    NoEntries(b[i..], previous);
    assert map[] + out == out;
    return Some((out, i));
  }

  lemma MergeNone(p: Parsed<map<Key, Value>>)
    ensures Merge(map[], p) == p
  {
    if p.Some? {
      assert p.value.0 + map[] == p.value.0;
    }
  }

  lemma NoneBefore()
    ensures Before(map[], None)
  {
  }

  /** Offsets and suffixes. */
  lemma SuffixOf(b: seq<byte>, i: nat)
    requires i <= |b|
    ensures var p := Parse(b[i..]);
            p.Some? ==>
              var at := |b| - |p.value.1|;
              i < at <= |b| && b[at..] == p.value.1 && b[i..at] == b[i..][..|b[i..]| - |p.value.1|]
  {
    hide Parse;
  }

  /** A key that sorts after the previous one is new. */
  lemma KeyAfter(s: seq<byte>, out: map<Key, Value>, previous: Option<seq<byte>>, x: Value)
    requires Parse(s).Some? && Parse(s).value.0.Scalar? && Before(out, previous)
    requires var keyBytes := s[..|s| - |Parse(s).value.1|]; previous.Some? ==> Less(previous.value, keyBytes)
    ensures var k, keyBytes := Parse(s).value.0.key, s[..|s| - |Parse(s).value.1|];
            k !in out && Before(out[k := x], Some(keyBytes))
  {
    hide Parse, Less, EncodeKey, KeyFits, Encode, Fits;
    ParseSound(s);
    var (v, rest) := Parse(s).value;
    ScalarEncoding(v);
    var keyBytes := s[..|s| - |rest|];
    assert keyBytes == EncodeKey(v.key);
    LessIrreflexive(keyBytes);
    forall k <- out
      ensures Less(EncodeKey(k), keyBytes)
    {
      if EncodeKey(k) != previous.value {
        LessTransitive(EncodeKey(k), previous.value, keyBytes);
      }
    }
  }

  lemma MergeStep(out: map<Key, Value>, k: Key, x: Value, p: Parsed<map<Key, Value>>)
    requires k !in out
    ensures p.Some? ==> Merge(out, Some((p.value.0[k := x], p.value.1))) == Merge(out[k := x], p)
  {
    if p.Some? {
      assert p.value.0[k := x] + out == p.value.0 + out[k := x];
    }
  }
}
