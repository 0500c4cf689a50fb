// Merkle inclusion proofs of RFC 9162, as the witness receipt verifier checks
// them: the tree hash and audit path of sections 2.1.1 and 2.1.3.1, and the
// recomputation of the root on 64-bit integers.

module MerkleTree {
  import opened Powers

  /** Tree hashes as terms: the leaf and node prefixes keep them apart; `Foreign` is any other 32-byte string. */
  datatype TreeHash<E> = Entry(entry: E) | Node(left: TreeHash<E>, right: TreeHash<E>) | Foreign(id: nat)

  /** The largest power of two below `n`. */
  function Split(n: nat): (k: nat)
    requires n > 1
    ensures 0 < k < n <= 2 * k
  {
    BitLengthBounds(n - 1);
    Pow2(BitLength(n - 1) - 1)
  }

  lemma SplitUnique(n: nat, j: nat)
    requires Pow2(j) < n <= 2 * Pow2(j)
    ensures Split(n) == Pow2(j)
  {
    BitLengthUnique(n - 1, j);
  }

  /** MTH of section 2.1.1, for a non-empty list. */
  function TreeHead<E>(d: seq<E>): TreeHash<E>
    requires d != []
    decreases |d|
  {
    if |d| == 1 then Entry(d[0])
    else
      var k := Split(|d|);
      Node(TreeHead(d[..k]), TreeHead(d[k..]))
  }

  /** PATH of section 2.1.3.1. */
  function AuditPath<E>(m: nat, d: seq<E>): seq<TreeHash<E>>
    requires m < |d|
    decreases |d|
  {
    if |d| == 1 then []
    else
      var k := Split(|d|);
      if m < k then AuditPath(m, d[..k]) + [TreeHead(d[k..])]
      else AuditPath(m - k, d[k..]) + [TreeHead(d[..k])]
  }

  /** How long the audit path of leaf `m` among `n` is. */
  function PathLength(n: nat, m: nat): nat
    requires m < n
    decreases n
  {
    if n == 1 then 0
    else
      var k := Split(n);
      1 + if m < k then PathLength(k, m) else PathLength(n - k, m - k)
  }

  /** The root that a leaf hash and a path lead to. */
  function RootOf<E>(leaf: TreeHash<E>, n: nat, m: nat, path: seq<TreeHash<E>>): TreeHash<E>
    requires m < n && |path| == PathLength(n, m)
    decreases n
  {
    if n == 1 then leaf
    else
      var k := Split(n);
      var last := |path| - 1;
      if m < k then Node(RootOf(leaf, k, m, path[..last]), path[last])
      else Node(path[last], RootOf(leaf, n - k, m - k, path[..last]))
  }

  lemma {:induction false} PathLengthExact<E>(m: nat, d: seq<E>)
    requires m < |d|
    ensures |AuditPath(m, d)| == PathLength(|d|, m)
    decreases |d|
  {
    if |d| > 1 {
      var k := Split(|d|);
      if m < k {
        PathLengthExact(m, d[..k]);
      } else {
        PathLengthExact(m - k, d[k..]);
      }
    }
  }

  /** Tree sizes up to `2^h` have paths of at most `h` nodes. */
  lemma {:induction false} PathLengthBound(n: nat, m: nat, h: nat)
    requires m < n <= Pow2(h)
    ensures PathLength(n, m) <= h
    decreases n
  {
    if n > 1 {
      var k := Split(n);
      var j := BitLength(n - 1) - 1;
      Pow2Order(j, h);
      Pow2Monotone(j, h - 1);
      if m < k {
        PathLengthBound(k, m, h - 1);
      } else {
        PathLengthBound(n - k, m - k, h - 1);
      }
    }
  }

  /** One level of root, tree head and audit path. */
  lemma RootStep<E>(d: seq<E>, m: nat, e: E, path: seq<TreeHash<E>>)
    requires m < |d| && |path| == PathLength(|d|, m)
    ensures |d| == 1 ==>
              RootOf(Entry(e), |d|, m, path) == Entry(e) && TreeHead(d) == Entry(d[0]) && path == AuditPath(m, d) == []
    ensures |d| > 1 ==>
              var k, last := Split(|d|), |path| - 1;
              && last >= 0 && TreeHead(d) == Node(TreeHead(d[..k]), TreeHead(d[k..]))
              && if m < k then
                   && last == PathLength(k, m)
                   && RootOf(Entry(e), |d|, m, path) == Node(RootOf(Entry(e), k, m, path[..last]), path[last])
                   && AuditPath(m, d) == AuditPath(m, d[..k]) + [TreeHead(d[k..])]
                 else
                   && last == PathLength(|d| - k, m - k)
                   && RootOf(Entry(e), |d|, m, path) ==
                      Node(path[last], RootOf(Entry(e), |d| - k, m - k, path[..last]))
                   && AuditPath(m, d) == AuditPath(m - k, d[k..]) + [TreeHead(d[..k])]
  {
    hide Split;
  }

  lemma SnocEqual<T>(path: seq<T>, first: seq<T>, last: T)
    requires path != []
    ensures path == first + [last] <==> path[..|path| - 1] == first && path[|path| - 1] == last
  {
    assert path == path[..|path| - 1] + [path[|path| - 1]];
    if path == first + [last] {
      assert path[..|path| - 1] == first;
    }
  }

  /** A leaf and a path lead to the tree head exactly when they are the entry there and its audit path. */
  lemma {:induction false} RootExact<E>(d: seq<E>, m: nat, e: E, path: seq<TreeHash<E>>)
    requires m < |d| && |path| == PathLength(|d|, m)
    ensures RootOf(Entry(e), |d|, m, path) == TreeHead(d) <==> e == d[m] && path == AuditPath(m, d)
    decreases |d|
  {
    hide Split, TreeHead, AuditPath, RootOf, PathLength;
    RootStep(d, m, e, path);
    if |d| > 1 {
      var k := Split(|d|);
      var last := |path| - 1;
      if m < k {
        PathLengthExact(m, d[..k]);
        RootExact(d[..k], m, e, path[..last]);
        SnocEqual(path, AuditPath(m, d[..k]), TreeHead(d[k..]));
      } else {
        PathLengthExact(m - k, d[k..]);
        RootExact(d[k..], m - k, e, path[..last]);
        SnocEqual(path, AuditPath(m - k, d[k..]), TreeHead(d[..k]));
      }
    }
  }
}

module Receipt {
  import opened Wrappers
  import opened Integers
  import opened Powers
  import opened MerkleTree

  const MAX_TREE_SIZE: int64 := 0x4000_0000_0000_0000  // 2^62

  /** No doubling leaves 64 bits, whatever `n` is. */
  method LargestPowerBelow(n: int64) returns (k: int64)
    ensures n <= 1 ==> k == 1
    ensures n > 1 ==> k as int == Split(n as int)
  {
    if n <= 1 {
      return 1;
    }
    k := 1;
    ghost var j := 0;
    while k <= (n - 1) / 2
      invariant 1 <= k < n && k as int == Pow2(j)
      decreases n - k
    {
      k := k * 2;
      j := j + 1;
    }
    SplitUnique(n as int, j);
  }

  method ExpectedPath(size: int64, index: int64) returns (count: int64)
    requires 0 <= index < size
    ensures count as int == PathLength(size as int, index as int)
    ensures size <= MAX_TREE_SIZE ==> count <= 62
  {
    var n, m := size, index;
    count := 0;
    PathLengthFits(size, index);
    while n > 1
      invariant 0 <= m < n && 0 <= count
      invariant count as int + PathLength(n as int, m as int) == PathLength(size as int, index as int)
      decreases n
    {
      var k := LargestPowerBelow(n);
      if m < k {
        n := k;
      } else {
        n := n - k;
        m := m - k;
      }
      count := count + 1;
    }
  }

  lemma PathLengthFits(size: int64, index: int64)
    requires 0 <= index < size
    ensures PathLength(size as int, index as int) <= 63
    ensures size <= MAX_TREE_SIZE ==> PathLength(size as int, index as int) <= 62
  {
    Pow2Of62();
    PathLengthBound(size as int, index as int, 63);
    if size <= MAX_TREE_SIZE {
      PathLengthBound(size as int, index as int, 62);
    }
  }

  lemma Pow2Of62()
    ensures Pow2(62) == 0x4000_0000_0000_0000 && Pow2(63) == 0x8000_0000_0000_0000
  {
    hide Pow2;
    SmallPowers();
    Pow2Sum(8, 8);
    Pow2Sum(16, 16);
    Pow2Sum(32, 16);
    Pow2Sum(48, 8);
    Pow2Sum(56, 6);
    Pow2Sum(62, 1);
  }

  lemma SmallPowers()
    ensures Pow2(1) == 2 && Pow2(6) == 64 && Pow2(8) == 256
  {
    assert Pow2(4) == 16;
  }

  lemma {:induction false} Pow2Sum(a: nat, b: nat)
    ensures Pow2(a + b) == Pow2(a) * Pow2(b)
  {
    hide Pow2;
    Pow2Step(0);
    if a > 0 {
      Pow2Sum(a - 1, b);
      Pow2Step(a - 1);
      Pow2Step(a - 1 + b);
      Doubled(Pow2(a - 1), Pow2(b));
    }
  }

  lemma Pow2Step(n: nat)
    ensures Pow2(0) == 1 && Pow2(n + 1) == 2 * Pow2(n)
  {
  }

  lemma Doubled(x: nat, y: nat)
    ensures 2 * (x * y) == (2 * x) * y
  {
  }

  /** The siblings that `fold` pops as it descends. */
  class Siblings<E> {
    var siblings: seq<TreeHash<E>>
    const leaf: TreeHash<E>

    constructor (leaf: TreeHash<E>, path: seq<TreeHash<E>>)
      ensures siblings == path && this.leaf == leaf
    {
      siblings := path;
      this.leaf := leaf;
    }

    method Fold(n: int64, m: int64) returns (r: Option<TreeHash<E>>)
      requires 0 <= m < n
      modifies this
      ensures var need := PathLength(n as int, m as int);
              var have := |old(siblings)|;
              && (r.Some? <==> need <= have)
              && (r.Some? ==>
                    && siblings == old(siblings)[..have - need]
                    && r.value == RootOf(leaf, n as int, m as int, old(siblings)[have - need..]))
      decreases n
    {
      hide PathLength, RootOf, Split;
      FoldEnds(leaf, n as int, m as int);
      if n == 1 {
        assert siblings[..|siblings|] == siblings && siblings[|siblings|..] == [];
        return Some(leaf);
      }
      if |siblings| == 0 {
        return None;
      }
      var k := LargestPowerBelow(n);
      ghost var before := siblings;
      var last := |siblings| - 1;
      var sibling := siblings[last];
      siblings := siblings[..last];
      FoldStep(leaf, n as int, m as int, before);
      if m < k {
        var child := Fold(k, m);
        if child.None? {
          return None;
        }
        return Some(Node(child.value, sibling));
      }
      var child := Fold(n - k, m - k);
      if child.None? {
        return None;
      }
      return Some(Node(sibling, child.value));
    }
  }

  lemma FoldEnds<E>(leaf: TreeHash<E>, n: nat, m: nat)
    requires m < n
    ensures n == 1 ==> PathLength(n, m) == 0 && RootOf(leaf, n, m, []) == leaf
    ensures n > 1 ==> PathLength(n, m) > 0
  {
  }

  /** One level of the fold, on the siblings before it. */
  lemma FoldStep<E>(leaf: TreeHash<E>, n: nat, m: nat, before: seq<TreeHash<E>>)
    requires m < n && n > 1 && before != []
    ensures var k, last, need := Split(n), |before| - 1, PathLength(n, m);
            && need > 0
            && need == 1 + (if m < k then PathLength(k, m) else PathLength(n - k, m - k))
            && (need <= |before| ==>
                  var rest := before[..last][last - (need - 1)..];
                  RootOf(leaf, n, m, before[|before| - need..]) ==
                  if m < k then Node(RootOf(leaf, k, m, rest), before[last])
                  else Node(before[last], RootOf(leaf, n - k, m - k, rest)))
            && (need <= |before| ==> before[..last][..last - (need - 1)] == before[..|before| - need])
  {
    var last, need := |before| - 1, PathLength(n, m);
    if need <= |before| {
      assert before[|before| - need..][..need - 1] == before[..last][last - (need - 1)..];
    }
  }

  /** Recompute the root; refused unless the path has exactly the length for its position. */
  method RootFromProof<E>(entry: E, index: int64, size: int64, path: seq<TreeHash<E>>) returns (r: Option<TreeHash<E>>)
    ensures r.Some? <==>
            0 <= index < size <= MAX_TREE_SIZE && |path| == PathLength(size as int, index as int)
    ensures r.Some? ==> r.value == RootOf(Entry(entry), size as int, index as int, path)
  {
    if index < 0 || index >= size || size > MAX_TREE_SIZE {
      return None;
    }
    var expected := ExpectedPath(size, index);
    if |path| != expected as int {
      return None;
    }
    var stack := new Siblings(Entry(entry), path);
    var root := stack.Fold(size, index);
    assert path[0..] == path;
    if |stack.siblings| != 0 {
      return None;
    }
    return root;
  }

  /** What the receipt's root check accepts: the recomputed root is the signed one. */
  ghost predicate Accepts<E>(head: TreeHash<E>, entry: E, index: int64, size: int64, path: seq<TreeHash<E>>) {
    && 0 <= index < size <= MAX_TREE_SIZE && |path| == PathLength(size as int, index as int)
    && RootOf(Entry(entry), size as int, index as int, path) == head
  }

  /**
    Exactness: against the tree head of `d` at its size, exactly the entry at
    the index is accepted, with exactly one path, and at most 62 nodes of it.
  */
  lemma ReceiptExact<E>(d: seq<E>, entry: E, index: int64, path: seq<TreeHash<E>>)
    requires 0 < |d| <= MAX_TREE_SIZE as int
    ensures Accepts(TreeHead(d), entry, index, |d| as int64, path) <==>
            0 <= index as int < |d| && entry == d[index] && path == AuditPath(index as int, d)
    ensures 0 <= index as int < |d| ==> |AuditPath(index as int, d)| <= 62
  {
    if 0 <= index as int < |d| {
      PathLengthExact(index as int, d);
      PathLengthFits(|d| as int64, index);
      if |path| == PathLength(|d|, index as int) {
        RootExact(d, index as int, entry, path);
      }
    }
  }
}
