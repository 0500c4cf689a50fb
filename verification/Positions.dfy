// Positions of a Merkle Mountain Range: powers of two, set bits, node heights
// and mountains, defined by recursion on the perfect tree.

module Powers {
  function Pow2(n: nat): (r: nat)
    ensures r > 0
  {
    if n == 0 then 1 else 2 * Pow2(n - 1)
  }

  lemma {:induction false} Pow2Monotone(a: nat, b: nat)
    requires a <= b
    ensures Pow2(a) <= Pow2(b)
    ensures a < b ==> 2 * Pow2(a) <= Pow2(b)
    decreases b
  {
    if a < b {
      Pow2Monotone(a, b - 1);
    }
  }

  lemma {:induction false} Pow2Above(n: nat)
    ensures n < Pow2(n)
  {
    if n > 0 {
      Pow2Above(n - 1);
    }
  }

  /** The order of exponents is the order of the powers. */
  lemma Pow2Order(a: nat, b: nat)
    requires Pow2(a) < Pow2(b)
    ensures a < b
  {
    if b <= a {
      Pow2Monotone(b, a);
    }
  }

  /** `x << k`. */
  function ShiftLeft(x: nat, k: nat): nat {
    x * Pow2(k)
  }

  lemma ShiftLeftStep(x: nat, k: nat)
    ensures ShiftLeft(x, 0) == x && ShiftLeft(0, k) == 0
    ensures ShiftLeft(2 * x, k) == ShiftLeft(x, k + 1)
    ensures ShiftLeft(2 * x + 1, k) == ShiftLeft(x, k + 1) + Pow2(k)
  {
    Doubling(x, Pow2(k));
  }

  lemma Doubling(x: nat, p: nat)
    ensures (2 * x) * p == x * (2 * p)
    ensures (2 * x + 1) * p == x * (2 * p) + p
  {
  }

  /** Number of one bits. */
  function Ones(n: nat): nat {
    if n == 0 then 0 else n % 2 + Ones(n / 2)
  }

  /** Number of bits of `n` without leading zeros. */
  function BitLength(n: nat): nat {
    if n == 0 then 0 else 1 + BitLength(n / 2)
  }

  lemma {:induction false} BitLengthBounds(n: nat)
    ensures n < Pow2(BitLength(n))
    ensures n > 0 ==> BitLength(n) > 0 && Pow2(BitLength(n) - 1) <= n
  {
    if n > 1 {
      BitLengthBounds(n / 2);
    }
  }

  /** The bit length is the only exponent that brackets `n`. */
  lemma BitLengthUnique(n: nat, k: nat)
    requires Pow2(k) <= n < Pow2(k + 1)
    ensures BitLength(n) == k + 1
  {
    BitLengthBounds(n);
    Pow2Order(k, BitLength(n));
    Pow2Order(BitLength(n) - 1, k + 1);
  }

  lemma {:induction false} OnesSplit(h: nat, r: nat)
    requires r < Pow2(h)
    ensures Ones(Pow2(h) + r) == 1 + Ones(r)
  {
    if h > 0 {
      OnesSplit(h - 1, r / 2);
      assert (Pow2(h) + r) / 2 == Pow2(h - 1) + r / 2;
    }
  }

  lemma {:induction false} OnesSucc(n: nat)
    ensures Ones(n + 1) <= Ones(n) + 1
  {
    if n % 2 == 1 {
      OnesSucc(n / 2);
      assert (n + 1) / 2 == n / 2 + 1;
    } else {
      assert (n + 1) / 2 == n / 2;
    }
  }

  lemma {:induction false} OnesBound(n: nat)
    ensures Ones(n) <= n
  {
    if n > 0 {
      OnesBound(n / 2);
    }
  }
}

module Positions {
  import opened Powers

  /** Number of nodes of an MMR of `f` leaves, and the position of leaf `f`. */
  function NodeCount(f: nat): (r: nat)
    ensures r >= f
  {
    OnesBound(f);
    2 * f - Ones(f)
  }

  lemma NodeCountSplit(h: nat, r: nat)
    requires r <= Pow2(h)
    ensures r < Pow2(h) ==> NodeCount(Pow2(h) + r) == 2 * Pow2(h) - 1 + NodeCount(r)
    ensures NodeCount(Pow2(h)) == 2 * Pow2(h) - 1
  {
    OnesSplit(h, 0);
    if r < Pow2(h) {
      OnesSplit(h, r);
    }
  }

  lemma NodeCountStep(f: nat)
    ensures NodeCount(f) < NodeCount(f + 1)
  {
    OnesSucc(f);
  }

  lemma {:induction false} NodeCountMonotone(f: nat, g: nat)
    requires f <= g
    ensures NodeCount(f) <= NodeCount(g)
    ensures f < g ==> NodeCount(f) < NodeCount(g)
    decreases g
  {
    hide NodeCount;
    if f < g {
      NodeCountStep(g - 1);
      NodeCountMonotone(f, g - 1);
    }
  }

  /** Fewer nodes are those of fewer leaves. */
  lemma NodeCountReflects(f: nat, g: nat)
    requires NodeCount(f) < NodeCount(g)
    ensures f < g
  {
    hide NodeCount;
    NodeCountMonotone(g, if f >= g then f else g);
  }

  /** The last leaf at or before position `p`. */
  function LeafFloor(p: nat): (f: nat)
    ensures NodeCount(f) <= p < NodeCount(f + 1)
  {
    if p == 0 then
      NodeCountStep(0);
      0
    else
      var f := LeafFloor(p - 1);
      NodeCountStep(f + 1);
      if NodeCount(f + 1) <= p then f + 1 else f
  }

  lemma LeafFloorUnique(p: nat, f: nat)
    requires NodeCount(f) <= p < NodeCount(f + 1)
    ensures LeafFloor(p) == f
  {
    hide NodeCount, LeafFloor;
    var g := LeafFloor(p);
    if f < g {
      NodeCountMonotone(f + 1, g);
    } else if g < f {
      NodeCountMonotone(g + 1, f);
    }
  }

  lemma LeafFloorOfCount(f: nat)
    ensures LeafFloor(NodeCount(f)) == f
  {
    hide NodeCount, LeafFloor;
    NodeCountStep(f);
    LeafFloorUnique(NodeCount(f), f);
  }

  /** A size that some number of leaves has. */
  predicate Complete(n: nat) {
    NodeCount(LeafFloor(n)) == n
  }

  lemma CompleteCount(n: nat)
    ensures Complete(n) <==> NodeCount(LeafFloor(n)) == n
  {
    hide NodeCount, LeafFloor;
  }

  lemma CompleteIff(n: nat)
    ensures Complete(n) <==> exists f: nat :: NodeCount(f) == n
  {
    hide NodeCount, LeafFloor;
    forall f: nat | NodeCount(f) == n
      ensures Complete(n)
    {
      LeafFloorOfCount(f);
    }
  }

  // ---- heights -----------------------------------------------------------

  /** Height of position `p` in the post-order walk of a perfect tree of height `h`. */
  function HeightIn(p: nat, h: nat): (r: nat)
    requires p < Pow2(h + 1) - 1
    ensures r <= h
    decreases h
  {
    if p == Pow2(h + 1) - 2 then h
    else if p < Pow2(h) - 1 then HeightIn(p, h - 1)
    else HeightIn(p - (Pow2(h) - 1), h - 1)
  }

  /** Height of the node at position `p`, whatever tree it is seen in. */
  function Height(p: nat): nat {
    Pow2Above(p + 1);
    HeightIn(p, p)
  }

  lemma {:induction false} HeightStable(p: nat, h: nat, k: nat)
    requires p < Pow2(h + 1) - 1 && h <= k
    ensures p < Pow2(k + 1) - 1 && HeightIn(p, k) == HeightIn(p, h)
    decreases k
  {
    if h < k {
      HeightStable(p, h, k - 1);
    }
  }

  lemma HeightWithin(p: nat, h: nat)
    requires p < Pow2(h + 1) - 1
    ensures Height(p) == HeightIn(p, h)
  {
    Pow2Above(p + 1);
    if p <= h {
      HeightStable(p, p, h);
    } else {
      HeightStable(p, h, p);
    }
  }

  /** The first positions of a tree are those of its left half. */
  lemma HeightLeft(p: nat, h: nat)
    requires h > 0 && p < Pow2(h) - 1
    ensures p < Pow2(h + 1) - 1 && HeightIn(p, h) == HeightIn(p, h - 1)
  {
  }

  /** The next ones are those of its right half, shifted. */
  lemma HeightRight(q: nat, h: nat)
    requires h > 0 && q < Pow2(h) - 1
    ensures q + Pow2(h) - 1 < Pow2(h + 1) - 2
    ensures HeightIn(q + Pow2(h) - 1, h) == HeightIn(q, h - 1)
  {
  }

  /** After leaf `f` come its completed ancestors, one height at a time. */
  lemma {:induction false} RunIn(f: nat, h: nat, p: nat)
    requires f < Pow2(h) && NodeCount(f) <= p < NodeCount(f + 1)
    ensures p < Pow2(h + 1) - 1 && HeightIn(p, h) == p - NodeCount(f)
    decreases h, 2
  {
    hide NodeCount;
    NodeCountSplit(0, 0);
    if h > 0 {
      var half := Pow2(h - 1);
      NodeCountSplit(h - 1, 0);
      if f < half {
        NodeCountMonotone(f + 1, half);
        RunIn(f, h - 1, p);
        HeightLeft(p, h);
      } else {
        RunRight(f - half, h, p);
      }
    }
  }

  lemma {:induction false} RunRight(g: nat, h: nat, p: nat)
    requires h > 0 && g < Pow2(h - 1)
    requires NodeCount(Pow2(h - 1) + g) <= p < NodeCount(Pow2(h - 1) + g + 1)
    ensures p < Pow2(h + 1) - 1 && HeightIn(p, h) == p - NodeCount(Pow2(h - 1) + g)
    decreases h, 1
  {
    hide NodeCount;
    NodeCountSplit(h - 1, g);
    if g + 1 < Pow2(h - 1) {
      NodeCountSplit(h - 1, g + 1);
      RunIn(g, h - 1, p - (Pow2(h) - 1));
      HeightRight(p - (Pow2(h) - 1), h);
    } else {
      NodeCountSplit(h, 0);
      NodeCountSplit(h - 1, 0);
      assert NodeCount(g + 1) == Pow2(h) - 1;
      RunLast(g, h, p);
    }
  }

  lemma {:induction false} RunLast(g: nat, h: nat, p: nat)
    requires h > 0 && g + 1 == Pow2(h - 1) && NodeCount(g + 1) == Pow2(h) - 1
    requires Pow2(h) - 1 + NodeCount(g) <= p < Pow2(h + 1) - 1
    ensures HeightIn(p, h) == p - (Pow2(h) - 1 + NodeCount(g))
    decreases h, 0
  {
    hide NodeCount;
    NodeCountMonotone(g, g + 1);
    RunIn(g, h - 1, Pow2(h) - 2);
    if p < Pow2(h + 1) - 2 {
      RunIn(g, h - 1, p - (Pow2(h) - 1));
      HeightRight(p - (Pow2(h) - 1), h);
    }
  }

  /** Closed form of the height: how far `p` lies behind the leaf before it. */
  lemma HeightClosed(p: nat)
    ensures Height(p) == p - NodeCount(LeafFloor(p))
  {
    hide NodeCount, LeafFloor;
    var f := LeafFloor(p);
    Pow2Above(f);
    RunIn(f, f, p);
    HeightWithin(p, f);
  }

  /** A size is complete exactly when the next node to be added is a leaf. */
  lemma CompleteIffLeafNext(n: nat)
    ensures Complete(n) <==> Height(n) == 0
  {
    hide NodeCount, LeafFloor;
    HeightClosed(n);
  }

  // ---- the subtree below a node --------------------------------------------

  lemma {:induction false} ChildrenIn(p: nat, h: nat)
    requires p < Pow2(h + 1) - 1 && HeightIn(p, h) > 0
    ensures var g := HeightIn(p, h);
            && p >= Pow2(g + 1) - 2
            && HeightIn(p - Pow2(g), h) == g - 1
            && HeightIn(p - 1, h) == g - 1
  {
    if p == Pow2(h + 1) - 2 {
      HeightLeft(Pow2(h) - 2, h);
      HeightRight(Pow2(h) - 2, h);
    } else if p < Pow2(h) - 1 {
      ChildrenIn(p, h - 1);
      HeightLeft(p - Pow2(HeightIn(p, h)), h);
      HeightLeft(p - 1, h);
    } else {
      var q := p - (Pow2(h) - 1);
      ChildrenIn(q, h - 1);
      HeightRight(q - Pow2(HeightIn(p, h)), h);
      HeightRight(q - 1, h);
    }
  }

  /** The first leaf below a node follows from the last one and the height. */
  lemma {:induction false} SpanIn(f: nat, h: nat, g: nat)
    requires f < Pow2(h) && NodeCount(f) + g < NodeCount(f + 1)
    ensures Pow2(g) <= f + 1
    ensures NodeCount(f + 1 - Pow2(g)) == NodeCount(f) + g + 2 - Pow2(g + 1)
    decreases h, 2
  {
    hide NodeCount;
    NodeCountSplit(0, 0);
    if h > 0 {
      if f < Pow2(h - 1) {
        SpanIn(f, h - 1, g);
      } else {
        SpanRight(f - Pow2(h - 1), h, g);
      }
    }
  }

  lemma {:induction false} SpanRight(f: nat, h: nat, g: nat)
    requires h > 0 && f < Pow2(h - 1)
    requires NodeCount(Pow2(h - 1) + f) + g < NodeCount(Pow2(h - 1) + f + 1)
    ensures Pow2(g) <= Pow2(h - 1) + f + 1
    ensures NodeCount(Pow2(h - 1) + f + 1 - Pow2(g)) == NodeCount(Pow2(h - 1) + f) + g + 2 - Pow2(g + 1)
    decreases h, 1
  {
    hide NodeCount, HeightIn;
    NodeCountSplit(h - 1, f);
    NodeCountStep(f);
    if f + 1 < Pow2(h - 1) {
      NodeCountSplit(h - 1, f + 1);
      SpanIn(f, h - 1, g);
      NodeCountSplit(h - 1, f + 1 - Pow2(g));
    } else {
      SpanLast(f, h, g);
    }
  }

  /** The last run of the right half, which climbs one level above it. */
  lemma {:induction false} SpanLast(f: nat, h: nat, g: nat)
    requires h > 0 && f + 1 == Pow2(h - 1)
    requires NodeCount(Pow2(h - 1) + f) + g < NodeCount(Pow2(h - 1) + f + 1)
    ensures Pow2(g) <= Pow2(h - 1) + f + 1
    ensures NodeCount(Pow2(h - 1) + f + 1 - Pow2(g)) == NodeCount(Pow2(h - 1) + f) + g + 2 - Pow2(g + 1)
    decreases h, 0
  {
    hide NodeCount, HeightIn;
    NodeCountSplit(h - 1, f);
    LastLeafRun(f, h - 1);
    LastRunLength(f, h);
    if g < h {
      SpanIn(f, h - 1, g);
      Pow2Monotone(g, h - 1);
      NodeCountSplit(h - 1, f + 1 - Pow2(g));
    } else {
      NodeCountSplit(0, 0);
    }
  }

  /** The last run of a tree of `2^h` leaves climbs to height `h`. */
  lemma LastRunLength(f: nat, h: nat)
    requires h > 0 && f + 1 == Pow2(h - 1)
    ensures NodeCount(f + 1) == Pow2(h) - 1
    ensures NodeCount(Pow2(h - 1) + f + 1) == Pow2(h + 1) - 1
  {
    hide NodeCount;
    NodeCountSplit(h - 1, 0);
    NodeCountSplit(h, 0);
  }

  /** The last leaf of a perfect tree is followed by one ancestor per level. */
  lemma LastLeafRun(f: nat, h: nat)
    requires f + 1 == Pow2(h)
    ensures NodeCount(f) + h == Pow2(h + 1) - 2
  {
    hide NodeCount;
    NodeCountSplit(h, 0);
    NodeCountStep(f);
    RunIn(f, h, Pow2(h + 1) - 2);
  }

  /** Index of the first leaf below the node at `r`. */
  function FirstLeaf(r: nat): (s: nat)
    ensures s + Pow2(Height(r)) == LeafFloor(r) + 1
    ensures NodeCount(s) + Pow2(Height(r) + 1) == r + 2
  {
    hide NodeCount, LeafFloor;
    HeightClosed(r);
    Pow2Above(LeafFloor(r));
    SpanIn(LeafFloor(r), LeafFloor(r), Height(r));
    LeafFloor(r) + 1 - Pow2(Height(r))
  }

  /**
    An interior node at `r` of height `h` has its left child at `r - 2^h` and
    its right child at `r - 1`; a leaf follows the left child.
  */
  lemma Children(r: nat)
    requires Height(r) > 0
    ensures var h := Height(r);
            && r + 2 >= Pow2(h + 1) && r > Pow2(h) - 1
            && Height(r - Pow2(h)) == h - 1 && Height(r - 1) == h - 1
            && FirstLeaf(r - Pow2(h)) == FirstLeaf(r)
            && FirstLeaf(r - 1) == FirstLeaf(r) + Pow2(h - 1)
            && Height(r - Pow2(h) + 1) == 0
  {
    hide NodeCount, LeafFloor;
    var h := Height(r);
    ChildHeights(r);
    HeightClosed(r);
    LeafFloorUnique(r - 1, LeafFloor(r));
    LeafFloorOfCount(FirstLeaf(r - 1));
    HeightClosed(r - Pow2(h) + 1);
    LeafFloorOfCount(FirstLeaf(r - Pow2(h)));
    LeafFloorOfCount(FirstLeaf(r));
  }

  lemma ChildHeights(r: nat)
    requires Height(r) > 0
    ensures var h := Height(r);
            && r + 2 >= Pow2(h + 1) && r > Pow2(h) - 1
            && Height(r - Pow2(h)) == h - 1 && Height(r - 1) == h - 1
  {
    Pow2Above(r + 1);
    ChildrenIn(r, r);
    hide HeightIn;
    HeightWithin(r - Pow2(Height(r)), r);
    HeightWithin(r - 1, r);
  }

  // ---- mountains -----------------------------------------------------------

  /** A perfect tree of the MMR: its height and the position of its root. */
  datatype Mountain = Mountain(height: nat, peak: nat)

  /** The mountains over `f` leaves from position `b`: the one bits of `f`, high to low. */
  function MountainsIn(f: nat, b: nat, h: nat): (ms: seq<Mountain>)
    requires f < Pow2(h)
    decreases h
  {
    if h == 0 then []
    else if f < Pow2(h - 1) then MountainsIn(f, b, h - 1)
    else [Mountain(h - 1, b + Pow2(h) - 2)] + MountainsIn(f - Pow2(h - 1), b + Pow2(h) - 1, h - 1)
  }

  function Mountains(f: nat): seq<Mountain> {
    Pow2Above(f);
    MountainsIn(f, 0, f)
  }

  lemma {:induction false} MountainsStable(f: nat, b: nat, h: nat, k: nat)
    requires f < Pow2(h) && h <= k
    ensures f < Pow2(k) && MountainsIn(f, b, k) == MountainsIn(f, b, h)
    decreases k
  {
    Pow2Monotone(h, k);
    if h < k {
      Pow2Monotone(h, k - 1);
      MountainsStable(f, b, h, k - 1);
    }
  }

  lemma MountainsWithin(f: nat, h: nat)
    requires f < Pow2(h)
    ensures Mountains(f) == MountainsIn(f, 0, h)
  {
    Pow2Above(f);
    if f <= h {
      MountainsStable(f, 0, f, h);
    } else {
      MountainsStable(f, 0, h, f);
    }
  }

  /** As many mountains as one bits. */
  lemma {:induction false} MountainCount(f: nat, b: nat, h: nat)
    requires f < Pow2(h)
    ensures |MountainsIn(f, b, h)| == Ones(f)
  {
    if h > 0 {
      if f < Pow2(h - 1) {
        MountainCount(f, b, h - 1);
      } else {
        OnesSplit(h - 1, f - Pow2(h - 1));
        MountainCount(f - Pow2(h - 1), b + Pow2(h) - 1, h - 1);
      }
    }
  }

  /** Where a mountain stands among the others, relative to the base `b`. */
  lemma {:induction false} MountainIn(f: nat, b: nat, h: nat, i: nat) returns (g: nat)
    requires f < Pow2(h) && i < |MountainsIn(f, b, h)|
    ensures var ms := MountainsIn(f, b, h);
            && ms[i].peak >= b && ms[i].height < h
            && ms[i].peak + 2 == Pow2(ms[i].height + 1) + (if i == 0 then b else ms[i - 1].peak + 1)
            && (i > 0 ==> ms[i - 1].height > ms[i].height)
            && (i + 1 == |ms| ==> ms[i].peak + 1 == b + NodeCount(f))
            && ms[i].peak < b + NodeCount(f) < ms[i].peak + Pow2(ms[i].height + 1)
            && NodeCount(g) == ms[i].peak + 1 - b && g <= f
  {
    hide NodeCount;
    NodeCountSplit(0, 0);
    if f < Pow2(h - 1) {
      g := MountainIn(f, b, h - 1, i);
    } else {
      var half := Pow2(h - 1);
      NodeCountSplit(h - 1, f - half);
      if i == 0 {
        g := half;
        NodeCountMonotone(f - half, half);
        if f > half {
          MountainsNonEmpty(f - half, b + Pow2(h) - 1, h - 1);
        }
      } else {
        g := MountainIn(f - half, b + Pow2(h) - 1, h - 1, i - 1);
        NodeCountSplit(h - 1, g);
        g := half + g;
      }
    }
  }

  lemma {:induction false} MountainsNonEmpty(f: nat, b: nat, h: nat)
    requires 0 < f < Pow2(h)
    ensures |MountainsIn(f, b, h)| > 0
  {
    if f < Pow2(h - 1) {
      MountainsNonEmpty(f, b, h - 1);
    }
  }

  lemma {:induction false} MountainHeightIn(f: nat, b: nat, h: nat, i: nat)
    requires f < Pow2(h) && i < |MountainsIn(f, b, h)|
    ensures var m := MountainsIn(f, b, h)[i];
            && b <= m.peak < b + Pow2(h + 1) - 2
            && HeightIn(m.peak - b, h) == m.height
  {
    if f < Pow2(h - 1) {
      MountainHeightIn(f, b, h - 1, i);
    } else if i > 0 {
      MountainHeightIn(f - Pow2(h - 1), b + Pow2(h) - 1, h - 1, i - 1);
    }
  }

  /**
    Mountain `i` of `f` leaves: its root has the mountain's height, it begins
    where the one before ends, heights fall, a leaf follows its peak, and what
    is right of it is less than a tree of its own height.
  */
  lemma MountainFacts(f: nat, i: nat)
    requires i < |Mountains(f)|
    ensures var ms := Mountains(f); var m := ms[i];
            && Height(m.peak) == m.height
            && m.peak + 2 == Pow2(m.height + 1) + (if i == 0 then 0 else ms[i - 1].peak + 1)
            && (i > 0 ==> ms[i - 1].height > m.height)
            && (i + 1 == |ms| ==> m.peak + 1 == NodeCount(f))
            && m.peak < NodeCount(f) < m.peak + Pow2(m.height + 1)
            && Height(m.peak + 1) == 0 && LeafFloor(m.peak + 1) <= f
  {
    hide NodeCount, HeightIn, LeafFloor;
    Pow2Above(f);
    MountainHeightIn(f, 0, f, i);
    HeightWithin(Mountains(f)[i].peak, f);
    var g := MountainIn(f, 0, f, i);
    LeafFloorOfCount(g);
    HeightClosed(NodeCount(g));
  }

  // ---- the greedy decomposition ---------------------------------------------

  /** Height of the largest mountain that `s` nodes can hold. */
  function TopHeight(s: nat): (h: nat)
    requires s > 0
    ensures Pow2(h + 1) - 1 <= s < Pow2(h + 2) - 1
  {
    BitLengthBounds(s + 1);
    Pow2Order(1, BitLength(s + 1));
    BitLength(s + 1) - 2
  }

  lemma TopHeightUnique(s: nat, h: nat)
    requires Pow2(h + 1) - 1 <= s < Pow2(h + 2) - 1
    ensures s > 0 && TopHeight(s) == h
  {
    BitLengthUnique(s + 1, h + 1);
  }

  /** Largest mountains first, for any number of nodes, complete or not. */
  function Greedy(s: nat, b: nat): seq<Mountain> {
    if s == 0 then []
    else
      var h := TopHeight(s);
      var m := Pow2(h + 1) - 1;
      [Mountain(h, b + m - 1)] + Greedy(s - m, b + m)
  }

  lemma {:induction false} GreedyIsMountains(f: nat, b: nat, h: nat)
    requires f < Pow2(h)
    ensures Greedy(NodeCount(f), b) == MountainsIn(f, b, h)
  {
    hide NodeCount;
    NodeCountSplit(0, 0);
    if h > 0 {
      if f < Pow2(h - 1) {
        GreedyIsMountains(f, b, h - 1);
      } else {
        var g := f - Pow2(h - 1);
        NodeCountSplit(h - 1, g);
        NodeCountSplit(h - 1, 0);
        NodeCountMonotone(g, Pow2(h - 1));
        TopHeightUnique(NodeCount(f), h - 1);
        GreedyIsMountains(g, b + Pow2(h) - 1, h - 1);
      }
    }
  }

  /** Taking the largest mountain off keeps completeness only if a smaller rest remains. */
  lemma CompleteStep(s: nat)
    requires s > 0
    ensures var m := Pow2(TopHeight(s) + 1) - 1;
            Complete(s) <==> (s - m < m && Complete(s - m))
    ensures Complete(s) ==>
              LeafFloor(s) == Pow2(TopHeight(s)) + LeafFloor(s - (Pow2(TopHeight(s) + 1) - 1))
  {
    hide NodeCount, LeafFloor, TopHeight;
    var h := TopHeight(s);
    var m := Pow2(h + 1) - 1;
    NodeCountSplit(h, 0);
    NodeCountSplit(h + 1, 0);
    var f := LeafFloor(s);
    if f < Pow2(h) {
      NodeCountMonotone(f + 1, Pow2(h));
    }
    if f >= Pow2(h + 1) {
      NodeCountMonotone(Pow2(h + 1), f);
    }
    assert Pow2(h) <= f < Pow2(h + 1);
    if Complete(s) {
      NodeCountSplit(h, f - Pow2(h));
      NodeCountMonotone(f - Pow2(h), Pow2(h));
      LeafFloorOfCount(f - Pow2(h));
    }
    if s - m < m && Complete(s - m) {
      var g := LeafFloor(s - m);
      if g >= Pow2(h) {
        NodeCountMonotone(Pow2(h), g);
      }
      NodeCountSplit(h, g);
      LeafFloorOfCount(Pow2(h) + g);
    }
  }
}
