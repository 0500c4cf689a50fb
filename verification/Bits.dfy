// Shifts, single bits and exclusive or, and the highest bit in which two leaf
// counts differ.

module Bits {
  import opened Powers
  import opened Positions

  /** `x >> k`. */
  function ShiftRight(x: nat, k: nat): nat {
    if k == 0 then x else ShiftRight(x / 2, k - 1)
  }

  /** `(x >> k) & 1`, as a truth value. */
  predicate Bit(x: nat, k: nat) {
    ShiftRight(x, k) % 2 == 1
  }

  /** The low `k` bits. */
  function Low(x: nat, k: nat): (r: nat)
    ensures r < Pow2(k)
  {
    if k == 0 then 0 else x % 2 + 2 * Low(x / 2, k - 1)
  }

  lemma {:induction false} LowStep(x: nat, k: nat)
    ensures Low(x, k + 1) == Low(x, k) + if Bit(x, k) then Pow2(k) else 0
  {
    if k > 0 {
      LowStep(x / 2, k - 1);
    }
  }

  lemma {:induction false} LowAll(x: nat, k: nat)
    requires x < Pow2(k)
    ensures Low(x, k) == x
  {
    if k > 0 {
      LowAll(x / 2, k - 1);
    }
  }

  function Xor(a: nat, b: nat): nat
    decreases a + b
  {
    if a == 0 && b == 0 then 0
    else (if a % 2 == b % 2 then 0 else 1) + 2 * Xor(a / 2, b / 2)
  }

  /** The highest bit that differs. */
  function Split(a: nat, b: nat): int {
    BitLength(Xor(a, b)) - 1
  }

  lemma {:induction false} XorSharedTop(k: nat, a: nat, b: nat)
    requires a < Pow2(k) && b < Pow2(k)
    ensures Xor(Pow2(k) + a, Pow2(k) + b) == Xor(a, b)
  {
    if k == 0 {
      assert Xor(1, 1) == 2 * Xor(0, 0);
    } else {
      XorSharedTop(k - 1, a / 2, b / 2);
      XorStep(Pow2(k) + a, Pow2(k) + b);
      XorStep(a, b);
      assert (Pow2(k) + a) / 2 == Pow2(k - 1) + a / 2;
      assert (Pow2(k) + b) / 2 == Pow2(k - 1) + b / 2;
    }
  }

  lemma XorStep(a: nat, b: nat)
    ensures Xor(a, b) == (if a % 2 == b % 2 then 0 else 1) + 2 * Xor(a / 2, b / 2)
  {
    if a == 0 && b == 0 {
      assert Xor(0, 0) == 0;
    }
  }

  lemma BitLengthStep(x: nat, bit: nat)
    requires bit <= 1 && BitLength(x) > 0
    ensures BitLength(bit + 2 * x) == BitLength(x) + 1
  {
    assert (bit + 2 * x) / 2 == x;
  }

  lemma {:induction false} XorTop(k: nat, a: nat, b: nat)
    requires a < Pow2(k) && b < Pow2(k)
    ensures BitLength(Xor(a, Pow2(k) + b)) == k + 1
  {
    if k == 0 {
      assert Xor(0, 1) == 1 + 2 * Xor(0, 0);
      assert BitLength(1) == 1 + BitLength(0);
    } else {
      hide Xor;
      XorTop(k - 1, a / 2, b / 2);
      XorStep(a, Pow2(k) + b);
      assert (Pow2(k) + b) / 2 == Pow2(k - 1) + b / 2;
      BitLengthStep(Xor(a / 2, (Pow2(k) + b) / 2), if a % 2 == (Pow2(k) + b) % 2 then 0 else 1);
    }
  }

  /**
    What the split of two leaf counts means for their mountains: those above it
    are shared, the newer log has one at it, and all other old ones lie inside that.
  */
  ghost predicate SplitsAt(f: nat, t: nat, b: nat, h: nat, above: nat)
    requires f < Pow2(h) && t < Pow2(h)
  {
    var mf, mt, s := MountainsIn(f, b, h), MountainsIn(t, b, h), Split(f, t);
    && 0 <= s < h && above <= |mf| && above < |mt|
    && mf[..above] == mt[..above]
    && mt[above].height == s
    && (forall i: nat | i < above :: mf[i].height > s)
    && (forall i: nat | above <= i < |mf| ::
          mf[i].height < s && mt[above].peak + 2 <= mf[i].peak + Pow2(s + 1) && mf[i].peak < mt[above].peak)
  }

  lemma {:induction false} SplitMountains(f: nat, t: nat, b: nat, h: nat) returns (above: nat)
    requires f < t < Pow2(h)
    ensures SplitsAt(f, t, b, h, above)
    decreases h, 1
  {
    if t < Pow2(h - 1) {
      above := SplitMountains(f, t, b, h - 1);
    } else if f >= Pow2(h - 1) {
      above := SplitShared(f - Pow2(h - 1), t - Pow2(h - 1), b, h);
    } else {
      XorTop(h - 1, f, t - Pow2(h - 1));
      above := 0;
      forall i: nat | i < |MountainsIn(f, b, h)|
        ensures MountainsIn(f, b, h)[i].height < h - 1
        ensures b <= MountainsIn(f, b, h)[i].peak < b + Pow2(h) - 2
      {
        MountainHeightIn(f, b, h - 1, i);
        var g := MountainIn(f, b, h - 1, i);
      }
    }
  }

  lemma {:induction false} SplitShared(f: nat, t: nat, b: nat, h: nat) returns (above: nat)
    requires h > 0 && f < t < Pow2(h - 1)
    ensures SplitsAt(Pow2(h - 1) + f, Pow2(h - 1) + t, b, h, above)
    decreases h, 0
  {
    hide Xor, MountainsIn, BitLength;
    var b' := b + Pow2(h) - 1;
    var rest := SplitMountains(f, t, b', h - 1);
    above := rest + 1;
    XorSharedTop(h - 1, f, t);
    MountainsCons(f, b, h);
    MountainsCons(t, b, h);
  }

  lemma MountainsCons(f: nat, b: nat, h: nat)
    requires h > 0 && f < Pow2(h - 1)
    ensures MountainsIn(Pow2(h - 1) + f, b, h) ==
            [Mountain(h - 1, b + Pow2(h) - 2)] + MountainsIn(f, b + Pow2(h) - 1, h - 1)
  {
  }

  // ---- peak heights are the one bits ----------------------------------------------

  lemma {:induction false} BitTop(f: nat, h: nat, k: nat)
    requires f < Pow2(h)
    ensures k >= h ==> !Bit(f, k)
    ensures Bit(Pow2(h) + f, k) <==> k == h || Bit(f, k)
  {
    if k > 0 {
      if h > 0 {
        assert (Pow2(h) + f) / 2 == Pow2(h - 1) + f / 2;
        BitTop(f / 2, h - 1, k - 1);
      } else {
        BitTop(0, 0, k - 1);
      }
    }
  }

  ghost predicate HasHeight(ms: seq<Mountain>, k: nat) {
    exists i | 0 <= i < |ms| :: ms[i].height == k
  }

  lemma {:induction false} HeightsAreBitsIn(f: nat, b: nat, h: nat, k: nat)
    requires f < Pow2(h)
    ensures HasHeight(MountainsIn(f, b, h), k) <==> Bit(f, k)
  {
    if h == 0 {
      BitTop(0, 0, k);
    } else if f < Pow2(h - 1) {
      HeightsAreBitsIn(f, b, h - 1, k);
    } else {
      var g := f - Pow2(h - 1);
      var rest := MountainsIn(g, b + Pow2(h) - 1, h - 1);
      var ms := MountainsIn(f, b, h);
      HeightsAreBitsIn(g, b + Pow2(h) - 1, h - 1, k);
      BitTop(g, h - 1, k);
      assert ms[0].height == h - 1 && ms[1..] == rest;
      if HasHeight(rest, k) {
        var i :| 0 <= i < |rest| && rest[i].height == k;
        assert ms[i + 1] == rest[i];
      }
    }
  }

  /** A log of `f` leaves has a mountain of height `k` exactly when bit `k` of `f` is set. */
  lemma PeakHeightsAreBits(f: nat, k: nat)
    ensures HasHeight(Mountains(f), k) <==> Bit(f, k)
  {
    Pow2Above(f);
    HeightsAreBitsIn(f, 0, f, k);
  }
}
