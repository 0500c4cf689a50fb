// The profile's bottom-up walk, and why it is the core's top-down path.

module Upward {
  import opened Powers
  import opened Positions
  import opened Paths
  import opened AppendSpec
  import opened Accumulators
  import opened Digests
  import ProfilePositions

  /** One step up from `i`, read off the height of the next position. */
  function UpStep(i: nat): PathStep {
    hide Height, LeafFloor, NodeCount;
    var g := Height(i);
    if Height(i + 1) > g then
      NextFloor(i + 1);
      Children(i + 1);
      Pow2Above(g + 1);
      PathStep(i + 1 - Pow2(g + 1), true, i + 1)
    else
      PathStep(i + Pow2(g + 1) - 1, false, i + Pow2(g + 1))
  }

  /** Inside a tree: the parent of a left child stands where the step says. */
  lemma {:induction false} LeftParentIn(p: nat, h: nat)
    requires p < Pow2(h + 1) - 2 && HeightIn(p + 1, h) <= HeightIn(p, h)
    ensures p + Pow2(HeightIn(p, h) + 1) < Pow2(h + 1) - 1
    ensures HeightIn(p + Pow2(HeightIn(p, h) + 1), h) == HeightIn(p, h) + 1
  {
    if p == Pow2(h) - 2 {
      HeightLeft(p, h);
    } else if p < Pow2(h) - 2 {
      HeightLeft(p, h);
      HeightLeft(p + 1, h);
      LeftParentIn(p, h - 1);
      HeightLeft(p + Pow2(HeightIn(p, h) + 1), h);
    } else {
      var q := p - (Pow2(h) - 1);
      HeightRight(q, h);
      if q < Pow2(h) - 2 {
        HeightRight(q + 1, h);
        LeftParentIn(q, h - 1);
        HeightRight(q + Pow2(HeightIn(p, h) + 1), h);
      }
    }
  }

  /** Every step goes one height up. */
  lemma UpStepHeight(i: nat)
    ensures Height(UpStep(i).parent) == Height(i) + 1
    ensures i < UpStep(i).parent
  {
    hide Height, HeightIn, LeafFloor, NodeCount;
    if Height(i + 1) > Height(i) {
      NextFloor(i + 1);
    } else {
      Pow2Above(i + 1);
      HeightWithin(i, i + 1);
      HeightWithin(i + 1, i + 1);
      LeftParentIn(i, i + 1);
      HeightWithin(i + Pow2(Height(i) + 1), i + 1);
    }
  }

  /** `n` steps up from `i`. */
  function UpPath(i: nat, n: nat): (path: seq<PathStep>)
    ensures |path| == n
    decreases n
  {
    if n == 0 then [] else [UpStep(i)] + UpPath(UpStep(i).parent, n - 1)
  }

  /** The node `n` steps up from `i`. */
  function Ancestor(i: nat, n: nat): nat
    decreases n
  {
    if n == 0 then i else Ancestor(UpStep(i).parent, n - 1)
  }

  lemma {:induction false} UpSnoc(i: nat, n: nat)
    ensures UpPath(i, n + 1) == UpPath(i, n) + [UpStep(Ancestor(i, n))]
    ensures Ancestor(i, n + 1) == UpStep(Ancestor(i, n)).parent
    ensures Height(Ancestor(i, n)) == Height(i) + n
    decreases n
  {
    hide Height, UpStep;
    if n > 0 {
      UpStepHeight(i);
      UpSnoc(UpStep(i).parent, n - 1);
    }
  }

  /** The step from a child to its parent is the one the heights show. */
  lemma ChildStep(root: nat)
    requires Height(root) > 0
    ensures 0 < Pow2(Height(root)) <= root
    ensures UpStep(root - 1) == PathStep(root - Pow2(Height(root)), true, root)
    ensures UpStep(root - Pow2(Height(root))) == PathStep(root - 1, false, root)
  {
    hide Height, FirstLeaf;
    Children(root);
  }

  /** The top-down path equals the bottom-up one. */
  lemma {:induction false} UpIsPath(root: nat, target: nat)
    requires Below(root, Height(root), target)
    ensures Height(target) <= Height(root) && Pow2(Height(root) + 1) <= root + 2
    ensures Path(root, Height(root), target) == UpPath(target, Height(root) - Height(target))
    ensures Ancestor(target, Height(root) - Height(target)) == root
    decreases root
  {
    hide Height, FirstLeaf, Path, UpStep, Below;
    PathWithin(root, target);
    if target == root {
      EmptyFold(root, ZERO_HASH, []);
    } else {
      var child, step := PathLast(root, target);
      ChildStep(root);
      UpIsPath(child, target);
      UpSnoc(target, Height(child) - Height(target));
    }
  }

  /** The next step above a peak would leave the array. */
  lemma PeakStepOutside(f: nat, i: nat)
    requires i < |Mountains(f)|
    ensures UpStep(Mountains(f)[i].peak).sibling >= NodeCount(f)
  {
    hide Height, NodeCount, Mountains;
    MountainFacts(f, i);
  }

  function SiblingPositions(path: seq<PathStep>): (ps: seq<nat>)
    ensures |ps| == |path|
    ensures forall i :: 0 <= i < |path| ==> ps[i] == path[i].sibling
  {
    seq(|path|, i requires 0 <= i < |path| => path[i].sibling)
  }

  /** The walk from `i` stops after `n` steps: the first sibling beyond `c` is the next one. */
  ghost predicate StopsAfter(i: nat, c: int, n: nat) {
    && (forall k: nat | k < n :: UpStep(Ancestor(i, k)).sibling <= c)
    && UpStep(Ancestor(i, n)).sibling > c
  }

  /** It always stops: some mountain contains both `i` and the next sibling above it lies outside. */
  lemma SomeStop(i: nat, c: int) returns (n: nat)
    ensures UpStep(Ancestor(i, n)).sibling > c
  {
    hide Height, NodeCount, Mountains, UpStep, Ancestor, Path;
    var f := if c > i then c + 1 else i + 1;
    NodeCountMonotone(0, f);
    var k := Containing(f, i);
    var root := Mountains(f)[k].peak;
    UpIsPath(root, i);
    PeakStepOutside(f, k);
    n := Height(root) - Height(i);
  }

  lemma StopUnique(i: nat, c: int, m: nat, n: nat)
    requires StopsAfter(i, c, m) && StopsAfter(i, c, n)
    ensures m == n
  {
    hide UpStep, Ancestor;
    assert m < n ==> UpStep(Ancestor(i, m)).sibling <= c;
    assert n < m ==> UpStep(Ancestor(i, n)).sibling <= c;
  }

  /** In a complete MMR that ends at `c`, the walk stops exactly at the mountain that contains its start. */
  lemma StopsAtPeak(f: nat, i: nat)
    requires i < NodeCount(f)
    ensures var m := Mountains(f)[Containing(f, i)];
            && Height(i) <= m.height && Pow2(m.height + 1) <= m.peak + 2
            && StopsAfter(i, NodeCount(f) - 1, m.height - Height(i))
            && Path(m.peak, m.height, i) == UpPath(i, m.height - Height(i))
  {
    hide Height, NodeCount, Mountains, UpStep, Ancestor, Path, UpPath;
    var k := Containing(f, i);
    var root := Mountains(f)[k].peak;
    MountainFacts(f, k);
    UpIsPath(root, i);
    PathWithin(root, i);
    PeakStepOutside(f, k);
    var n := Height(root) - Height(i);
    forall j: nat | j < n
      ensures UpStep(Ancestor(i, j)).sibling <= NodeCount(f) - 1
    {
      UpPrefix(i, j, n);
    }
  }

  /**
    `inclusion_proof_path`: walk up until a sibling lies beyond the last node
    `c`.  In a complete MMR of `f` leaves this is the core's path to the
    mountain that contains `start`.
  */
  method InclusionProofPath(start: nat, c: int) returns (path: seq<nat>)
    ensures StopsAfter(start, c, |path|) && path == SiblingPositions(UpPath(start, |path|))
    ensures forall f: nat | c + 1 == NodeCount(f) && start <= c ::
              var m := Mountains(f)[Containing(f, start)];
              && Pow2(m.height + 1) <= m.peak + 2
              && path == SiblingPositions(Path(m.peak, m.height, start))
  {
    hide Height, NodeCount, Mountains, Path, LeafFloor, UpPath, Ancestor, StopsAfter;
    ghost var stop := SomeStop(start, c);
    UpNone(start);
    NoStep(start, c);
    var i := start;
    path := [];
    var g := ProfilePositions.IndexHeight(i);
    while true
      invariant |path| <= stop
      invariant i == Ancestor(start, |path|) && g == Height(i)
      invariant path == SiblingPositions(UpPath(start, |path|))
      invariant Within(start, c, |path|)
      decreases stop - |path|
    {
      var isibling: int;
      var siblingOffset := 2 * Pow2(g);
      ghost var step := UpStep(i);
      var next := ProfilePositions.IndexHeight(i + 1);
      UpSnoc(start, |path|);
      UpStepHeight(i);
      if next > g {
        isibling := i + 1 - siblingOffset;
        i := i + 1;
      } else {
        isibling := i + siblingOffset - 1;
        i := i + siblingOffset;
      }
      StepWithin(start, c, |path|);
      if isibling > c {
        CoreStops(start, c, |path|);
        return path;
      }
      path := path + [isibling];
      g := g + 1;
    }
  }

  ghost predicate Within(i: nat, c: int, n: nat) {
    forall k: nat | k < n :: UpStep(Ancestor(i, k)).sibling <= c
  }

  lemma NoStep(i: nat, c: int)
    ensures Within(i, c, 0)
  {
  }

  lemma StepWithin(i: nat, c: int, n: nat)
    requires Within(i, c, n)
    ensures UpStep(Ancestor(i, n)).sibling <= c ==> Within(i, c, n + 1)
    ensures UpStep(Ancestor(i, n)).sibling > c ==> StopsAfter(i, c, n)
  {
    hide UpStep, Ancestor;
  }

  lemma CoreStops(i: nat, c: int, n: nat)
    requires StopsAfter(i, c, n)
    ensures forall f: nat | c + 1 == NodeCount(f) && i <= c ::
              var m := Mountains(f)[Containing(f, i)];
              && Pow2(m.height + 1) <= m.peak + 2 && Path(m.peak, m.height, i) == UpPath(i, n)
  {
    hide Height, NodeCount, Mountains, UpStep, Ancestor, Path, UpPath, StopsAfter;
    forall f: nat | c + 1 == NodeCount(f) && i <= c
      ensures var m := Mountains(f)[Containing(f, i)];
              && Pow2(m.height + 1) <= m.peak + 2 && Path(m.peak, m.height, i) == UpPath(i, n)
    {
      StopsAtPeak(f, i);
      StopUnique(i, c, n, Mountains(f)[Containing(f, i)].height - Height(i));
    }
  }

  lemma UpNone(i: nat)
    ensures UpPath(i, 0) == [] && Ancestor(i, 0) == i
  {
  }

  lemma {:induction false} UpPrefix(i: nat, k: nat, n: nat)
    requires k < n
    ensures UpPath(i, n)[k] == UpStep(Ancestor(i, k))
    decreases n
  {
    hide UpStep;
    if k > 0 {
      UpPrefix(UpStep(i).parent, k - 1, n - 1);
    }
  }

  /** The hash reached by consuming every element of a proof on the way up. */
  function FoldUp(i: nat, acc: Hash, ws: seq<Hash>): Hash
    decreases |ws|
  {
    if ws == [] then acc
    else FoldUp(UpStep(i).parent, StepHash(UpStep(i), ws[0], acc), ws[1..])
  }

  method IncludedRoot(start: nat, nodehash: Hash, proof: seq<Hash>) returns (root: Hash)
    ensures root == FoldUp(start, nodehash, proof)
  {
    hide Height;
    root := nodehash;
    var i: nat := start;
    var g := ProfilePositions.IndexHeight(i);
    for k := 0 to |proof|
      invariant g == Height(i)
      invariant FoldUp(i, root, proof[k..]) == FoldUp(start, nodehash, proof)
    {
      var sibling := proof[k];
      assert proof[k..][0] == sibling && proof[k..][1..] == proof[k + 1..];
      UpStepHeight(i);
      var next := ProfilePositions.IndexHeight(i + 1);
      if next > g {
        i := i + 1;
        root := Interior(i, sibling, root);
      } else {
        i := i + 2 * Pow2(g);
        root := Interior(i, root, sibling);
      }
      g := g + 1;
    }
  }

  lemma {:induction false} FoldUpSnoc(i: nat, acc: Hash, ws: seq<Hash>, w: Hash)
    ensures FoldUp(i, acc, ws + [w]) == StepHash(UpStep(Ancestor(i, |ws|)), w, FoldUp(i, acc, ws))
    decreases |ws|
  {
    hide UpStep, StepHash;
    if ws == [] {
      assert [] + [w] == [w];
    } else {
      assert (ws + [w])[0] == ws[0] && (ws + [w])[1..] == ws[1..] + [w];
      FoldUpSnoc(UpStep(i).parent, StepHash(UpStep(i), ws[0], acc), ws[1..], w);
    }
  }

  /** Both folds are one: along the bottom-up path, from either end. */
  lemma {:induction false} FoldUpIsFold(i: nat, acc: Hash, ws: seq<Hash>)
    ensures FoldUp(i, acc, ws) == Fold(acc, UpPath(i, |ws|), ws)
    decreases |ws|
  {
    hide UpStep, StepHash;
    if ws != [] {
      var n := |ws| - 1;
      UpSnoc(i, n);
      FoldSnoc(acc, UpPath(i, n), UpStep(Ancestor(i, n)), ws);
      assert ws == ws[..n] + [ws[n]];
      FoldUpSnoc(i, acc, ws[..n], ws[n]);
      FoldUpIsFold(i, acc, ws[..n]);
    }
  }
}
