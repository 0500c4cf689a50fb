// Sibling paths from a node up to the mountain root above it.

module Paths {
  import opened Powers
  import opened Positions
  import opened Forest
  import opened Digests

  /** One step up: the sibling, whether the climbing node is the right child, the parent. */
  datatype PathStep = PathStep(sibling: nat, targetIsRight: bool, parent: nat)

  /** Sibling path from `target` up to the root of the tree of height `h` at `root`. */
  function Path(root: nat, h: nat, target: nat): (path: seq<PathStep>)
    requires Pow2(h + 1) <= root + 2
    ensures |path| <= h
  {
    if h == 0 || root == target then []
    else if target <= root - Pow2(h) then
      Path(root - Pow2(h), h - 1, target) + [PathStep(root - 1, false, root)]
    else
      Path(root - 1, h - 1, target) + [PathStep(root - Pow2(h), true, root)]
  }

  function Reversed(path: seq<PathStep>): (r: seq<PathStep>) {
    if path == [] then [] else Reversed(path[1..]) + [path[0]]
  }

  lemma {:induction false} ReversedSnoc(path: seq<PathStep>, step: PathStep)
    ensures Reversed(path + [step]) == [step] + Reversed(path)
  {
    if path != [] {
      ReversedSnoc(path[1..], step);
      assert (path + [step])[1..] == path[1..] + [step];
    }
  }

  /** `_locate_path`: collect the steps from the root down, then reverse them. */
  method LocatePath(root: nat, height: nat, target: nat) returns (path: seq<PathStep>)
    requires Pow2(height + 1) <= root + 2
    ensures path == Path(root, height, target)
  {
    var topDown: seq<PathStep> := [];
    var curRoot := root;
    var curHeight := height;
    while curHeight > 0 && curRoot != target
      invariant Pow2(curHeight + 1) <= curRoot + 2
      invariant Path(root, height, target) == Path(curRoot, curHeight, target) + Reversed(topDown)
    {
      var parentPos := curRoot;
      var leftSize := Pow2(curHeight) - 1;
      var leftChildRoot := curRoot - leftSize - 1;
      var rightChildRoot := curRoot - 1;
      if target <= leftChildRoot {
        ReversedSnoc(topDown, PathStep(rightChildRoot, false, parentPos));
        topDown := topDown + [PathStep(rightChildRoot, false, parentPos)];
        curRoot := leftChildRoot;
      } else {
        ReversedSnoc(topDown, PathStep(leftChildRoot, true, parentPos));
        topDown := topDown + [PathStep(leftChildRoot, true, parentPos)];
        curRoot := rightChildRoot;
      }
      curHeight := curHeight - 1;
    }
    return Reversed(topDown);
  }

  /** `target` lies in the tree of height `h` whose root is at `root`. */
  predicate Below(root: nat, h: nat, target: nat) {
    target <= root < target + Pow2(h + 1) - 1
  }

  /** Below an interior node: at it, in its left half, or in its right half. */
  lemma BelowSplit(root: nat, target: nat)
    requires Below(root, Height(root), target)
    ensures Pow2(Height(root) + 1) <= root + 2
    ensures Height(root) == 0 ==> target == root
    ensures Height(root) > 0 ==>
              var h := Height(root);
              && (target <= root - Pow2(h) ==> Below(root - Pow2(h), h - 1, target))
              && (root - Pow2(h) < target < root ==> Below(root - 1, h - 1, target))
  {
    hide Height, FirstLeaf;
    RootBound(root);
    if Height(root) > 0 {
      Children(root);
    }
  }

  lemma BelowRoot(root: nat, target: nat)
    requires Below(root, Height(root), target) && target != root
    ensures target < root && Height(root) > 0 && Pow2(Height(root)) >= 2
  {
    hide Height;
    BelowSplit(root, target);
  }

  lemma RootBound(root: nat)
    ensures Pow2(Height(root) + 1) <= root + 2
  {
    hide Height;
    if Height(root) > 0 {
      Children(root);
    }
  }

  /** The hash of a node from one of its children. */
  function StepHash(step: PathStep, sibling: Hash, acc: Hash): Hash {
    if step.targetIsRight then Interior(step.parent, sibling, acc)
    else Interior(step.parent, acc, sibling)
  }

  /** The hash at the top of a path, from the hash at its foot and the siblings. */
  function Fold(acc: Hash, path: seq<PathStep>, ws: seq<Hash>): Hash
    requires |path| == |ws|
  {
    if path == [] then acc
    else
      var n := |path| - 1;
      StepHash(path[n], ws[n], Fold(acc, path[..n], ws[..n]))
  }

  /** The hashes an honest prover sends for a path. */
  function Siblings(ns: seq<Hash>, path: seq<PathStep>): (ws: seq<Hash>)
    requires forall i :: 0 <= i < |path| ==> path[i].sibling < |ns|
    ensures |ws| == |path|
    ensures forall i :: 0 <= i < |ws| ==> ws[i] == ns[path[i].sibling]
  {
    seq(|path|, i requires 0 <= i < |path| => ns[path[i].sibling])
  }

  lemma PathHere(root: nat, h: nat)
    requires Pow2(h + 1) <= root + 2
    ensures Path(root, h, root) == []
  {
  }

  lemma PathUnfold(root: nat, h: nat, target: nat)
    requires Pow2(h + 1) <= root + 2 && h > 0 && root != target
    ensures Pow2(h) <= root
    ensures Path(root, h, target) ==
            if target <= root - Pow2(h) then Path(root - Pow2(h), h - 1, target) + [PathStep(root - 1, false, root)]
            else Path(root - 1, h - 1, target) + [PathStep(root - Pow2(h), true, root)]
  {
    Pow2Above(h);
  }

  /** The last step of a path goes from a child of the root to the root. */
  lemma PathLast(root: nat, target: nat) returns (child: nat, step: PathStep)
    requires Below(root, Height(root), target) && target != root
    ensures Height(root) > 0 && Pow2(Height(root) + 1) <= root + 2
    ensures child < root && Height(child) == Height(root) - 1 && Below(child, Height(child), target)
    ensures Pow2(Height(child) + 1) <= child + 2
    ensures Path(root, Height(root), target) == Path(child, Height(child), target) + [step]
    ensures step == if child == root - 1 then PathStep(root - Pow2(Height(root)), true, root)
                    else PathStep(root - 1, false, root)
    ensures child == root - 1 || child == root - Pow2(Height(root))
    ensures step.sibling < root
  {
    hide Height, FirstLeaf, Path, Pow2, Below;
    BelowSplit(root, target);
    BelowRoot(root, target);
    ChildHeights(root);
    RootBound(root - Pow2(Height(root)));
    RootBound(root - 1);
    PathUnfold(root, Height(root), target);
    child := if target <= root - Pow2(Height(root)) then root - Pow2(Height(root)) else root - 1;
    step := if child == root - 1 then PathStep(root - Pow2(Height(root)), true, root)
    else PathStep(root - 1, false, root);
  }

  /** Every sibling on a path lies below its root, and the length is the climb. */
  lemma {:induction false} PathWithin(root: nat, target: nat)
    requires Below(root, Height(root), target)
    ensures Pow2(Height(root) + 1) <= root + 2
    ensures Height(target) <= Height(root)
    ensures var path := Path(root, Height(root), target);
            && |path| == Height(root) - Height(target)
            && forall i :: 0 <= i < |path| ==> path[i].sibling < root
    decreases root
  {
    hide Height, FirstLeaf, Path, Below;
    RootBound(root);
    if target != root {
      var child, step := PathLast(root, target);
      PathWithin(child, target);
    } else {
      PathHere(root, Height(root));
    }
  }

  lemma FoldSnoc(acc: Hash, path: seq<PathStep>, step: PathStep, ws: seq<Hash>)
    requires |ws| == |path| + 1
    ensures Fold(acc, path + [step], ws) == StepHash(step, ws[|path|], Fold(acc, path, ws[..|path|]))
  {
    assert (path + [step])[..|path|] == path;
  }

  /**
    A fold over any siblings reaches the true node at the root exactly when it
    starts from the true node at the target and uses the true siblings.
  */
  lemma {:induction false} FoldExact(ns: seq<Hash>, root: nat, target: nat, acc: Hash, ws: seq<Hash>)
    requires Linked(ns) && root < |ns|
    requires Below(root, Height(root), target) && Pow2(Height(root) + 1) <= root + 2
    requires |ws| == |Path(root, Height(root), target)|
    requires forall step <- Path(root, Height(root), target) :: step.sibling < |ns|
    ensures var path := Path(root, Height(root), target);
            Fold(acc, path, ws) == ns[root] <==> acc == ns[target] && ws == Siblings(ns, path)
    decreases root
  {
    hide Height, FirstLeaf, Path, Fold, Below;
    if target == root {
      EmptyFold(root, acc, ws);
    } else {
      var child, step := PathLast(root, target);
      var below := Path(child, Height(child), target);
      var n := |below|;
      FoldSnoc(acc, below, step, ws);
      FoldExact(ns, child, target, acc, ws[..n]);
      assert NodeRule(ns, root);
      assert Siblings(ns, below + [step]) == Siblings(ns, below) + [ns[step.sibling]];
      assert ws == ws[..n] + [ws[n]];
    }
  }

  lemma EmptyFold(root: nat, acc: Hash, ws: seq<Hash>)
    requires Pow2(Height(root) + 1) <= root + 2
    ensures Path(root, Height(root), root) == []
    ensures ws == [] ==> Fold(acc, [], ws) == acc
  {
  }
}
