/** The delta-encoded order-statistics tree that holds the tombstone set of a
    document (ot_toy.js, lines 17-131).

    A node's `value` is relative to a base inherited from its parent: the left
    child keeps the parent's base, the right child's base grows by the
    parent's `value`. `InOrder(t, base)` is the in-order walk with a running
    base (the `rec` helper of `to_array`) and is the abstraction function:
    every operation is specified against it. */
module DeltaTree {
  import opened Seqs

  datatype Tree =
    | Leaf
    | Node(left: Tree, value: int, right: Tree, size: nat, height: nat)

  function SizeOf(t: Tree): nat {
    if t.Leaf? then 0 else t.size
  }

  function HeightOf(t: Tree): nat {
    if t.Leaf? then 0 else t.height
  }

  function Max(a: nat, b: nat): nat {
    if a >= b then a else b
  }

  /** The absolute values held by `t` when its base is `base`, in order. */
  function InOrder(t: Tree, base: int): seq<int> {
    match t
    case Leaf => []
    case Node(l, v, r, _, _) => InOrder(l, base) + [base + v] + InOrder(r, base + v)
  }

  /** `to_array`: the set the tree represents, as a sequence. */
  function ToArray(t: Tree): seq<int> {
    InOrder(t, 0)
  }

  /** The cached `size` and `height` of every node agree with its children. */
  ghost predicate WellFormed(t: Tree) {
    match t
    case Leaf => true
    case Node(l, v, r, size, height) =>
      WellFormed(l) && WellFormed(r) &&
      size == SizeOf(l) + 1 + SizeOf(r) &&
      height == Max(HeightOf(l), HeightOf(r)) + 1
  }

  /** Every node's value lies strictly between the values of its left
      subtree and those of its right subtree (in absolute terms). */
  ghost predicate Ordered(t: Tree, base: int) {
    match t
    case Leaf => true
    case Node(l, v, r, _, _) =>
      Ordered(l, base) && Ordered(r, base + v) &&
      Under(InOrder(l, base), base + v) && Above(InOrder(r, base + v), base + v)
  }

  /** Well-formed, and ordered at `base`. */
  ghost predicate Sound(t: Tree, base: int) {
    WellFormed(t) && Ordered(t, base)
  }

  /** A tree that represents a set of naturals. */
  ghost predicate Valid(t: Tree) {
    Sound(t, 0) && AtLeast(ToArray(t), 0)
  }

  /** The in-order walk of a node: left subtree, the node, right subtree. */
  lemma {:induction false} InOrderNode(t: Tree, base: int)
    requires t.Node?
    ensures InOrder(t, base) == InOrder(t.left, base) + [base + t.value] + InOrder(t.right, base + t.value)
  {
  }

  /** `size_of` counts the elements of the tree. */
  lemma {:induction false} SizeIsLength(t: Tree, base: int)
    requires WellFormed(t)
    ensures |InOrder(t, base)| == SizeOf(t)
  {
    match t
    case Leaf =>
    case Node(l, v, r, _, _) =>
      SizeIsLength(l, base);
      SizeIsLength(r, base + v);
  }

  /** A tree is ordered exactly when its in-order sequence is strictly
      increasing. */
  lemma {:induction false} OrderedIncreasing(t: Tree, base: int)
    ensures Ordered(t, base) <==> Increasing(InOrder(t, base))
  {
    match t
    case Leaf =>
    case Node(l, v, r, _, _) =>
      OrderedIncreasing(l, base);
      OrderedIncreasing(r, base + v);
      IncreasingSplit(InOrder(l, base), base + v, InOrder(r, base + v));
  }

  /** What a sound node tells about its two subtrees. */
  lemma {:induction false} NodeParts(t: Tree, base: int)
    requires t.Node? && Sound(t, base)
    ensures Sound(t.left, base) && Sound(t.right, base + t.value)
    ensures Under(InOrder(t.left, base), base + t.value)
    ensures Above(InOrder(t.right, base + t.value), base + t.value)
    ensures |InOrder(t.left, base)| == SizeOf(t.left)
  {
    SizeIsLength(t.left, base);
  }

  // ---------------------------------------------------------------------
  // Node construction (ot_toy.js, lines 67-88)
  // ---------------------------------------------------------------------

  /** `mk_tree_raw`: a node whose cached size and height are correct. */
  function MkTreeRaw(l: Tree, v: int, r: Tree): Tree {
    Node(l, v, r, SizeOf(l) + 1 + SizeOf(r), Max(HeightOf(l), HeightOf(r)) + 1)
  }

  /** `mk_tree`: a node, with one single rotation when one side is more than
      one level taller than the other. */
  function MkTree(l: Tree, v: int, r: Tree): Tree {
    if HeightOf(l) > HeightOf(r) + 1 then
      // the left side is too tall: right rotation
      var newRight := MkTreeRaw(l.right, v - l.value, r);
      MkTreeRaw(l.left, l.value, newRight)
    else if HeightOf(r) > HeightOf(l) + 1 then
      // the right side is too tall: left rotation
      var newLeft := MkTreeRaw(l, v, r.left);
      MkTreeRaw(newLeft, v + r.value, r.right)
    else
      MkTreeRaw(l, v, r)
  }

  /** `mk_tree_raw` caches the size and height of the node it builds. */
  lemma {:induction false} MkTreeRawWellFormed(l: Tree, v: int, r: Tree)
    requires WellFormed(l) && WellFormed(r)
    ensures MkTreeRaw(l, v, r).Node? && WellFormed(MkTreeRaw(l, v, r))
    ensures SizeOf(MkTreeRaw(l, v, r)) == SizeOf(l) + 1 + SizeOf(r)
    ensures HeightOf(MkTreeRaw(l, v, r)) == Max(HeightOf(l), HeightOf(r)) + 1
  {
  }

  /** `mk_tree`, rotated or not, builds a well-formed node holding every
      element of its parts, no taller than the raw node. */
  lemma {:induction false} MkTreeWellFormed(l: Tree, v: int, r: Tree)
    requires WellFormed(l) && WellFormed(r)
    ensures MkTree(l, v, r).Node? && WellFormed(MkTree(l, v, r))
    ensures SizeOf(MkTree(l, v, r)) == SizeOf(l) + 1 + SizeOf(r)
    ensures HeightOf(MkTree(l, v, r)) <= Max(HeightOf(l), HeightOf(r)) + 1
  {
    if HeightOf(l) > HeightOf(r) + 1 {
      RotateRightWellFormed(l, v, r);
    } else if HeightOf(r) > HeightOf(l) + 1 {
      RotateLeftWellFormed(l, v, r);
    } else {
      MkTreeRawWellFormed(l, v, r);
    }
  }

  lemma {:induction false} RotateRightWellFormed(l: Tree, v: int, r: Tree)
    requires WellFormed(l) && WellFormed(r) && HeightOf(l) > HeightOf(r) + 1
    ensures var t := MkTreeRaw(l.left, l.value, MkTreeRaw(l.right, v - l.value, r));
      WellFormed(t) && SizeOf(t) == SizeOf(l) + 1 + SizeOf(r) &&
      HeightOf(t) <= Max(HeightOf(l), HeightOf(r)) + 1
  {
    MkTreeRawWellFormed(l.right, v - l.value, r);
    MkTreeRawWellFormed(l.left, l.value, MkTreeRaw(l.right, v - l.value, r));
  }

  lemma {:induction false} RotateLeftWellFormed(l: Tree, v: int, r: Tree)
    requires WellFormed(l) && WellFormed(r) && HeightOf(r) > HeightOf(l) + 1
    ensures var t := MkTreeRaw(MkTreeRaw(l, v, r.left), v + r.value, r.right);
      WellFormed(t) && SizeOf(t) == SizeOf(l) + 1 + SizeOf(r) &&
      HeightOf(t) <= Max(HeightOf(l), HeightOf(r)) + 1
  {
    MkTreeRawWellFormed(l, v, r.left);
    MkTreeRawWellFormed(MkTreeRaw(l, v, r.left), v + r.value, r.right);
  }

  /** The right rotation keeps the in-order absolute sequence. */
  lemma {:induction false} RotateRightInOrder(l: Tree, v: int, r: Tree, base: int)
    requires l.Node?
    ensures InOrder(MkTreeRaw(l.left, l.value, MkTreeRaw(l.right, v - l.value, r)), base) ==
      InOrder(MkTreeRaw(l, v, r), base)
  {
    var lv := l.value;
    assert base + lv + (v - lv) == base + v;
    Regroup(InOrder(l.left, base), base + lv, InOrder(l.right, base + lv), base + v, InOrder(r, base + v));
  }

  /** The left rotation keeps the in-order absolute sequence. */
  lemma {:induction false} RotateLeftInOrder(l: Tree, v: int, r: Tree, base: int)
    requires r.Node?
    ensures InOrder(MkTreeRaw(MkTreeRaw(l, v, r.left), v + r.value, r.right), base) ==
      InOrder(MkTreeRaw(l, v, r), base)
  {
    var rv := r.value;
    Regroup(InOrder(l, base), base + v, InOrder(r.left, base + v), base + v + rv, InOrder(r.right, base + v + rv));
  }

  /** Both rotations keep the in-order absolute sequence of the raw node. */
  lemma {:induction false} MkTreeInOrder(l: Tree, v: int, r: Tree, base: int)
    ensures InOrder(MkTree(l, v, r), base) == InOrder(MkTreeRaw(l, v, r), base)
  {
    if HeightOf(l) > HeightOf(r) + 1 {
      RotateRightInOrder(l, v, r, base);
    } else if HeightOf(r) > HeightOf(l) + 1 {
      RotateLeftInOrder(l, v, r, base);
    }
  }

  /** In a well-formed tree where no node needs a rotation, `mk_tree` on a
      node's own children rebuilds that very node. */
  ghost predicate Balanced(t: Tree) {
    match t
    case Leaf => true
    case Node(l, _, r, _, _) =>
      Balanced(l) && Balanced(r) &&
      HeightOf(l) <= HeightOf(r) + 1 && HeightOf(r) <= HeightOf(l) + 1
  }

  // ---------------------------------------------------------------------
  // Insertion and shifting (ot_toy.js, lines 90-115)
  // ---------------------------------------------------------------------

  /** `union_one`: add `i` (relative to the tree's base) to the set. */
  function UnionOne(t: Tree, i: int): Tree {
    match t
    case Leaf => MkTree(Leaf, i, Leaf)
    case Node(l, v, r, _, _) =>
      if i < v then MkTree(UnionOne(l, i), v, r)
      else if i == v then t
      else MkTree(l, v, UnionOne(r, i - v))
  }

  /** `xi_one`: shift every element at or above `i` (relative) up by one. */
  function XiOne(t: Tree, i: int): Tree {
    match t
    case Leaf => Leaf
    case Node(l, v, r, _, _) =>
      if i <= v then MkTree(XiOne(l, i), v + 1, r)
      else MkTree(l, v, XiOne(r, i - v))
  }

  lemma {:induction false} UnionOneWellFormed(t: Tree, i: int)
    requires WellFormed(t)
    ensures WellFormed(UnionOne(t, i))
  {
    match t
    case Leaf =>
      MkTreeWellFormed(Leaf, i, Leaf);
    case Node(l, v, r, _, _) =>
      if i < v {
        UnionOneWellFormed(l, i);
        MkTreeWellFormed(UnionOne(l, i), v, r);
      } else if i > v {
        UnionOneWellFormed(r, i - v);
        MkTreeWellFormed(l, v, UnionOne(r, i - v));
      }
  }

  lemma {:induction false} XiOneWellFormed(t: Tree, i: int)
    requires WellFormed(t)
    ensures WellFormed(XiOne(t, i))
  {
    match t
    case Leaf =>
    case Node(l, v, r, _, _) =>
      if i <= v {
        XiOneWellFormed(l, i);
        MkTreeWellFormed(XiOne(l, i), v + 1, r);
      } else {
        XiOneWellFormed(r, i - v);
        MkTreeWellFormed(l, v, XiOne(r, i - v));
      }
  }

  /** Moving the base moves every element by the same amount. */
  lemma {:induction false} InOrderOffset(t: Tree, base: int, d: int)
    ensures InOrder(t, base + d) == Offset(InOrder(t, base), d)
  {
    match t
    case Leaf =>
    case Node(l, v, r, _, _) =>
      InOrderOffset(l, base, d);
      InOrderOffset(r, base + v, d);
      assert base + d + v == base + v + d;
      OffsetConcat(InOrder(l, base) + [base + v], InOrder(r, base + v), d);
      OffsetConcat(InOrder(l, base), [base + v], d);
  }

  lemma {:induction false} UnionOneLeftShape(t: Tree, base: int, i: int)
    requires t.Node? && i < t.value
    ensures InOrder(UnionOne(t, i), base) ==
      InOrder(UnionOne(t.left, i), base) + [base + t.value] + InOrder(t.right, base + t.value)
  {
    MkTreeInOrder(UnionOne(t.left, i), t.value, t.right, base);
  }

  lemma {:induction false} UnionOneRightShape(t: Tree, base: int, i: int)
    requires t.Node? && i > t.value
    ensures InOrder(UnionOne(t, i), base) ==
      InOrder(t.left, base) + [base + t.value] + InOrder(UnionOne(t.right, i - t.value), base + t.value)
  {
    MkTreeInOrder(t.left, t.value, UnionOne(t.right, i - t.value), base);
  }

  lemma {:induction false} XiOneLeftShape(t: Tree, base: int, i: int)
    requires t.Node? && i <= t.value
    ensures InOrder(XiOne(t, i), base) ==
      InOrder(XiOne(t.left, i), base) + [base + t.value + 1] + Offset(InOrder(t.right, base + t.value), 1)
  {
    MkTreeInOrder(XiOne(t.left, i), t.value + 1, t.right, base);
    InOrderOffset(t.right, base + t.value, 1);
  }

  lemma {:induction false} XiOneRightShape(t: Tree, base: int, i: int)
    requires t.Node? && i > t.value
    ensures InOrder(XiOne(t, i), base) ==
      InOrder(t.left, base) + [base + t.value] + InOrder(XiOne(t.right, i - t.value), base + t.value)
  {
    MkTreeInOrder(t.left, t.value, XiOne(t.right, i - t.value), base);
  }

  lemma {:induction false} UnionOneLeftStep(t: Tree, base: int, i: int)
    requires t.Node? && i < t.value
    requires InOrder(UnionOne(t.left, i), base) == InsertSorted(InOrder(t.left, base), base + i)
    ensures InOrder(UnionOne(t, i), base) == InsertSorted(InOrder(t, base), base + i)
  {
    InOrderNode(t, base);
    UnionOneLeftShape(t, base, i);
    InsertLeftGlue(InOrder(UnionOne(t, i), base), InOrder(t, base), InOrder(t.left, base),
      InOrder(UnionOne(t.left, i), base), base + t.value, InOrder(t.right, base + t.value), base + i);
  }

  lemma {:induction false} UnionOneRightStep(t: Tree, base: int, i: int)
    requires t.Node? && i > t.value
    requires Under(InOrder(t.left, base), base + t.value)
    requires InOrder(UnionOne(t.right, i - t.value), base + t.value) ==
      InsertSorted(InOrder(t.right, base + t.value), base + t.value + (i - t.value))
    ensures InOrder(UnionOne(t, i), base) == InsertSorted(InOrder(t, base), base + i)
  {
    InOrderNode(t, base);
    UnionOneRightShape(t, base, i);
    InsertRightGlue(InOrder(UnionOne(t, i), base), InOrder(t, base), InOrder(t.left, base), base + t.value,
      InOrder(t.right, base + t.value), InOrder(UnionOne(t.right, i - t.value), base + t.value),
      base + i, base + t.value + (i - t.value));
  }

  /** At any base, `union_one` puts `base + i` into the in-order sequence. */
  lemma {:induction false} UnionOneAt(t: Tree, base: int, i: int)
    requires Sound(t, base)
    ensures InOrder(UnionOne(t, i), base) == InsertSorted(InOrder(t, base), base + i)
  {
    match t
    case Leaf =>
      MkTreeInOrder(Leaf, i, Leaf, base);
    case Node(l, v, r, _, _) =>
      NodeParts(t, base);
      if i < v {
        UnionOneAt(l, base, i);
        UnionOneLeftStep(t, base, i);
      } else if i == v {
        InsertSortedRight(InOrder(l, base), base + v, InOrder(r, base + v), base + i);
      } else {
        UnionOneAt(r, base + v, i - v);
        UnionOneRightStep(t, base, i);
      }
  }

  lemma {:induction false} XiOneLeftStep(t: Tree, base: int, i: int)
    requires t.Node? && i <= t.value
    requires Above(InOrder(t.right, base + t.value), base + t.value)
    requires InOrder(XiOne(t.left, i), base) == ShiftFrom(InOrder(t.left, base), base + i)
    ensures InOrder(XiOne(t, i), base) == ShiftFrom(InOrder(t, base), base + i)
  {
    InOrderNode(t, base);
    XiOneLeftShape(t, base, i);
    ShiftLeftGlue(InOrder(XiOne(t, i), base), InOrder(t, base), InOrder(t.left, base), InOrder(XiOne(t.left, i), base),
      base + t.value, InOrder(t.right, base + t.value), base + i);
  }

  lemma {:induction false} XiOneRightStep(t: Tree, base: int, i: int)
    requires t.Node? && i > t.value
    requires Under(InOrder(t.left, base), base + t.value)
    requires InOrder(XiOne(t.right, i - t.value), base + t.value) ==
      ShiftFrom(InOrder(t.right, base + t.value), base + t.value + (i - t.value))
    ensures InOrder(XiOne(t, i), base) == ShiftFrom(InOrder(t, base), base + i)
  {
    InOrderNode(t, base);
    XiOneRightShape(t, base, i);
    ShiftRightGlue(InOrder(XiOne(t, i), base), InOrder(t, base), InOrder(t.left, base), base + t.value, InOrder(t.right, base + t.value),
      InOrder(XiOne(t.right, i - t.value), base + t.value), base + i, base + t.value + (i - t.value));
  }

  /** At any base, `xi_one` shifts every element at or above `base + i`. */
  lemma {:induction false} XiOneAt(t: Tree, base: int, i: int)
    requires Sound(t, base)
    ensures InOrder(XiOne(t, i), base) == ShiftFrom(InOrder(t, base), base + i)
  {
    match t
    case Leaf =>
    case Node(l, v, r, _, _) =>
      NodeParts(t, base);
      if i <= v {
        XiOneAt(l, base, i);
        XiOneLeftStep(t, base, i);
      } else {
        XiOneAt(r, base + v, i - v);
        XiOneRightStep(t, base, i);
      }
  }

  /** `union_one` on a set of naturals gives the set with `i` added; a member
      leaves the represented set as it was, a non-member grows it by one. */
  lemma {:induction false} UnionOneSpec(t: Tree, i: int)
    requires Valid(t) && i >= 0
    ensures Valid(UnionOne(t, i))
    ensures ToArray(UnionOne(t, i)) == InsertSorted(ToArray(t), i)
    ensures forall x :: x in ToArray(UnionOne(t, i)) <==> x in ToArray(t) || x == i
    ensures i in ToArray(t) ==> ToArray(UnionOne(t, i)) == ToArray(t)
    ensures SizeOf(UnionOne(t, i)) == SizeOf(t) + (if i in ToArray(t) then 0 else 1)
  {
    UnionOneToArray(t, i);
    UnionOneValid(t, i);
    UnionOneSize(t, i);
    InsertSortedMembers(ToArray(t), i);
    if i in ToArray(t) {
      OrderedIncreasing(t, 0);
      InsertSortedPresent(ToArray(t), i);
    }
  }

  lemma {:induction false} UnionOneToArray(t: Tree, i: int)
    requires Valid(t)
    ensures ToArray(UnionOne(t, i)) == InsertSorted(ToArray(t), i)
  {
    UnionOneAt(t, 0, i);
  }

  lemma {:induction false} UnionOneValid(t: Tree, i: int)
    requires Valid(t) && i >= 0
    ensures Valid(UnionOne(t, i))
  {
    var s, u := ToArray(t), UnionOne(t, i);
    UnionOneToArray(t, i);
    UnionOneWellFormed(t, i);
    OrderedIncreasing(t, 0);
    InsertSortedIncreasing(s, i);
    OrderedIncreasing(u, 0);
    InsertSortedMembers(s, i);
  }

  lemma {:induction false} UnionOneSize(t: Tree, i: int)
    requires Valid(t)
    ensures SizeOf(UnionOne(t, i)) == SizeOf(t) + (if i in ToArray(t) then 0 else 1)
  {
    var s, u := ToArray(t), UnionOne(t, i);
    UnionOneToArray(t, i);
    UnionOneWellFormed(t, i);
    if i in s {
      OrderedIncreasing(t, 0);
      InsertSortedPresent(s, i);
    } else {
      InsertSortedLength(s, i);
    }
    SizeIsLength(t, 0);
    SizeIsLength(u, 0);
  }

  /** Adding a member a second time changes nothing more. */
  lemma {:induction false} UnionOneIdempotent(t: Tree, i: int)
    requires Valid(t) && i >= 0
    ensures ToArray(UnionOne(UnionOne(t, i), i)) == ToArray(UnionOne(t, i))
  {
    UnionOneSpec(t, i);
    UnionOneSpec(UnionOne(t, i), i);
  }

  /** On a tree that needs no rotation, `union_one` of a member returns the
      tree itself. */
  lemma {:induction false} UnionOneMemberIdentity(t: Tree, base: int, i: int)
    requires Sound(t, base) && Balanced(t)
    requires base + i in InOrder(t, base)
    ensures UnionOne(t, i) == t
  {
    match t
    case Leaf =>
    case Node(l, v, r, _, _) =>
      NodeParts(t, base);
      if i < v {
        assert base + i in InOrder(l, base);
        UnionOneMemberIdentity(l, base, i);
      } else if i > v {
        assert base + i in InOrder(r, base + v);
        UnionOneMemberIdentity(r, base + v, i - v);
      }
  }

  /** `xi_one` on a set of naturals: every element `x >= i` becomes `x + 1`,
      every smaller one is kept, and the size is unchanged. */
  lemma {:induction false} XiOneSpec(t: Tree, i: int)
    requires Valid(t)
    ensures Valid(XiOne(t, i))
    ensures ToArray(XiOne(t, i)) == ShiftFrom(ToArray(t), i)
    ensures SizeOf(XiOne(t, i)) == SizeOf(t)
    ensures t == Leaf ==> XiOne(t, i) == Leaf
    ensures i !in ToArray(XiOne(t, i))
  {
    XiOneToArray(t, i);
    XiOneValid(t, i);
    XiOneSize(t, i);
    ShiftFromMembers(ToArray(t), i);
  }

  lemma {:induction false} XiOneToArray(t: Tree, i: int)
    requires Valid(t)
    ensures ToArray(XiOne(t, i)) == ShiftFrom(ToArray(t), i)
  {
    XiOneAt(t, 0, i);
  }

  lemma {:induction false} XiOneValid(t: Tree, i: int)
    requires Valid(t)
    ensures Valid(XiOne(t, i))
  {
    var s, u := ToArray(t), XiOne(t, i);
    XiOneToArray(t, i);
    XiOneWellFormed(t, i);
    OrderedIncreasing(t, 0);
    ShiftFromIncreasing(s, i);
    OrderedIncreasing(u, 0);
    ShiftFromAtLeast(s, i, 0);
  }

  lemma {:induction false} XiOneSize(t: Tree, i: int)
    requires Valid(t)
    ensures SizeOf(XiOne(t, i)) == SizeOf(t)
  {
    XiOneToArray(t, i);
    XiOneWellFormed(t, i);
    SizeIsLength(t, 0);
    SizeIsLength(XiOne(t, i), 0);
  }

  // ---------------------------------------------------------------------
  // Coordinate mappings (ot_toy.js, lines 21-51)
  // ---------------------------------------------------------------------

  /** The recursion `xi` performs with its loop: the `i`-th natural (counting
      from 0) that is not in the tree. */
  function NthFree(t: Tree, i: int): int {
    match t
    case Leaf => i
    case Node(l, v, r, _, _) =>
      var x := v - SizeOf(l);
      if i < x then NthFree(l, i) else v + NthFree(r, 1 + i - x)
  }

  /** The rank of `y` among the naturals not in the tree: `y` minus the number
      of members below it. */
  function FreeRank(t: Tree, y: int): int {
    y - Below(ToArray(t), y)
  }

  /** At any base, `NthFree` lands on a non-member and counts the members
      it skipped. */
  lemma {:induction false} NthFreeAt(t: Tree, base: int, i: int)
    requires Sound(t, base) && i >= 0
    ensures base + NthFree(t, i) !in InOrder(t, base)
    ensures NthFree(t, i) == i + Below(InOrder(t, base), base + NthFree(t, i))
  {
    match t
    case Leaf =>
    case Node(l, v, r, _, _) =>
      NodeParts(t, base);
      var x := v - SizeOf(l);
      if i < x {
        NthFreeAt(l, base, i);
        NthFreeLeftStep(t, base, i);
      } else {
        NthFreeAt(r, base + v, 1 + i - x);
        NthFreeRightStep(t, base, i);
      }
  }

  lemma {:induction false} NthFreeLeftStep(t: Tree, base: int, i: int)
    requires t.Node? && Sound(t, base) && 0 <= i < t.value - SizeOf(t.left)
    requires base + NthFree(t.left, i) !in InOrder(t.left, base)
    requires NthFree(t.left, i) == i + Below(InOrder(t.left, base), base + NthFree(t.left, i))
    ensures base + NthFree(t, i) !in InOrder(t, base)
    ensures NthFree(t, i) == i + Below(InOrder(t, base), base + NthFree(t, i))
  {
    NodeParts(t, base);
    var L, R := InOrder(t.left, base), InOrder(t.right, base + t.value);
    assert NthFree(t, i) == NthFree(t.left, i);
    BelowLeftOf(InOrder(t, base), L, base + t.value, R, base + NthFree(t, i));
  }

  lemma {:induction false} NthFreeRightStep(t: Tree, base: int, i: int)
    requires t.Node? && Sound(t, base) && 0 <= i && t.value - SizeOf(t.left) <= i
    requires var j, b := 1 + i - (t.value - SizeOf(t.left)), base + t.value;
      b + NthFree(t.right, j) !in InOrder(t.right, b) &&
      NthFree(t.right, j) == j + Below(InOrder(t.right, b), b + NthFree(t.right, j))
    ensures base + NthFree(t, i) !in InOrder(t, base)
    ensures NthFree(t, i) == i + Below(InOrder(t, base), base + NthFree(t, i))
  {
    NodeParts(t, base);
    var v, x := t.value, t.value - SizeOf(t.left);
    var L, R := InOrder(t.left, base), InOrder(t.right, base + v);
    assert NthFree(t, i) == v + NthFree(t.right, 1 + i - x);
    assert base + NthFree(t, i) == base + v + NthFree(t.right, 1 + i - x);
    BelowRightOf(InOrder(t, base), L, base + v, R, base + NthFree(t, i));
  }

  /** `xi` never lands on a member, and `xi_inv` undoes it. */
  lemma {:induction false} XiInvOfXi(t: Tree, i: int)
    requires Valid(t) && i >= 0
    ensures NthFree(t, i) >= i
    ensures NthFree(t, i) !in ToArray(t)
    ensures FreeRank(t, NthFree(t, i)) == i
  {
    NthFreeAt(t, 0, i);
  }

  /** The rank of a natural among non-members is a natural. */
  lemma {:induction false} FreeRankNonNegative(t: Tree, y: int)
    requires Valid(t) && y >= 0
    ensures FreeRank(t, y) >= 0
  {
    OrderedIncreasing(t, 0);
    BelowBound(ToArray(t), 0, y);
  }

  /** Distinct non-members have distinct ranks. */
  lemma {:induction false} FreeRankStrict(t: Tree, z: int, y: int)
    requires Valid(t) && z < y && z !in ToArray(t)
    ensures FreeRank(t, z) < FreeRank(t, y)
  {
    OrderedIncreasing(t, 0);
    BelowGap(ToArray(t), z, y);
  }

  /** The other round trip: `xi` undoes `xi_inv` on every non-member. */
  lemma {:induction false} XiOfXiInv(t: Tree, y: int)
    requires Valid(t) && y >= 0 && y !in ToArray(t)
    ensures NthFree(t, FreeRank(t, y)) == y
  {
    FreeRankNonNegative(t, y);
    var i := FreeRank(t, y);
    var z := NthFree(t, i);
    XiInvOfXi(t, i);
    if z < y {
      FreeRankStrict(t, z, y);
    } else if y < z {
      FreeRankStrict(t, y, z);
    }
  }

  /** `xi`: the `i`-th natural not in the tree, found by walking down it. */
  method Xi(t: Tree, i: int) returns (r: int)
    ensures r == NthFree(t, i)
    ensures Valid(t) && i >= 0 ==> r >= i && r !in ToArray(t) && FreeRank(t, r) == i
  {
    var tree := t;
    var j := i;
    var base := 0;
    while tree.Node?
      invariant base + NthFree(tree, j) == NthFree(t, i)
      decreases tree
    {
      var left := tree.left;
      var x := tree.value - SizeOf(left);
      if j < x {
        tree := left;
      } else {
        j := 1 + j - x;
        base := base + tree.value;
        tree := tree.right;
      }
    }
    r := base + j;
    if Valid(t) && i >= 0 {
      XiInvOfXi(t, i);
    }
  }

  /** `xi_inv`: the rank of a non-member among the non-members. */
  method XiInv(t: Tree, i: int) returns (result: int)
    requires Valid(t) && i !in ToArray(t)
    ensures result == FreeRank(t, i)
    ensures i >= 0 ==> result >= 0
  {
    result := i;
    var tree := t;
    var j := i;
    ghost var base := 0;
    while tree.Node?
      invariant Sound(tree, base)
      invariant j == i - base
      invariant i !in InOrder(tree, base)
      invariant result == i - Below(ToArray(t), i) + Below(InOrder(tree, base), i)
      decreases tree
    {
      NodeParts(tree, base);
      var L, R := InOrder(tree.left, base), InOrder(tree.right, base + tree.value);
      BelowConcat(L + [base + tree.value], R, i);
      BelowConcat(L, [base + tree.value], i);
      if j < tree.value {
        BelowNoneLess(R, i);
        tree := tree.left;
      } else {
        BelowAllLess(L, i);
        j := j - tree.value;
        result := result - (SizeOf(tree.left) + 1);
        base := base + tree.value;
        tree := tree.right;
      }
    }
    if i >= 0 {
      FreeRankNonNegative(t, i);
    }
  }

  /** `contains`: membership, found by walking down the tree. */
  method Contains(t: Tree, i: int) returns (found: bool)
    requires Valid(t)
    ensures found <==> i in ToArray(t)
  {
    var tree := t;
    var j := i;
    ghost var base := 0;
    while tree.Node?
      invariant Sound(tree, base)
      invariant j == i - base
      invariant i in ToArray(t) <==> i in InOrder(tree, base)
      decreases tree
    {
      NodeParts(tree, base);
      if j < tree.value {
        tree := tree.left;
      } else if j == tree.value {
        return true;
      } else {
        j := j - tree.value;
        base := base + tree.value;
        tree := tree.right;
      }
    }
    return false;
  }

  /** Both constructors keep a tree valid, so every tree built by them from
      `Leaf` holds a strictly increasing sequence of naturals. */
  lemma {:induction false} ValidLeaf()
    ensures Valid(Leaf) && ToArray(Leaf) == []
  {
  }
}
