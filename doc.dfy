/** The canonical document (ot_toy.js, lines 180-220): the log of applied
    operations, the tombstone tree `dels` of deleted absolute positions, the
    visible string and the tracked cursor points.

    `Apply` states what `add` does to the whole state as a function of the
    state before; the `DocState` class does the same in place, with the
    source's loops, and is proved to agree with `Apply`. */
module Doc {
  import opened Seqs
  import opened DeltaTree
  import opened Ops

  /** JavaScript's `s.slice(0, k)` for `k >= 0`: the first `k` characters,
      or all of `s` when it is shorter. */
  function Take(s: seq<char>, k: nat): (r: seq<char>)
    ensures |r| == (if k < |s| then k else |s|)
    ensures r <= s
  {
    if k < |s| then s[..k] else s
  }

  /** JavaScript's `s.slice(k)` for `k >= 0`: what follows the first `k`
      characters, or nothing when `s` is shorter. */
  function Drop(s: seq<char>, k: nat): (r: seq<char>)
    ensures Take(s, k) + r == s
  {
    if k < |s| then s[k..] else []
  }

  /** The cursor update of `add`: every point strictly after `p` moves by `d`. */
  function Bump(ps: seq<int>, p: int, d: int): seq<int> {
    seq(|ps|, k requires 0 <= k < |ps| => if ps[k] > p then ps[k] + d else ps[k])
  }

  /** The fields of a `DocState`, as values. */
  datatype DocView = DocView(ops: seq<Op>, dels: Tree, str: seq<char>, points: seq<int>)

  /** `add(op)` on the state `d`; it always logs the operation and keeps the
      tombstone tree valid. A deletion of a position that is already a
      tombstone only logs the operation. Any other deletion makes its position
      a tombstone and removes the visible character at `xi_inv(dels, ix)`. An
      insertion first shifts the tombstones at or after `ix` (`xi_one`) and
      then places its character at `xi_inv` of the shifted set. */
  function Apply(d: DocView, op: Op): (r: DocView)
    requires DeltaTree.Valid(d.dels)
    ensures DeltaTree.Valid(r.dels)
    ensures r.ops == d.ops + [op]
    ensures |r.points| == |d.points|
  {
    var ops := d.ops + [op];
    match op
    case Del(ix, _) =>
      if ix in ToArray(d.dels) then d.(ops := ops)
      else
        UnionOneSpec(d.dels, ix);
        FreeRankNonNegative(d.dels, ix);
        var p: nat := FreeRank(d.dels, ix);
        DocView(ops, UnionOne(d.dels, ix), Take(d.str, p) + Drop(d.str, p + 1), Bump(d.points, p, -1))
    case Ins(ix, ch, _, _) =>
      var dels := XiOne(d.dels, ix);
      XiOneSpec(d.dels, ix);
      FreeRankNonNegative(dels, ix);
      var p: nat := FreeRank(dels, ix);
      DocView(ops, dels, Take(d.str, p) + [ch] + Drop(d.str, p), Bump(d.points, p, 1))
  }

  /** Deleting a position that is already deleted changes nothing but the log. */
  lemma {:induction false} ApplyDelKnown(d: DocView, op: Op)
    requires DeltaTree.Valid(d.dels) && op.Del? && op.ix in ToArray(d.dels)
    ensures Apply(d, op) == d.(ops := d.ops + [op])
  {
  }

  /** Deleting a live position adds it to the tombstones and removes the one
      character at its visible position `p`; exactly the points after `p` move
      one place to the left. */
  lemma {:induction false} ApplyDelFresh(d: DocView, op: Op)
    requires DeltaTree.Valid(d.dels) && op.Del? && op.ix !in ToArray(d.dels)
    ensures var r, p := Apply(d, op), FreeRank(d.dels, op.ix);
      p >= 0 &&
      (forall x :: x in ToArray(r.dels) <==> x in ToArray(d.dels) || x == op.ix) &&
      SizeOf(r.dels) == SizeOf(d.dels) + 1 &&
      (p < |d.str| ==> r.str == d.str[..p] + d.str[p + 1..]) &&
      (p >= |d.str| ==> r.str == d.str) &&
      (forall k :: 0 <= k < |d.points| ==>
        r.points[k] == if d.points[k] > p then d.points[k] - 1 else d.points[k])
  {
    UnionOneSpec(d.dels, op.ix);
    FreeRankNonNegative(d.dels, op.ix);
  }

  /** An insertion shifts the tombstones at or after `ix`, leaves `ix` itself
      live, and puts its character at visible position `p`: `ix` minus the
      tombstones before it (or at the end of a shorter string). Exactly the
      points after `p` move one place to the right. */
  lemma {:induction false} ApplyIns(d: DocView, op: Op)
    requires DeltaTree.Valid(d.dels) && op.Ins?
    ensures var r, p := Apply(d, op), op.ix - Below(ToArray(d.dels), op.ix);
      var q := if p < |d.str| then p else |d.str|;
      ToArray(r.dels) == ShiftFrom(ToArray(d.dels), op.ix) &&
      op.ix !in ToArray(r.dels) &&
      p >= 0 && FreeRank(r.dels, op.ix) == p &&
      r.str == d.str[..q] + [op.ch] + d.str[q..] &&
      (forall k :: 0 <= k < |d.points| ==>
        r.points[k] == if d.points[k] > p then d.points[k] + 1 else d.points[k])
  {
    XiOneSpec(d.dels, op.ix);
    FreeRankNonNegative(d.dels, op.ix);
    BelowShiftFrom(ToArray(d.dels), op.ix);
  }

  class DocState {
    var ops: seq<Op>
    var dels: Tree
    var str: seq<char>
    var points: array<int>

    /** The tombstone tree holds a set of naturals. */
    ghost predicate Valid()
      reads this
    {
      DeltaTree.Valid(dels)
    }

    ghost function View(): DocView
      reads this, points
    {
      DocView(ops, dels, str, points[..])
    }

    /** An empty log, no tombstones, the empty string and no points. */
    constructor()
      ensures Valid() && fresh(points)
      ensures View() == DocView([], Leaf, [], [])
    {
      ops := [];
      dels := Leaf;
      str := [];
      points := new int[0];
      ValidLeaf();
    }

    /** `add`: apply `op` in place. */
    method Add(op: Op)
      requires Valid()
      modifies this, points
      ensures Valid() && points == old(points)
      ensures View() == Apply(old(View()), op)
    {
      ghost var d := View();
      ops := ops + [op];
      match op
      case Del(ix, _) =>
        var known := Contains(dels, ix);
        if !known {
          var p := XiInv(dels, ix);
          UnionOneSpec(dels, ix);
          dels := UnionOne(dels, ix);
          str := Take(str, p) + Drop(str, p + 1);
          MovePoints(p, -1);
        }
      case Ins(ix, ch, _, _) =>
        XiOneSpec(dels, ix);
        dels := XiOne(dels, ix);
        var p := XiInv(dels, ix);
        str := Take(str, p) + [ch] + Drop(str, p);
        MovePoints(p, 1);
    }

    /** The loop of `add` over `points` (written twice in the source, with
        `d` equal to -1 and to 1): every point strictly after `p` moves by `d`. */
    method MovePoints(p: int, d: int)
      modifies points
      ensures forall j :: 0 <= j < points.Length ==>
        points[j] == if old(points[j]) > p then old(points[j]) + d else old(points[j])
      ensures points[..] == Bump(old(points[..]), p, d)
    {
      for k := 0 to points.Length
        invariant forall j :: 0 <= j < k ==>
          points[j] == if old(points[j]) > p then old(points[j]) + d else old(points[j])
        invariant forall j :: k <= j < points.Length ==> points[j] == old(points[j])
      {
        if points[k] > p {
          points[k] := points[k] + d;
        }
      }
    }

    /** `xform_ix`: the absolute position of the `ix`-th visible character,
        which is never a tombstone and has visible rank `ix`. */
    method XformIx(ix: int) returns (r: int)
      ensures r == NthFree(dels, ix)
      ensures Valid() && ix >= 0 ==> r !in ToArray(dels) && FreeRank(dels, r) == ix
    {
      r := Xi(dels, ix);
    }

    /** `get_str`: the visible string. */
    method GetStr() returns (s: seq<char>)
      ensures s == str
    {
      s := str;
    }
  }
}
