/** A reference model of the document the operations act on, and the two
    properties that make the engine work.

    The document is a sequence of slots, one per absolute position: every
    character ever inserted, with a flag saying whether it has been deleted.
    An insertion adds a live slot; a deletion only flags one. The canonical
    state of ot_toy.js (lines 180-211) is a compressed view of the slots: the
    tombstone tree holds the flagged positions and the string holds the live
    characters. `Coherent` proves that `add` keeps the view faithful, and
    `Commute` that `transform` (lines 161-178) lets two concurrent operations
    be applied in either order with the same result, unless both are inserts
    at one index with one priority. */
module Slots {
  import opened Seqs
  import opened DeltaTree
  import opened Ops
  import opened Doc

  datatype Slot = Slot(ch: char, deleted: bool)

  /** The live characters, in order. */
  function Visible(sl: seq<Slot>): seq<char>
    decreases |sl|
  {
    if sl == [] then [] else (if sl[0].deleted then [] else [sl[0].ch]) + Visible(sl[1..])
  }

  /** The positions of the deleted slots, counted from `base`, in order. */
  function Tombs(sl: seq<Slot>, base: int): seq<int>
    decreases |sl|
  {
    if sl == [] then [] else (if sl[0].deleted then [base] else []) + Tombs(sl[1..], base + 1)
  }

  /** The operation addresses a position of the slots (an insertion may also
      address the end). */
  predicate Fits(sl: seq<Slot>, op: Op) {
    if op.Ins? then op.ix <= |sl| else op.ix < |sl|
  }

  function Insert(sl: seq<Slot>, i: nat, s: Slot): seq<Slot>
    requires i <= |sl|
  {
    sl[..i] + [s] + sl[i..]
  }

  function Mark(sl: seq<Slot>, i: nat): seq<Slot>
    requires i < |sl|
  {
    sl[i := sl[i].(deleted := true)]
  }

  /** An operation on the slots. */
  function Step(sl: seq<Slot>, op: Op): seq<Slot>
    requires Fits(sl, op)
  {
    match op
    case Ins(ix, ch, _, _) => Insert(sl, ix, Slot(ch, false))
    case Del(ix, _) => Mark(sl, ix)
  }

  /** The canonical state `d` is a view of the slots `sl`. */
  ghost predicate Shows(d: DocView, sl: seq<Slot>) {
    DeltaTree.Valid(d.dels) && ToArray(d.dels) == Tombs(sl, 0) && d.str == Visible(sl)
  }

  /** The length equation of the canonical state: every allocated
      coordinate is either a tombstone or a visible character. */
  lemma {:induction false} ShowsLength(d: DocView, sl: seq<Slot>)
    requires Shows(d, sl)
    ensures |d.str| + SizeOf(d.dels) == |sl|
  {
    TombsCount(sl, 0);
    SizeIsLength(d.dels, 0);
  }

  // ---------------------------------------------------------------------
  // Facts about the views
  // ---------------------------------------------------------------------

  lemma {:induction false} VisibleConcat(a: seq<Slot>, b: seq<Slot>)
    decreases |a|
    ensures Visible(a + b) == Visible(a) + Visible(b)
  {
    if a != [] {
      assert (a + b)[0] == a[0];
      assert (a + b)[1..] == a[1..] + b;
      VisibleConcat(a[1..], b);
    } else {
      assert a + b == b;
    }
  }

  lemma {:induction false} TombsConcat(a: seq<Slot>, b: seq<Slot>, base: int)
    decreases |a|
    ensures Tombs(a + b, base) == Tombs(a, base) + Tombs(b, base + |a|)
  {
    if a != [] {
      assert (a + b)[0] == a[0];
      assert (a + b)[1..] == a[1..] + b;
      TombsConcat(a[1..], b, base + 1);
    } else {
      assert a + b == b;
    }
  }

  /** The tombstones of `sl` lie in `[base, base + |sl|)`. */
  lemma {:induction false} TombsRange(sl: seq<Slot>, base: int)
    decreases |sl|
    ensures AtLeast(Tombs(sl, base), base) && Under(Tombs(sl, base), base + |sl|)
  {
    if sl != [] {
      TombsRange(sl[1..], base + 1);
    }
  }

  lemma {:induction false} TombsOffset(sl: seq<Slot>, base: int)
    decreases |sl|
    ensures Tombs(sl, base + 1) == Offset(Tombs(sl, base), 1)
  {
    if sl != [] {
      TombsOffset(sl[1..], base + 1);
      OffsetConcat(if sl[0].deleted then [base] else [], Tombs(sl[1..], base + 1), 1);
    }
  }

  /** Every slot is either a tombstone or a live character. */
  lemma {:induction false} TombsCount(sl: seq<Slot>, base: int)
    decreases |sl|
    ensures |Tombs(sl, base)| + |Visible(sl)| == |sl|
  {
    if sl != [] {
      TombsCount(sl[1..], base + 1);
    }
  }

  lemma {:induction false} SingleLive(s: Slot, base: int)
    requires !s.deleted
    ensures Tombs([s], base) == [] && Visible([s]) == [s.ch]
  {
    assert [s][1..] == [];
  }

  lemma {:induction false} SingleDead(s: Slot, base: int)
    requires s.deleted
    ensures Tombs([s], base) == [base] && Visible([s]) == []
  {
    assert [s][1..] == [];
  }

  /** The visible rank `xi_inv` computes for position `ix` is the number of
      live slots before `ix`. */
  lemma {:induction false} RankIsLivePrefix(sl: seq<Slot>, ix: nat)
    requires ix <= |sl|
    ensures ix - Below(Tombs(sl, 0), ix) == |Visible(sl[..ix])|
  {
    var a, b := sl[..ix], sl[ix..];
    assert sl == a + b;
    TombsConcat(a, b, 0);
    BelowConcat(Tombs(a, 0), Tombs(b, ix), ix);
    TombsRange(a, 0);
    TombsRange(b, ix);
    BelowAllLess(Tombs(a, 0), ix);
    BelowNoneLess(Tombs(b, ix), ix);
    TombsCount(a, 0);
  }

  /** Inserting `y` between everything below it and everything above it. */
  lemma {:induction false} InsertSortedBetween(x: seq<int>, y: int, z: seq<int>)
    requires Under(x, y) && Above(z, y)
    decreases |x|
    ensures InsertSorted(x + z, y) == x + [y] + z
  {
    if x == [] {
      assert x + z == z;
      if z != [] {
        assert z[0] in z;
      }
    } else {
      assert x[0] in x;
      assert (x + z)[0] == x[0] && (x + z)[1..] == x[1..] + z;
      UnderTail(x, y);
      InsertSortedBetween(x[1..], y, z);
      InsertSortedStep(x + z, y);
      ConsRegroup(x, y, z);
    }
  }

  // ---------------------------------------------------------------------
  // `add` keeps the view faithful
  // ---------------------------------------------------------------------

  /** Inserting a live slot at `i` shifts the tombstones at or after `i`. */
  lemma {:induction false} InsertTombs(sl: seq<Slot>, i: nat, s: Slot)
    requires i <= |sl| && !s.deleted
    ensures Tombs(Insert(sl, i, s), 0) == ShiftFrom(Tombs(sl, 0), i)
  {
    var a, b := sl[..i], sl[i..];
    assert sl == a + b;
    assert Insert(sl, i, s) == (a + [s]) + b;
    TombsConcat(a + [s], b, 0);
    TombsConcat(a, [s], 0);
    SingleLive(s, i);
    TombsConcat(a, b, 0);
    ShiftFromConcat(Tombs(a, 0), Tombs(b, i), i);
    TombsRange(a, 0);
    TombsRange(b, i);
    ShiftFromBelowCut(Tombs(a, 0), i);
    ShiftFromAllAbove(Tombs(b, i), i);
    TombsOffset(b, i);
  }

  lemma {:induction false} InsertVisible(sl: seq<Slot>, i: nat, s: Slot)
    requires i <= |sl| && !s.deleted
    ensures Visible(Insert(sl, i, s)) == Visible(sl[..i]) + [s.ch] + Visible(sl[i..])
    ensures Visible(sl) == Visible(sl[..i]) + Visible(sl[i..])
  {
    var a, b := sl[..i], sl[i..];
    assert sl == a + b;
    assert Insert(sl, i, s) == (a + [s]) + b;
    VisibleConcat(a + [s], b);
    VisibleConcat(a, [s]);
    SingleLive(s, i);
    VisibleConcat(a, b);
  }

  /** Flagging a live slot at `i` adds `i` to the tombstones. */
  lemma {:induction false} MarkTombs(sl: seq<Slot>, i: nat)
    requires i < |sl| && !sl[i].deleted
    ensures i !in Tombs(sl, 0)
    ensures Tombs(Mark(sl, i), 0) == InsertSorted(Tombs(sl, 0), i)
  {
    var a, s, b := sl[..i], sl[i], sl[i + 1..];
    var s' := s.(deleted := true);
    assert sl == (a + [s]) + b;
    assert Mark(sl, i) == (a + [s']) + b;
    TombsConcat(a + [s], b, 0);
    TombsConcat(a, [s], 0);
    TombsConcat(a + [s'], b, 0);
    TombsConcat(a, [s'], 0);
    SingleLive(s, i);
    SingleDead(s', i);
    TombsRange(a, 0);
    TombsRange(b, i + 1);
    var x, z := Tombs(a, 0), Tombs(b, i + 1);
    assert Tombs(sl, 0) == x + z;
    assert Tombs(Mark(sl, i), 0) == x + [i] + z;
    assert Above(z, i);
    InsertSortedBetween(x, i, z);
  }

  lemma {:induction false} MarkVisible(sl: seq<Slot>, i: nat)
    requires i < |sl| && !sl[i].deleted
    ensures Visible(sl) == Visible(sl[..i]) + [sl[i].ch] + Visible(sl[i + 1..])
    ensures Visible(Mark(sl, i)) == Visible(sl[..i]) + Visible(sl[i + 1..])
  {
    var a, s, b := sl[..i], sl[i], sl[i + 1..];
    var s' := s.(deleted := true);
    assert sl == (a + [s]) + b;
    assert Mark(sl, i) == (a + [s']) + b;
    VisibleConcat(a + [s], b);
    VisibleConcat(a, [s]);
    VisibleConcat(a + [s'], b);
    VisibleConcat(a, [s']);
    SingleLive(s, i);
    SingleDead(s', i);
  }

  /** Flagging a slot that is already deleted changes nothing. */
  lemma {:induction false} MarkDead(sl: seq<Slot>, i: nat)
    requires i < |sl| && sl[i].deleted
    ensures i in Tombs(sl, 0) && Mark(sl, i) == sl
  {
    var a, s, b := sl[..i], sl[i], sl[i + 1..];
    assert sl == (a + [s]) + b;
    TombsConcat(a + [s], b, 0);
    TombsConcat(a, [s], 0);
    SingleDead(s, i);
  }

  lemma {:induction false} CoherentIns(d: DocView, sl: seq<Slot>, op: Op)
    requires Shows(d, sl) && op.Ins? && Fits(sl, op)
    ensures Shows(Apply(d, op), Step(sl, op))
  {
    var s := Slot(op.ch, false);
    ApplyIns(d, op);
    InsertTombs(sl, op.ix, s);
    InsertVisible(sl, op.ix, s);
    RankIsLivePrefix(sl, op.ix);
  }

  lemma {:induction false} CoherentDel(d: DocView, sl: seq<Slot>, op: Op)
    requires Shows(d, sl) && op.Del? && Fits(sl, op)
    ensures Shows(Apply(d, op), Step(sl, op))
  {
    if sl[op.ix].deleted {
      MarkDead(sl, op.ix);
      ApplyDelKnown(d, op);
    } else {
      CoherentDelLive(d, sl, op);
    }
  }

  lemma {:induction false} CoherentDelLive(d: DocView, sl: seq<Slot>, op: Op)
    requires Shows(d, sl) && op.Del? && Fits(sl, op) && !sl[op.ix].deleted
    ensures Shows(Apply(d, op), Step(sl, op))
  {
    var i := op.ix;
    MarkTombs(sl, i);
    MarkVisible(sl, i);
    RankIsLivePrefix(sl, i);
    UnionOneSpec(d.dels, i);
    var p := FreeRank(d.dels, i);
    assert p == |Visible(sl[..i])|;
    var r := Apply(d, op);
    assert r.dels == UnionOne(d.dels, i);
    assert r.str == Take(d.str, p) + Drop(d.str, p + 1);
    assert Take(d.str, p) == Visible(sl[..i]);
    assert Drop(d.str, p + 1) == Visible(sl[i + 1..]);
  }

  /** `add` keeps the canonical state a view of the slots: an operation that
      fits the slots has the same effect on both. */
  lemma {:induction false} Coherent(d: DocView, sl: seq<Slot>, op: Op)
    requires Shows(d, sl) && Fits(sl, op)
    ensures Shows(Apply(d, op), Step(sl, op))
  {
    if op.Ins? {
      CoherentIns(d, sl, op);
    } else {
      CoherentDel(d, sl, op);
    }
  }

  /** The state a new `DocState` starts in shows the empty document. */
  lemma {:induction false} ShowsEmpty()
    ensures Shows(DocView([], Leaf, [], []), [])
  {
    ValidLeaf();
  }

  // ---------------------------------------------------------------------
  // `transform` lets concurrent operations commute
  // ---------------------------------------------------------------------

  /** Two insertions at one index with one priority: the only pair that
      `transform` cannot order. */
  predicate Tie(a: Op, b: Op) {
    a.Ins? && b.Ins? && a.ix == b.ix && a.pri == b.pri
  }

  /** An operation transformed past another still fits the slots after it. */
  lemma {:induction false} FitsAfter(sl: seq<Slot>, a: Op, b: Op)
    requires Fits(sl, a) && Fits(sl, b)
    ensures Fits(Step(sl, a), Transform(b, a))
  {
  }

  lemma {:induction false} InsertInsert(sl: seq<Slot>, i: nat, s: Slot, j: nat, t: Slot)
    requires i <= j <= |sl|
    ensures Insert(Insert(sl, i, s), j + 1, t) == Insert(Insert(sl, j, t), i, s)
  {
    var x := Insert(sl, i, s);
    var y := Insert(sl, j, t);
    assert x[..j + 1] == sl[..i] + [s] + sl[i..j];
    assert x[j + 1..] == sl[j..];
    assert y[..i] == sl[..i];
    assert y[i..] == sl[i..j] + [t] + sl[j..];
  }

  lemma {:induction false} InsertMark(sl: seq<Slot>, i: nat, s: Slot, j: nat)
    requires i <= |sl| && j < |sl|
    ensures Mark(Insert(sl, i, s), if j < i then j else j + 1) == Insert(Mark(sl, j), i, s)
  {
    var l := Mark(Insert(sl, i, s), if j < i then j else j + 1);
    var r := Insert(Mark(sl, j), i, s);
    assert |l| == |r|;
    forall k | 0 <= k < |l| ensures l[k] == r[k] {
      if k < i {
        assert l[k] == (if k == j then sl[k].(deleted := true) else sl[k]);
      } else if k > i {
        assert l[k] == (if k - 1 == j then sl[k - 1].(deleted := true) else sl[k - 1]);
      }
    }
  }

  lemma {:induction false} MarkMark(sl: seq<Slot>, i: nat, j: nat)
    requires i < |sl| && j < |sl|
    ensures Mark(Mark(sl, i), j) == Mark(Mark(sl, j), i)
  {
  }

  /** Applying `a` and then `b` transformed past `a` gives the same slots as
      applying `b` and then `a` transformed past `b`, unless the two are
      inserts at one index with one priority. */
  lemma {:induction false} Commute(sl: seq<Slot>, a: Op, b: Op)
    requires Fits(sl, a) && Fits(sl, b) && !Tie(a, b)
    ensures Fits(Step(sl, a), Transform(b, a)) && Fits(Step(sl, b), Transform(a, b))
    ensures Step(Step(sl, a), Transform(b, a)) == Step(Step(sl, b), Transform(a, b))
  {
    FitsAfter(sl, a, b);
    FitsAfter(sl, b, a);
    if a.Ins? && b.Ins? {
      if a.ix < b.ix || (a.ix == b.ix && a.pri < b.pri) {
        CommuteInsIns(sl, a, b);
      } else {
        CommuteInsIns(sl, b, a);
      }
    } else if a.Ins? {
      CommuteInsDel(sl, a, b);
    } else if b.Ins? {
      CommuteInsDel(sl, b, a);
    } else {
      CommuteDelDel(sl, a, b);
    }
  }

  /** Two insertions: the one ordered first by index, then priority, ends up
      on the left. */
  lemma {:induction false} CommuteInsIns(sl: seq<Slot>, a: Op, b: Op)
    requires a.Ins? && b.Ins? && Fits(sl, a) && Fits(sl, b)
    requires a.ix < b.ix || (a.ix == b.ix && a.pri < b.pri)
    ensures Fits(Step(sl, a), Transform(b, a)) && Fits(Step(sl, b), Transform(a, b))
    ensures Step(Step(sl, a), Transform(b, a)) == Step(Step(sl, b), Transform(a, b))
  {
    var s, t := Slot(a.ch, false), Slot(b.ch, false);
    assert Transform(b, a) == b.(ix := b.ix + 1);
    assert Transform(a, b) == a;
    assert Step(sl, a) == Insert(sl, a.ix, s);
    assert Step(sl, b) == Insert(sl, b.ix, t);
    assert Step(Step(sl, a), Transform(b, a)) == Insert(Insert(sl, a.ix, s), b.ix + 1, t);
    assert Step(Step(sl, b), Transform(a, b)) == Insert(Insert(sl, b.ix, t), a.ix, s);
    InsertInsert(sl, a.ix, s, b.ix, t);
  }

  /** An insertion and a deletion: the deletion moves right past the
      insertion unless it lies strictly before it. */
  lemma {:induction false} CommuteInsDel(sl: seq<Slot>, a: Op, b: Op)
    requires a.Ins? && b.Del? && Fits(sl, a) && Fits(sl, b)
    ensures Fits(Step(sl, a), Transform(b, a)) && Fits(Step(sl, b), Transform(a, b))
    ensures Step(Step(sl, a), Transform(b, a)) == Step(Step(sl, b), Transform(a, b))
  {
    var s := Slot(a.ch, false);
    var j := if b.ix < a.ix then b.ix else b.ix + 1;
    assert Transform(b, a) == Del(j, b.id);
    assert Transform(a, b) == a;
    assert Step(Step(sl, a), Transform(b, a)) == Mark(Insert(sl, a.ix, s), j);
    assert Step(Step(sl, b), Transform(a, b)) == Insert(Mark(sl, b.ix), a.ix, s);
    InsertMark(sl, a.ix, s, b.ix);
  }

  /** Two deletions commute untransformed. */
  lemma {:induction false} CommuteDelDel(sl: seq<Slot>, a: Op, b: Op)
    requires a.Del? && b.Del? && Fits(sl, a) && Fits(sl, b)
    ensures Fits(Step(sl, a), Transform(b, a)) && Fits(Step(sl, b), Transform(a, b))
    ensures Step(Step(sl, a), Transform(b, a)) == Step(Step(sl, b), Transform(a, b))
  {
    MarkMark(sl, a.ix, b.ix);
  }

  /** Two concurrent operations, each transformed past the other, leave the
      canonical document with the same string and the same tombstones in
      either order. */
  lemma {:induction false} Converge(d: DocView, sl: seq<Slot>, a: Op, b: Op)
    requires Shows(d, sl) && Fits(sl, a) && Fits(sl, b) && !Tie(a, b)
    ensures var d1, d2 := Apply(Apply(d, a), Transform(b, a)), Apply(Apply(d, b), Transform(a, b));
      d1.str == d2.str && ToArray(d1.dels) == ToArray(d2.dels)
  {
    Commute(sl, a, b);
    Coherent(d, sl, a);
    Coherent(Apply(d, a), Step(sl, a), Transform(b, a));
    Coherent(d, sl, b);
    Coherent(Apply(d, b), Step(sl, b), Transform(a, b));
  }
}
