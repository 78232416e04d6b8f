/** The per-peer merge protocol (ot_toy.js, lines 222-273).

    A peer has seen the document's log up to `rev` and, beyond it, the
    operations whose ids are in `context`. `MergeOp` takes an operation from
    the peer and either recognises it as already in the log or transforms it
    past the concurrent insertions the peer has not seen and appends it. */
module Protocol {
  import opened Seqs
  import opened DeltaTree
  import opened Ops
  import opened Doc

  /** How `merge_op` classifies an incoming operation with id `id`. */
  datatype Arrival =
    | Next    // the operation at `rev`: roll `rev` forward
    | Known   // later in the log: remember it in `context`
    | Fresh   // not in the log from `rev` on: transform and append

  ghost function Classify(ops: seq<Op>, rev: nat, id: int): (a: Arrival)
    requires rev <= |ops|
    ensures a == Next <==> rev < |ops| && ops[rev].id == id
    ensures a == Fresh <==> forall k :: rev <= k < |ops| ==> ops[k].id != id
  {
    if rev < |ops| && ops[rev].id == id then Next
    else if exists k :: rev <= k < |ops| && ops[k].id == id then Known
    else Fresh
  }

  /** The roll-forward loop of the first case: move `rev` past every
      following operation whose id is in the context, dropping those ids. */
  function SkipKnown(ops: seq<Op>, rev: nat, ctx: set<int>): (nat, set<int>)
    requires rev <= |ops|
    decreases |ops| - rev
  {
    if rev < |ops| && ops[rev].id in ctx then SkipKnown(ops, rev + 1, ctx - {ops[rev].id})
    else (rev, ctx)
  }

  /** The ids of the operations in `s`. */
  function IdsOf(s: seq<Op>): set<int>
    decreases |s|
  {
    if s == [] then {} else {s[0].id} + IdsOf(s[1..])
  }

  /** `SkipKnown` stops at the end of the log or at the first operation whose
      id is no longer in the context; every operation it passes was in the
      context, and exactly the passed ids leave it. */
  lemma {:induction false} SkipKnownSpec(ops: seq<Op>, rev: nat, ctx: set<int>)
    requires rev <= |ops|
    decreases |ops| - rev
    ensures var (r, c) := SkipKnown(ops, rev, ctx);
      rev <= r <= |ops| &&
      (forall k :: rev <= k < r ==> ops[k].id in ctx) &&
      c == ctx - IdsOf(ops[rev..r]) &&
      (r < |ops| ==> ops[r].id !in c)
  {
    if rev < |ops| && ops[rev].id in ctx {
      var id := ops[rev].id;
      SkipKnownSpec(ops, rev + 1, ctx - {id});
      var (r, c) := SkipKnown(ops, rev + 1, ctx - {id});
      assert ops[rev..r][1..] == ops[rev + 1..r];
    }
  }

  /** The trees `S` and `T` and the list `ins_list` built by the backward
      scan of the second loop. */
  datatype ScanState = ScanState(s: Tree, t: Tree, insList: seq<(int, int)>)

  /** The backward scan over `ops` (the log from `rev` on), newest operation
      first. `s` collects the absolute positions, in the incoming operation's
      coordinates, of every insertion in `ops`; `t` only those of insertions
      the peer has not seen, and for each of them `insList` records the
      position in the coordinates that leave out the seen ones, with its
      priority. */
  function ScanOps(ops: seq<Op>, ctx: set<int>): ScanState
    decreases |ops|
  {
    if ops == [] then ScanState(Leaf, Leaf, [])
    else
      var st := ScanOps(ops[1..], ctx);
      match ops[0]
      case Del(_, _) => st
      case Ins(ix, _, pri, id) =>
        var i := NthFree(st.s, ix);
        if id in ctx then ScanState(UnionOne(st.s, i), st.t, st.insList)
        else ScanState(UnionOne(st.s, i), UnionOne(st.t, i), st.insList + [(FreeRank(st.t, i), pri)])
  }

  /** The insertions in `ops` whose ids are not in the context. */
  function FreshInserts(ops: seq<Op>, ctx: set<int>): nat
    decreases |ops|
  {
    if ops == [] then 0
    else FreshInserts(ops[1..], ctx) + (if ops[0].Ins? && ops[0].id !in ctx then 1 else 0)
  }

  /** Both trees of the scan hold sets of naturals, `T` is a subset of `S`,
      every recorded position is a natural, and one entry is recorded per
      unseen insertion. */
  lemma {:induction false} ScanValid(ops: seq<Op>, ctx: set<int>)
    decreases |ops|
    ensures var st := ScanOps(ops, ctx);
      DeltaTree.Valid(st.s) && DeltaTree.Valid(st.t) &&
      (forall x :: x in ToArray(st.t) ==> x in ToArray(st.s)) &&
      (forall k :: 0 <= k < |st.insList| ==> st.insList[k].0 >= 0) &&
      |st.insList| == FreshInserts(ops, ctx)
  {
    if ops == [] {
      ValidLeaf();
    } else {
      ScanValid(ops[1..], ctx);
      var st := ScanOps(ops[1..], ctx);
      match ops[0]
      case Del(_, _) =>
      case Ins(ix, _, pri, id) =>
        var i := NthFree(st.s, ix);
        XiInvOfXi(st.s, ix);
        UnionOneSpec(st.s, i);
        if id !in ctx {
          UnionOneSpec(st.t, i);
          FreeRankNonNegative(st.t, i);
        }
    }
  }

  /** The fold of `transform_ins` over `insList`, last entry first. */
  function FoldBack(op: Op, insList: seq<(int, int)>): Op
    decreases |insList|
  {
    if insList == [] then op
    else
      var last := insList[|insList| - 1];
      FoldBack(TransformIns(op, last.0, last.1), insList[..|insList| - 1])
  }

  /** The fold only moves the operation's index, to the right, by at most
      one place per entry. */
  lemma {:induction false} FoldBackShape(op: Op, insList: seq<(int, int)>)
    decreases |insList|
    ensures var r := FoldBack(op, insList);
      r == op.(ix := r.ix) && op.ix <= r.ix <= op.ix + |insList|
  {
    if insList != [] {
      var last := insList[|insList| - 1];
      FoldBackShape(TransformIns(op, last.0, last.1), insList[..|insList| - 1]);
    }
  }

  /** What `merge_op` appends for a fresh operation: `op` moved past the
      insertions from `rev` on that the peer has not seen. */
  function Rebase(ops: seq<Op>, rev: nat, ctx: set<int>, op: Op): Op
    requires rev <= |ops|
  {
    FoldBack(op, ScanOps(ops[rev..], ctx).insList)
  }

  /** A rebased operation keeps its kind, id and payload; its index moves
      right by at most the number of unseen insertions. */
  lemma {:induction false} RebaseShape(ops: seq<Op>, rev: nat, ctx: set<int>, op: Op)
    requires rev <= |ops|
    ensures var r := Rebase(ops, rev, ctx, op);
      r == op.(ix := r.ix) && op.ix <= r.ix <= op.ix + FreshInserts(ops[rev..], ctx)
  {
    ScanValid(ops[rev..], ctx);
    FoldBackShape(op, ScanOps(ops[rev..], ctx).insList);
  }

  /** When the peer has seen every insertion from `rev` on (in particular
      when it is caught up), its operation is appended untransformed. */
  lemma {:induction false} RebaseAllSeen(ops: seq<Op>, rev: nat, ctx: set<int>, op: Op)
    requires rev <= |ops|
    requires FreshInserts(ops[rev..], ctx) == 0
    ensures Rebase(ops, rev, ctx, op) == op
  {
    RebaseShape(ops, rev, ctx, op);
  }

  /** `transform` of `op` past each operation of `s` in turn, oldest first. */
  function FoldFwd(op: Op, s: seq<Op>): Op
    decreases |s|
  {
    if s == [] then op else FoldFwd(Transform(op, s[0]), s[1..])
  }

  /** When the peer has seen none of `ops`, the scan's two trees coincide. */
  lemma {:induction false} ScanNoContextSame(ops: seq<Op>, ctx: set<int>)
    requires forall k :: 0 <= k < |ops| ==> ops[k].id !in ctx
    decreases |ops|
    ensures ScanOps(ops, ctx).s == ScanOps(ops, ctx).t
  {
    if ops != [] {
      assert forall k :: 0 <= k < |ops[1..]| ==> ops[1..][k] == ops[k + 1];
      ScanNoContextSame(ops[1..], ctx);
    }
  }

  /** When the peer has seen none of `ops`, every entry of `ins_list` is the
      original index and priority of its insertion, and folding them is
      transforming `op` past each operation of `ops`, oldest first. */
  lemma {:induction false} FoldNoContext(ops: seq<Op>, ctx: set<int>, op: Op)
    requires forall k :: 0 <= k < |ops| ==> ops[k].id !in ctx
    decreases |ops|
    ensures FoldBack(op, ScanOps(ops, ctx).insList) == FoldFwd(op, ops)
  {
    if ops != [] {
      assert forall k :: 0 <= k < |ops[1..]| ==> ops[1..][k] == ops[k + 1];
      var st := ScanOps(ops[1..], ctx);
      ScanNoContextSame(ops[1..], ctx);
      ScanValid(ops[1..], ctx);
      FoldNoContext(ops[1..], ctx, Transform(op, ops[0]));
      match ops[0]
      case Del(_, _) =>
      case Ins(ix, _, pri, _) =>
        XiInvOfXi(st.s, ix);
        var l := st.insList + [(ix, pri)];
        assert l[..|l| - 1] == st.insList;
    }
  }

  /** A peer that has seen none of the operations from `rev` on gets its
      operation transformed past each of them in log order. */
  lemma {:induction false} RebaseNoContext(ops: seq<Op>, rev: nat, ctx: set<int>, op: Op)
    requires rev <= |ops|
    requires forall k :: rev <= k < |ops| ==> ops[k].id !in ctx
    ensures Rebase(ops, rev, ctx, op) == FoldFwd(op, ops[rev..])
  {
    assert forall k :: 0 <= k < |ops[rev..]| ==> ops[rev..][k] == ops[rev + k];
    FoldNoContext(ops[rev..], ctx, op);
  }

  /** The backward loop of `merge_op` that builds `ins_list`, with the
      trees `S` and `T`. */
  method Scan(ops: seq<Op>, rev: nat, ctx: set<int>) returns (insList: seq<(int, int)>)
    requires rev <= |ops|
    ensures insList == ScanOps(ops[rev..], ctx).insList
  {
    var s, t := Leaf, Leaf;
    insList := [];
    var ix := |ops|;
    while ix > rev
      invariant rev <= ix <= |ops|
      invariant ScanState(s, t, insList) == ScanOps(ops[ix..], ctx)
    {
      ScanValid(ops[ix..], ctx);
      ix := ix - 1;
      assert ops[ix..][1..] == ops[ix + 1..];
      var myOp := ops[ix];
      if myOp.Ins? {
        var i := Xi(s, myOp.ix);
        if myOp.id !in ctx {
          var j := XiInv(t, i);
          insList := insList + [(j, myOp.pri)];
          t := UnionOne(t, i);
        }
        s := UnionOne(s, i);
      }
    }
  }

  /** The loop of `merge_op` that applies `transform_ins` for each entry of
      `ins_list`, last entry first. */
  method Fold(op: Op, insList: seq<(int, int)>) returns (r: Op)
    ensures r == FoldBack(op, insList)
  {
    r := op;
    var k := |insList|;
    assert insList[..k] == insList;
    while k > 0
      invariant 0 <= k <= |insList|
      invariant FoldBack(r, insList[..k]) == FoldBack(op, insList)
    {
      k := k - 1;
      assert insList[..k + 1][..k] == insList[..k];
      r := TransformIns(r, insList[k].0, insList[k].1);
    }
    assert insList[..0] == [];
  }

  class Peer {
    var rev: nat
    var context: set<int>

    /** A peer that has seen nothing. */
    constructor()
      ensures rev == 0 && context == {}
    {
      rev := 0;
      context := {};
    }

    /** `merge_op`: merge the peer's operation `op` into `doc`. */
    method MergeOp(doc: DocState, op: Op)
      requires doc.Valid() && rev <= |doc.ops|
      modifies this, doc, doc.points
      ensures doc.Valid() && rev <= |doc.ops| && doc.points == old(doc.points)
      ensures old(Classify(doc.ops, rev, op.id)) == Next ==>
        doc.View() == old(doc.View()) &&
        (rev, context) == old(SkipKnown(doc.ops, rev + 1, context))
      ensures old(Classify(doc.ops, rev, op.id)) == Known ==>
        doc.View() == old(doc.View()) &&
        rev == old(rev) && context == old(context) + {op.id}
      ensures old(Classify(doc.ops, rev, op.id)) == Fresh ==>
        doc.View() == Apply(old(doc.View()), Rebase(old(doc.ops), old(rev), old(context), op)) &&
        (old(rev) == old(|doc.ops|) ==> rev == old(rev) + 1 && context == old(context)) &&
        (old(rev) < old(|doc.ops|) ==> rev == old(rev) && context == old(context) + {op.id})
      ensures old(rev) == old(|doc.ops|) ==>
        doc.View() == Apply(old(doc.View()), op) && rev == old(rev) + 1
    {
      var id := op.id;
      var ops := doc.ops;
      if rev < |ops| && ops[rev].id == id {
        rev := rev + 1;
        while rev < |ops| && ops[rev].id in context
          modifies this
          invariant old(rev) < rev <= |ops|
          invariant SkipKnown(ops, rev, context) == old(SkipKnown(doc.ops, rev + 1, context))
          decreases |ops| - rev
        {
          context := context - {ops[rev].id};
          rev := rev + 1;
        }
        return;
      }
      for ix := rev to |ops|
        modifies this
        invariant forall k :: rev <= k < ix ==> ops[k].id != id
      {
        if ops[ix].id == id {
          context := context + {id};
          return;
        }
      }
      var insList := Scan(ops, rev, context);
      var cur := Fold(op, insList);
      var current := rev == |ops|;
      if current {
        RebaseAllSeen(ops, rev, context, op);
      }
      doc.Add(cur);
      if current {
        rev := rev + 1;
      } else {
        context := context + {id};
      }
    }
  }
}
