/** Operations and their transformation (ot_toy.js, lines 153-178).

    An operation targets an absolute index: a position in the document that
    still counts every deleted character. Only a concurrent insertion can move
    such an index, so `transform` past a deletion is the identity. */
module Ops {

  /** `{ty: 'ins', ix, ch, pri, id}` and `{ty: 'del', ix, id}`. */
  datatype Op =
    | Ins(ix: nat, ch: char, pri: int, id: int)
    | Del(ix: nat, id: int)

  /** `transform_ins`: move `op` past an insertion at `ix` with priority
      `pri`. An insertion stays put when it lies strictly before `ix`, or at
      `ix` with a lower priority; a deletion stays put when it lies strictly
      before `ix`. Every other operation moves one place to the right. */
  function TransformIns(op: Op, ix: int, pri: int): (r: Op)
    ensures r.Ins? == op.Ins? && r.id == op.id
    ensures r == op <==> op.ix < ix || (op.Ins? && op.ix == ix && op.pri < pri)
    ensures r != op ==> r == op.(ix := op.ix + 1)
  {
    match op
    case Ins(i, ch, p, id) =>
      if i < ix || (i == ix && p < pri) then op else Ins(i + 1, ch, p, id)
    case Del(i, id) =>
      if i < ix then op else Del(i + 1, id)
  }

  /** `transform`: move `op1` past `op2`, which was applied first. */
  function Transform(op1: Op, op2: Op): (r: Op)
    ensures op2.Del? ==> r == op1
    ensures r.Ins? == op1.Ins? && r.id == op1.id
    ensures r.ix == op1.ix || r.ix == op1.ix + 1
  {
    if op2.Ins? then TransformIns(op1, op2.ix, op2.pri) else op1
  }

  /** Of two inserts at one index, exactly the one with the higher priority
      moves when each is transformed past the other. */
  lemma {:induction false} TransformInsTieBreak(a: Op, b: Op)
    requires a.Ins? && b.Ins? && a.ix == b.ix && a.pri < b.pri
    ensures Transform(a, b) == a
    ensures Transform(b, a) == b.(ix := b.ix + 1)
  {
  }
}
