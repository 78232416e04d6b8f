# A verified model of the OT toy

This project models `ot_toy.js`, a small Operational Transformation engine, in
Dafny 4.11 and proves properties of the model. The engine has three layers.

- **The tombstone tree** (module `DeltaTree`, `tree.dfy`). It is a persistent
  order-statistics tree holding a set of naturals: the absolute positions of
  the deleted characters. Each node's `value` is relative to the base it gets
  from its parent. `InOrder(t, base)` is the in-order walk that `to_array`
  performs, and it is the abstraction every tree operation is specified
  against.
  - `union_one` adds an element, and `xi_one` shifts every element at or
    above an index.
  - `xi` and `xi_inv` translate between visible and absolute positions. They
    are `while` loops in the source, so they are methods here.
  - `contains` tests membership.
- **Operations and transformation** (module `Ops`, `ops.dfy`). `Op` is
  `Ins(ix, ch, pri, id) | Del(ix, id)`. `transform_ins` moves an operation
  past an insertion.
- **The canonical document and the peers** (module `Doc`, `doc.dfy`, and
  module `Protocol`, `peer.dfy`).
  - `DocState` is a class with the source's fields: the log `ops`, the
    tombstone tree `dels`, the visible string `str` and the cursor array
    `points`. `Add` updates them in place and is proved equal to the value
    function `Apply`.
  - `Peer` is a class with `rev` and `context`. `MergeOp` classifies an
    incoming operation; for a fresh one it runs the backward scan that builds
    `ins_list` with the trees `S` and `T`, folds `transform_ins` over the list,
    and appends the result.
  - Each loop is proved against a recursive specification function: `ScanOps`
    for the scan, `FoldBack` for the fold, and `SkipKnown` for the roll
    forward.

Module `Slots` (`slots.dfy`) adds a reference model of the document: one slot
per absolute position, holding a character and a deleted flag. It proves two
things.

- `add` keeps the canonical state a faithful view of the slots (`Coherent`).
- `transform` lets two concurrent operations be applied in either order with
  the same result, unless both are inserts at one index with one priority
  (`Commute`, `Converge`).

Module `Seqs` (`seqs.dfy`) holds the sequence facts the proofs share.

Two facts about the code are worth stating.

- `add` itself appends the operation to `ops` (ot_toy.js:189), before it
  looks at the operation's kind.
- `xi(S, i)` maps a visible rank to an absolute position: the `i`-th natural
  not in `S`. `xi_inv` maps an absolute position that is not a tombstone back
  to its visible rank. `xform_ix` therefore returns an absolute position.

JavaScript's `String.slice` clamps its bounds. `Take` and `Drop` model that
clamping, so an operation whose index lies past the end of the string behaves
as in the source.

## Model

| member | source | states |
|---|---|---|
| DeltaTree.SizeOf | ot_toy.js:17-19 | transcribes `size_of`; its agreement with the walk is `SizeIsLength` |
| DeltaTree.HeightOf | ot_toy.js:69-70 | transcribes the `null`-is-0 height read; used by `MkTreeRawWellFormed` and `MkTreeWellFormed` |
| DeltaTree.InOrder | ot_toy.js:121-128 | transcribes `rec`; specified by `OrderedIncreasing`, `SizeIsLength` and `InOrderOffset` |
| DeltaTree.ToArray | ot_toy.js:119-131 | transcribes `to_array` as `rec(tree, 0)`; the set abstraction of every tree lemma |
| DeltaTree.MkTreeRaw | ot_toy.js:67-73 | transcribes `mk_tree_raw`; specified by `MkTreeRawWellFormed` |
| DeltaTree.MkTree | ot_toy.js:75-88 | transcribes `mk_tree` with its two rotations; specified by `MkTreeWellFormed` and `MkTreeInOrder` |
| DeltaTree.UnionOne | ot_toy.js:90-102 | transcribes `union_one`; specified by `UnionOneSpec` and `UnionOneAt` |
| DeltaTree.XiOne | ot_toy.js:105-115 | transcribes `xi_one`; specified by `XiOneSpec` and `XiOneAt` |
| DeltaTree.NthFree | ot_toy.js:21-35 | the walk of `xi` as a recursion; specified by `NthFreeAt`, and the loop `Xi` is proved equal to it |
| DeltaTree.FreeRank | ot_toy.js:37-51 | the result of `xi_inv`, as `y` minus the members below `y`; the loop `XiInv` is proved equal to it, and `XiInvOfXi`/`XiOfXiInv` relate it to `NthFree` |
| Doc.Bump | ot_toy.js:195-209 | the effect of the two loops over `points` on values; the loop `MovePoints` is proved equal to it |
| Protocol.SkipKnown | ot_toy.js:233-237 | the roll-forward loop as a recursion; specified by `SkipKnownSpec`, and the loop in `MergeOp` is proved equal to it |
| Protocol.ScanOps | ot_toy.js:248-261 | the backward scan as a recursion, newest operation first; specified by `ScanValid`, and the loop `Scan` is proved equal to it |
| Protocol.FoldBack | ot_toy.js:262-264 | the fold of `transform_ins`, last entry first; specified by `FoldBackShape`, and the loop `Fold` is proved equal to it |
| Protocol.Rebase | ot_toy.js:248-264 | the operation that `merge_op` appends for a fresh operation; specified by `RebaseShape`, `RebaseAllSeen` and `RebaseNoContext` |
| DeltaTree.SizeIsLength | ot_toy.js:17-19 | in a well-formed tree the cached `size` is the number of elements `to_array` lists |
| DeltaTree.OrderedIncreasing | ot_toy.js:119-131 | the node-by-node ordering holds exactly when the sequence `to_array` produces is strictly increasing |
| DeltaTree.InOrderOffset | ot_toy.js:121-128 | moving the running base of `rec` by `d` moves every listed element by `d` |
| DeltaTree.MkTreeRawWellFormed | ot_toy.js:67-73 | `mk_tree_raw` builds a node with `size = size(l) + 1 + size(r)` and `height = max(h(l), h(r)) + 1` |
| DeltaTree.RotateRightWellFormed | ot_toy.js:78-81 | after the right rotation every cached size and height is correct, the size is that of the raw node, and it is no taller |
| DeltaTree.RotateLeftWellFormed | ot_toy.js:82-85 | the same for the left rotation |
| DeltaTree.MkTreeWellFormed | ot_toy.js:75-88 | `mk_tree` in each of its three branches builds a well-formed node of size `size(l) + 1 + size(r)`, no taller than the raw node |
| DeltaTree.RotateRightInOrder | ot_toy.js:78-81 | the right rotation keeps the in-order absolute sequence of the raw node |
| DeltaTree.RotateLeftInOrder | ot_toy.js:82-85 | the left rotation keeps the in-order absolute sequence of the raw node |
| DeltaTree.MkTreeInOrder | ot_toy.js:75-88 | `mk_tree`, rotated or not, has the same in-order absolute sequence as `mk_tree_raw(l, v, r)` |
| DeltaTree.UnionOneWellFormed | ot_toy.js:90-102 | `union_one` keeps every cached size and height correct |
| DeltaTree.UnionOneAt | ot_toy.js:90-102 | at any base, the in-order sequence of `union_one(t, i)` is that of `t` with `base + i` inserted in sorted position |
| DeltaTree.UnionOneToArray | ot_toy.js:90-102 | `to_array(union_one(t, i))` is `to_array(t)` with `i` inserted in sorted position |
| DeltaTree.UnionOneValid | ot_toy.js:90-102 | adding a natural keeps the tree a strictly increasing set of naturals |
| DeltaTree.UnionOneSize | ot_toy.js:90-102 | the size grows by one exactly when `i` was not a member |
| DeltaTree.UnionOneSpec | ot_toy.js:90-102 | the result holds `set(t) ∪ {i}`; a member leaves the set unchanged and a non-member grows the size by exactly one |
| DeltaTree.UnionOneIdempotent | ot_toy.js:90-102 | adding the same element twice gives the same set as adding it once |
| DeltaTree.UnionOneMemberIdentity | ot_toy.js:96-97 | on a tree where no node needs a rotation, adding a member returns the tree itself |
| DeltaTree.XiOneWellFormed | ot_toy.js:105-115 | `xi_one` keeps every cached size and height correct |
| DeltaTree.XiOneAt | ot_toy.js:105-115 | at any base, every element at or above `base + i` moves up by one and every smaller element is kept |
| DeltaTree.XiOneToArray | ot_toy.js:105-115 | `to_array(xi_one(t, i))` maps each `x >= i` to `x + 1` and keeps each `x < i` |
| DeltaTree.XiOneValid | ot_toy.js:105-115 | shifting keeps the tree a strictly increasing set of naturals |
| DeltaTree.XiOneSize | ot_toy.js:105-115 | shifting keeps the size |
| DeltaTree.XiOneSpec | ot_toy.js:105-115 | the shift as above; the size is unchanged, the empty tree stays empty, and `i` is never a member afterwards |
| DeltaTree.NthFreeAt | ot_toy.js:21-35 | the position `xi` walks to is not a member, and it equals `i` plus the number of members below it |
| DeltaTree.XiInvOfXi | ot_toy.js:21-51 | `xi(t, i) >= i`, it is never a member, and `xi_inv(t, xi(t, i)) == i` |
| DeltaTree.FreeRankNonNegative | ot_toy.js:37-51 | the rank `xi_inv` gives a natural is a natural |
| DeltaTree.FreeRankStrict | ot_toy.js:37-51 | distinct non-members get distinct ranks, in order |
| DeltaTree.XiOfXiInv | ot_toy.js:21-51 | `xi(t, xi_inv(t, y)) == y` for every natural `y` that is not a member |
| DeltaTree.Xi | ot_toy.js:21-35 | the loop returns the `i`-th natural not in the tree: a non-member whose rank is `i` |
| DeltaTree.XiInv | ot_toy.js:37-51 | the loop returns `i` minus the number of members below `i`, a natural for a natural `i` |
| DeltaTree.Contains | ot_toy.js:53-65 | the loop returns true exactly when `i` occurs in `to_array(t)` |
| DeltaTree.ValidLeaf | ot_toy.js:119-131 | the empty tree is a valid, empty set, the start of every tree built by `union_one` and `xi_one` |
| Ops.TransformIns | ot_toy.js:166-178 | an insert is unchanged iff `op.ix < ix` or (`op.ix == ix` and `op.pri < pri`); a delete is unchanged iff `op.ix < ix`; otherwise only `ix` grows by one; kind and id are kept |
| Ops.Transform | ot_toy.js:161-164 | past a delete the operation is unchanged; past an insert only its index can move, by at most one |
| Ops.TransformInsTieBreak | ot_toy.js:166-171 | of two inserts at one index, exactly the one with the higher priority moves |
| Doc.Take | ot_toy.js:194 | `s.slice(0, k)` is the prefix of length `min(k, |s|)` |
| Doc.Drop | ot_toy.js:194 | `s.slice(k)` is what remains after `s.slice(0, k)` |
| Doc.Apply | ot_toy.js:188-211 | `add` always logs the operation, keeps the tombstones a valid set and keeps the number of points |
| Doc.ApplyDelKnown | ot_toy.js:190-191 | deleting a position that is already a tombstone changes nothing but the log |
| Doc.ApplyDelFresh | ot_toy.js:190-200 | any other delete adds `ix` to the tombstones, removes the one character at `xi_inv(dels, ix)` (when that position exists) and decrements exactly the points after it |
| Doc.ApplyIns | ot_toy.js:201-210 | an insert shifts the tombstones at or after `ix`, places `ch` at `ix` minus the tombstones before it (or at the end), so the string grows by one, and increments exactly the points after that position |
| Doc.DocState.constructor | ot_toy.js:181-186 | a new document has an empty log, no tombstones, the empty string and no points |
| Doc.DocState.Add | ot_toy.js:188-211 | in place, `add` leaves the fields equal to `Apply` of the old fields and keeps the tombstone tree valid |
| Doc.DocState.MovePoints | ot_toy.js:195-209 | the loop over `points` moves exactly the points after `p` by `d` and keeps the others |
| Doc.DocState.XformIx | ot_toy.js:213-215 | `xform_ix` returns the absolute position of visible rank `ix`: never a tombstone, and its rank is `ix` |
| Doc.DocState.GetStr | ot_toy.js:217-219 | `get_str` returns the visible string |
| Protocol.Classify | ot_toy.js:231-246 | the first case is taken iff `ops[rev]` carries the incoming id; the third iff no operation from `rev` on carries it |
| Protocol.SkipKnownSpec | ot_toy.js:233-237 | rolling forward stops at the end of the log or at the first id not in the context, passes only ids in the context, and removes exactly the passed ids |
| Protocol.ScanValid | ot_toy.js:248-261 | the trees `S` and `T` stay valid sets with `T ⊆ S`, every `xi_inv(T, i)` is a natural, and `ins_list` has one entry per insert the peer has not seen |
| Protocol.Scan | ot_toy.js:248-261 | the backward loop returns the `ins_list` of its recursive specification |
| Protocol.FoldBackShape | ot_toy.js:262-264 | the fold keeps kind, id and payload and moves the index right by at most one place per entry |
| Protocol.Fold | ot_toy.js:262-264 | the loop applies `transform_ins` for the entries of `ins_list`, last entry first |
| Protocol.RebaseShape | ot_toy.js:248-264 | a fresh operation keeps kind, id and payload; its index grows by at most the number of unseen inserts |
| Protocol.FoldFwd | ot_toy.js:161-164 | `transform` of an operation past each operation of a log, oldest first: the independent reference `RebaseNoContext` compares the scan with |
| Protocol.ScanNoContextSame | ot_toy.js:251-260 | when the peer has seen none of the scanned operations, `T` grows exactly as `S` does, so the two trees stay equal |
| Protocol.FoldNoContext | ot_toy.js:251-264 | when the peer has seen none of the scanned operations, each entry of `ins_list` is `xi_inv(S, xi(S, ix)) = ix` with its priority, and the fold equals transforming `op` past each operation oldest first |
| Protocol.RebaseNoContext | ot_toy.js:248-264 | a peer that has seen none of the operations from `rev` on gets `op` transformed by `transform` past each of them in log order |
| Protocol.RebaseAllSeen | ot_toy.js:248-266 | when the peer has seen every insert from `rev` on, in particular when it is caught up, the operation is appended untransformed |
| Protocol.Peer.constructor | ot_toy.js:223-226 | a new peer has `rev == 0` and an empty context |
| Protocol.Peer.MergeOp | ot_toy.js:228-272 | next expected: the document is untouched and `rev` rolls forward as `SkipKnown` says. Known later: the document is untouched and only the id joins the context. Fresh: exactly the rebased operation is applied; a caught-up peer appends `op` itself and increments `rev`, any other peer adds the id to the context. `rev <= |ops|` is preserved |
| Slots.RankIsLivePrefix | ot_toy.js:37-51 | the rank `xi_inv` gives position `ix` is the number of live characters before `ix` |
| Slots.CoherentIns | ot_toy.js:201-210 | an insert that fits the document has the same effect on the canonical state as inserting a live slot |
| Slots.CoherentDel | ot_toy.js:190-200 | a delete that fits the document has the same effect on the canonical state as flagging the slot |
| Slots.Coherent | ot_toy.js:188-211 | `add` keeps the tombstones equal to the deleted positions and the string equal to the live characters |
| Slots.ShowsLength | ot_toy.js:180-211 | on a state that shows a slot sequence, the string's length plus the number of tombstones is the number of allocated coordinates |
| Slots.ShowsEmpty | ot_toy.js:181-186 | a new document is the view of the empty slot sequence |
| Slots.FitsAfter | ot_toy.js:161-178 | an operation transformed past another still addresses a position of the document after it |
| Slots.Commute | ot_toy.js:161-178 | applying `a` then `transform(b, a)` gives the same document as `b` then `transform(a, b)`, unless both are inserts at one index with one priority |
| Slots.CommuteInsIns | ot_toy.js:166-171 | two inserts end up in the order given by index, then priority, whichever is applied first |
| Slots.CommuteInsDel | ot_toy.js:172-177 | an insert and a delete commute once the delete is moved past the insert |
| Slots.CommuteDelDel | ot_toy.js:161-162 | two deletes commute untransformed |
| Slots.Converge | ot_toy.js:161-211 | two concurrent operations, each transformed past the other and added in either order, leave the same string and the same tombstones |

## Left out

- index.js is not part of this model. It holds the HTTP routes, the socket.io events, the `broadcast` watermark, the `sleep` import and the logging; all of it is I/O around `merge_op`.
- `tree_toy` (ot_toy.js:133-149) and the export block (ot_toy.js:276-279) are debugging output and module glue. The round trip that `tree_toy` prints is `DeltaTree.XiInvOfXi`.
- AVL balance is not an invariant. `mk_tree` performs only single rotations, so the code does not keep `|h(l) - h(r)| <= 1`. The model proves the size and height bookkeeping and a height bound per node, not balance. Nothing is claimed about running time or structural sharing.
- DeltaTree.UnionOneMemberIdentity: requires `Balanced(t)`. On any tree, `union_one` of a member returns `tree` itself only at the node holding it. An ancestor that is already unbalanced is rebuilt, and may be rotated, by `mk_tree`. `DeltaTree.UnionOneSpec` states that the set is unchanged in every case.
- The length equation `|str| + size(dels)` = allocated coordinates is stated only for states that show a slot sequence (`Slots.ShowsLength`). The code breaks it for a delete whose visible rank is at or past the end of the string: the tombstone is added but no character is removed.
- Strings are sequences of Dafny `char`. UTF-16 code units and surrogate pairs are not modelled.
- `ix` is a natural. The source accepts any number, and `slice` with a negative bound counts from the end; negative or fractional indices are not modelled. Operations are a closed datatype, so records whose `ty` is neither `'ins'` nor `'del'` are not modelled. On such a record, `add` would log it and change nothing else, since both branches (ot_toy.js:190, 201) are skipped; `transform_ins` would treat it as a delete when it is moved, and `transform` (ot_toy.js:162) would treat it as a delete when it is the operation moved past.
- `pri` and `id` are integers. The source accepts any value and only compares priorities with `<` and ids with `==` and `Set.has`; fractional or string priorities and ids are not modelled.
- Ops.Transform: its contract states only that the index moves by at most one and that kind and id are kept. The exact rule is the contract of `Ops.TransformIns`, which it calls for an insert.
- No operation of the core ever adds a cursor point: the constructor starts `points` empty. `Add` is still proved for an arbitrary array of points.
- `DocState.Add` runs its two loops over `points` through the method `MovePoints`. The source writes that loop twice inline, once with `-= 1` and once with `+= 1`. `MergeOp` likewise runs its backward scan and its fold through the methods `Scan` and `Fold`.
- In `merge_op`, `ops` aliases the array that `add` pushes to. The model reads the log as a value; `ops` is not used after the push.
- `MergeOp` requires `rev <= |doc.ops|` and a valid tombstone tree, which hold for every new peer, even one created when the log is already non-empty (index.js:43 creates one per connection), since `rev` starts at 0. Every call, of this peer or another, only appends to `doc.ops` and keeps the tree valid, so both stay true. The source does not check them.
- Convergence of several peers under the full protocol is not modelled. The model proves the caught-up case (`Protocol.RebaseAllSeen`, and the last clause of `MergeOp`) and the convergence of two concurrent operations on the canonical document (`Slots.Converge`). Two inserts at one index with one priority do not converge: both move right, and the result depends on the order. Distinct priorities are left to the callers.
