/** Facts about sequences of integers used to state what the tombstone tree
    represents: strictly increasing sequences, counting the elements below a
    bound, and shifting every element at or above a cut by one. */
module Seqs {

  /** Strictly increasing: the sequence lists a set of integers in order. */
  ghost predicate Increasing(s: seq<int>) {
    forall j, k :: 0 <= j < k < |s| ==> s[j] < s[k]
  }

  /** Every element of `s` is at least `lo`. */
  ghost predicate AtLeast(s: seq<int>, lo: int) {
    forall x :: x in s ==> x >= lo
  }

  /** Every element of `s` is strictly below `c`. */
  ghost predicate Under(s: seq<int>, c: int) {
    forall x :: x in s ==> x < c
  }

  /** Every element of `s` is strictly above `c`. */
  ghost predicate Above(s: seq<int>, c: int) {
    forall x :: x in s ==> x > c
  }

  /** The number of elements of `s` that are strictly below `y`. */
  function Below(s: seq<int>, y: int): (n: nat)
    ensures n <= |s|
  {
    if s == [] then 0 else (if s[0] < y then 1 else 0) + Below(s[1..], y)
  }

  /** Every element at or above `c` moves up by one; the others stay. */
  function ShiftFrom(s: seq<int>, c: int): seq<int> {
    seq(|s|, k requires 0 <= k < |s| => if s[k] >= c then s[k] + 1 else s[k])
  }

  lemma {:induction false} BelowConcat(a: seq<int>, b: seq<int>, y: int)
    ensures Below(a + b, y) == Below(a, y) + Below(b, y)
  {
    if a == [] {
      assert a + b == b;
    } else {
      assert (a + b)[0] == a[0];
      assert (a + b)[1..] == a[1..] + b;
      BelowConcat(a[1..], b, y);
    }
  }

  lemma {:induction false} BelowAllLess(s: seq<int>, y: int)
    requires forall x :: x in s ==> x < y
    ensures Below(s, y) == |s|
  {
    if s != [] {
      assert s[0] in s;
      assert forall x :: x in s[1..] ==> x in s;
      BelowAllLess(s[1..], y);
    }
  }

  lemma {:induction false} BelowNoneLess(s: seq<int>, y: int)
    requires forall x :: x in s ==> x >= y
    ensures Below(s, y) == 0
  {
    if s != [] {
      assert s[0] in s;
      assert forall x :: x in s[1..] ==> x in s;
      BelowNoneLess(s[1..], y);
    }
  }

  /** A node's in-order sequence `L + [x] + R` is increasing exactly when both
      halves are and `x` sits strictly between them. */
  lemma {:induction false} IncreasingSplit(L: seq<int>, x: int, R: seq<int>)
    ensures Increasing(L + [x] + R) <==>
      Increasing(L) && Increasing(R) && Under(L, x) && Above(R, x)
  {
    if Increasing(L + [x] + R) {
      IncreasingParts(L, x, R);
    }
    if Increasing(L) && Increasing(R) && Under(L, x) && Above(R, x) {
      IncreasingJoin(L, x, R);
    }
  }

  lemma {:induction false} IncreasingParts(L: seq<int>, x: int, R: seq<int>)
    requires Increasing(L + [x] + R)
    ensures Increasing(L) && Increasing(R) && Under(L, x) && Above(R, x)
  {
    var s := L + [x] + R;
    assert forall j :: 0 <= j < |L| ==> s[j] == L[j];
    assert s[|L|] == x;
    assert forall j :: 0 <= j < |R| ==> s[|L| + 1 + j] == R[j];
    forall j, k | 0 <= j < k < |L| ensures L[j] < L[k] {
      assert s[j] < s[k];
    }
    forall j, k | 0 <= j < k < |R| ensures R[j] < R[k] {
      assert s[|L| + 1 + j] < s[|L| + 1 + k];
    }
    forall y | y in L ensures y < x {
      var j :| 0 <= j < |L| && L[j] == y;
      assert s[j] < s[|L|];
    }
    forall y | y in R ensures x < y {
      var j :| 0 <= j < |R| && R[j] == y;
      assert s[|L|] < s[|L| + 1 + j];
    }
  }

  lemma {:induction false} IncreasingJoin(L: seq<int>, x: int, R: seq<int>)
    requires Increasing(L) && Increasing(R) && Under(L, x) && Above(R, x)
    ensures Increasing(L + [x] + R)
  {
    var s := L + [x] + R;
    forall j, k | 0 <= j < k < |s| ensures s[j] < s[k] {
      if k < |L| {
        assert s[j] == L[j] && s[k] == L[k];
      } else if k == |L| {
        assert s[j] == L[j] && L[j] in L;
      } else if j < |L| {
        assert L[j] in L && R[k - |L| - 1] in R;
        assert s[j] == L[j] && s[k] == R[k - |L| - 1];
      } else if j == |L| {
        assert R[k - |L| - 1] in R;
        assert s[k] == R[k - |L| - 1];
      } else {
        assert s[j] == R[j - |L| - 1] && s[k] == R[k - |L| - 1];
      }
    }
  }

  /** A strictly increasing sequence of integers no smaller than `lo` has at
      most `y - lo` elements below `y`. */
  lemma {:induction false} BelowBound(s: seq<int>, lo: int, y: int)
    requires Increasing(s) && AtLeast(s, lo) && y >= lo
    ensures Below(s, y) <= y - lo
  {
    if s != [] {
      assert s[0] in s;
      assert forall x :: x in s[1..] ==> x in s && x > s[0] by {
        forall x | x in s[1..] ensures x in s && x > s[0] {
          var k :| 0 <= k < |s[1..]| && s[1..][k] == x;
          assert s[k + 1] == x;
        }
      }
      if s[0] < y {
        BelowBound(s[1..], s[0] + 1, y);
      } else {
        BelowNoneLess(s, y);
      }
    }
  }

  /** Between a non-member `z` and a larger `y` there are at most `y - z - 1`
      members, so the count below grows by less than the distance. */
  lemma {:induction false} BelowGap(s: seq<int>, z: int, y: int)
    requires Increasing(s) && z < y && z !in s
    ensures Below(s, y) <= Below(s, z) + (y - z - 1)
  {
    if s != [] {
      assert s[0] in s;
      assert Increasing(s[1..]);
      if s[0] < z {
        BelowGap(s[1..], z, y);
      } else {
        assert forall x :: x in s ==> x >= s[0] by {
          forall x | x in s ensures x >= s[0] {
            var k :| 0 <= k < |s| && s[k] == x;
          }
        }
        BelowNoneLess(s, z);
        if s[0] < y {
          BelowBound(s, s[0], y);
        } else {
          BelowNoneLess(s, y);
        }
      }
    }
  }

  /** The members of an increasing sequence's tail are its members other
      than the head, and the head is the least member. */
  lemma {:induction false} TailMembers(s: seq<int>)
    requires Increasing(s) && s != []
    ensures forall x :: x in s ==> s[0] <= x
    ensures forall x :: x in s[1..] <==> x in s && x != s[0]
  {
    forall x | x in s ensures s[0] <= x {
      var k :| 0 <= k < |s| && s[k] == x;
    }
    forall x ensures x in s[1..] <==> x in s && x != s[0] {
      if x in s && x != s[0] {
        var k :| 0 <= k < |s| && s[k] == x;
        assert s[1..][k - 1] == x;
      }
      if x in s[1..] {
        var k :| 0 <= k < |s[1..]| && s[1..][k] == x;
        assert s[k + 1] == x;
      }
    }
  }

  lemma {:induction false} ShiftFromConcat(a: seq<int>, b: seq<int>, c: int)
    ensures ShiftFrom(a + b, c) == ShiftFrom(a, c) + ShiftFrom(b, c)
  {
    assert forall k :: 0 <= k < |a| ==> (a + b)[k] == a[k];
    assert forall k :: |a| <= k < |a| + |b| ==> (a + b)[k] == b[k - |a|];
  }

  lemma {:induction false} ShiftFromIncreasing(s: seq<int>, c: int)
    requires Increasing(s)
    ensures Increasing(ShiftFrom(s, c))
  {
  }

  /** Elements entirely below the cut are left alone. */
  lemma {:induction false} ShiftFromBelowCut(s: seq<int>, c: int)
    requires forall x :: x in s ==> x < c
    ensures ShiftFrom(s, c) == s
  {
    assert forall k :: 0 <= k < |s| ==> s[k] in s;
  }

  /** Shifting does not change how many elements lie below the cut. */
  lemma {:induction false} BelowShiftFrom(s: seq<int>, c: int)
    ensures Below(ShiftFrom(s, c), c) == Below(s, c)
  {
    if s != [] {
      assert ShiftFrom(s, c)[1..] == ShiftFrom(s[1..], c);
      BelowShiftFrom(s[1..], c);
    }
  }

  /** Membership in a shifted sequence, element by element. */
  lemma {:induction false} ShiftFromMembers(s: seq<int>, c: int)
    ensures forall x :: x in s && x < c ==> x in ShiftFrom(s, c)
    ensures forall x :: x in s && x >= c ==> x + 1 in ShiftFrom(s, c)
    ensures forall y :: y in ShiftFrom(s, c) ==> (y < c && y in s) || (y > c && y - 1 in s)
  {
    var r := ShiftFrom(s, c);
    forall x | x in s ensures (x < c ==> x in r) && (x >= c ==> x + 1 in r) {
      var k :| 0 <= k < |s| && s[k] == x;
      assert r[k] == if x >= c then x + 1 else x;
    }
    forall y | y in r ensures (y < c && y in s) || (y > c && y - 1 in s) {
      var k :| 0 <= k < |r| && r[k] == y;
      assert s[k] in s;
    }
  }

  /** Adds `d` to every element. */
  function Offset(s: seq<int>, d: int): seq<int> {
    seq(|s|, k requires 0 <= k < |s| => s[k] + d)
  }

  lemma {:induction false} OffsetConcat(a: seq<int>, b: seq<int>, d: int)
    ensures Offset(a + b, d) == Offset(a, d) + Offset(b, d)
  {
    assert forall k :: 0 <= k < |a| ==> (a + b)[k] == a[k];
    assert forall k :: |a| <= k < |a| + |b| ==> (a + b)[k] == b[k - |a|];
  }

  /** When every element is at or above the cut, shifting moves all of them. */
  lemma {:induction false} ShiftFromAllAbove(s: seq<int>, c: int)
    requires AtLeast(s, c)
    ensures ShiftFrom(s, c) == Offset(s, 1)
  {
    assert forall k :: 0 <= k < |s| ==> s[k] in s;
  }

  /** `s` with `y` put in its place; `s` itself when `y` is already there. */
  function InsertSorted(s: seq<int>, y: int): seq<int> {
    if s == [] then [y]
    else if y < s[0] then [y] + s
    else if y == s[0] then s
    else [s[0]] + InsertSorted(s[1..], y)
  }

  /** Inserting below `x` into `L + [x] + R` only touches `L`. */
  lemma {:induction false} InsertSortedLeft(L: seq<int>, x: int, R: seq<int>, y: int)
    requires y < x
    ensures InsertSorted(L + [x] + R, y) == InsertSorted(L, y) + [x] + R
  {
    if L == [] {
      assert L + [x] + R == [x] + R;
    } else {
      assert (L + [x] + R)[0] == L[0];
      assert (L + [x] + R)[1..] == L[1..] + [x] + R;
      InsertSortedLeft(L[1..], x, R, y);
      if y < L[0] {
        assert [y] + (L + [x] + R) == ([y] + L) + [x] + R;
      } else if y > L[0] {
        assert [L[0]] + (InsertSorted(L[1..], y) + [x] + R) == ([L[0]] + InsertSorted(L[1..], y)) + [x] + R;
      }
    }
  }

  /** Inserting at or above `x` into `L + [x] + R`, where `L` lies below `x`,
      only touches `R`. */
  lemma {:induction false} InsertSortedRight(L: seq<int>, x: int, R: seq<int>, y: int)
    requires y >= x && Under(L, x)
    ensures InsertSorted(L + [x] + R, y) == L + [x] + (if y == x then R else InsertSorted(R, y))
  {
    var S := L + [x] + R;
    if L == [] {
      assert S == [x] + R;
      assert S[1..] == R;
    } else {
      var rest := if y == x then R else InsertSorted(R, y);
      assert L[0] in L;
      assert S[0] == L[0] && S[1..] == L[1..] + [x] + R;
      UnderTail(L, x);
      InsertSortedRight(L[1..], x, R, y);
      InsertSortedStep(S, y);
      ConsRegroup(L, x, rest);
    }
  }

  lemma {:induction false} UnderTail(L: seq<int>, x: int)
    requires L != [] && Under(L, x)
    ensures Under(L[1..], x)
  {
    forall z | z in L[1..] ensures z < x {
      assert z in L;
    }
  }

  lemma {:induction false} InsertSortedStep(s: seq<int>, y: int)
    requires s != [] && y > s[0]
    ensures InsertSorted(s, y) == [s[0]] + InsertSorted(s[1..], y)
  {
  }

  lemma {:induction false} ConsRegroup(L: seq<int>, x: int, rest: seq<int>)
    requires L != []
    ensures [L[0]] + (L[1..] + [x] + rest) == L + [x] + rest
  {
    assert L == [L[0]] + L[1..];
  }

  /** Insertion gains exactly `y`. */
  lemma {:induction false} InsertSortedMembers(s: seq<int>, y: int)
    ensures forall z :: z in InsertSorted(s, y) <==> z in s || z == y
  {
    if s != [] && y > s[0] {
      InsertSortedMembers(s[1..], y);
      assert s == [s[0]] + s[1..];
    }
  }

  /** Insertion of an absent element grows the sequence by one. */
  lemma {:induction false} InsertSortedLength(s: seq<int>, y: int)
    requires y !in s
    ensures |InsertSorted(s, y)| == |s| + 1
  {
    if s != [] && y > s[0] {
      assert forall z :: z in s[1..] ==> z in s;
      InsertSortedLength(s[1..], y);
    }
  }

  /** Insertion of a present element into an increasing sequence changes
      nothing. */
  lemma {:induction false} InsertSortedPresent(s: seq<int>, y: int)
    requires Increasing(s) && y in s
    ensures InsertSorted(s, y) == s
  {
    TailMembers(s);
    if y != s[0] {
      InsertSortedPresent(s[1..], y);
      assert s == [s[0]] + s[1..];
    }
  }

  /** Insertion keeps a sequence increasing. */
  lemma {:induction false} InsertSortedIncreasing(s: seq<int>, y: int)
    requires Increasing(s)
    ensures Increasing(InsertSorted(s, y))
  {
    if s != [] {
      TailMembers(s);
      if y > s[0] {
        InsertSortedIncreasing(s[1..], y);
        InsertSortedMembers(s[1..], y);
        IncreasingCons(s[0], InsertSorted(s[1..], y));
      } else if y < s[0] {
        IncreasingCons(y, s);
      }
    }
  }

  /** Putting a smaller element in front keeps a sequence increasing. */
  lemma {:induction false} IncreasingCons(x: int, s: seq<int>)
    requires Increasing(s) && Above(s, x)
    ensures Increasing([x] + s)
  {
    var t := [x] + s;
    forall j, k | 0 <= j < k < |t| ensures t[j] < t[k] {
      assert t[k] == s[k - 1];
      if j > 0 {
        assert t[j] == s[j - 1];
      } else {
        assert s[k - 1] in s;
      }
    }
  }

  /** Regrouping the in-order sequence of a rotated node. */
  lemma {:induction false} Regroup(a: seq<int>, x: int, b: seq<int>, y: int, c: seq<int>)
    ensures a + [x] + (b + [y] + c) == (a + [x] + b) + [y] + c
  {
  }

  /** Shifting `L + [x] + R` from a cut at or below `x`, where `R` lies above
      `x`: the node and everything after it move up by one. */
  lemma {:induction false} ShiftFromLeftOf(L: seq<int>, x: int, R: seq<int>, c: int)
    requires c <= x && Above(R, x)
    ensures ShiftFrom(L + [x] + R, c) == ShiftFrom(L, c) + [x + 1] + Offset(R, 1)
  {
    ShiftFromConcat(L + [x], R, c);
    ShiftFromConcat(L, [x], c);
    assert AtLeast(R, c);
    ShiftFromAllAbove(R, c);
  }

  /** Shifting `L + [x] + R` from a cut above `x`, where `L` lies below `x`:
      only `R` changes. */
  lemma {:induction false} ShiftFromRightOf(L: seq<int>, x: int, R: seq<int>, c: int)
    requires x < c && Under(L, x)
    ensures ShiftFrom(L + [x] + R, c) == L + [x] + ShiftFrom(R, c)
  {
    ShiftFromConcat(L + [x], R, c);
    ShiftFromConcat(L, [x], c);
    ShiftFromBelowCut(L, c);
  }

  lemma {:induction false} ShiftLeftGlue(A: seq<int>, S: seq<int>, L: seq<int>, L': seq<int>, x: int, R: seq<int>, c: int)
    requires S == L + [x] + R
    requires A == L' + [x + 1] + Offset(R, 1) && L' == ShiftFrom(L, c)
    requires c <= x && Above(R, x)
    ensures A == ShiftFrom(S, c)
  {
    ShiftFromLeftOf(L, x, R, c);
  }

  lemma {:induction false} ShiftRightGlue(A: seq<int>, S: seq<int>, L: seq<int>, x: int, R: seq<int>, R': seq<int>, c: int, d: int)
    requires S == L + [x] + R
    requires A == L + [x] + R' && R' == ShiftFrom(R, d) && d == c
    requires x < c && Under(L, x)
    ensures A == ShiftFrom(S, c)
  {
    ShiftFromRightOf(L, x, R, c);
  }

  lemma {:induction false} InsertLeftGlue(A: seq<int>, S: seq<int>, L: seq<int>, L': seq<int>, x: int, R: seq<int>, y: int)
    requires S == L + [x] + R
    requires A == L' + [x] + R && L' == InsertSorted(L, y)
    requires y < x
    ensures A == InsertSorted(S, y)
  {
    InsertSortedLeft(L, x, R, y);
  }

  lemma {:induction false} InsertRightGlue(A: seq<int>, S: seq<int>, L: seq<int>, x: int, R: seq<int>, R': seq<int>, y: int, z: int)
    requires S == L + [x] + R
    requires A == L + [x] + R' && R' == InsertSorted(R, z) && z == y
    requires x < y && Under(L, x)
    ensures A == InsertSorted(S, y)
  {
    InsertSortedRight(L, x, R, y);
  }

  /** Shifting never moves an element down. */
  lemma {:induction false} ShiftFromAtLeast(s: seq<int>, c: int, lo: int)
    requires AtLeast(s, lo)
    ensures AtLeast(ShiftFrom(s, c), lo)
  {
    forall y | y in ShiftFrom(s, c) ensures y >= lo {
      var k :| 0 <= k < |ShiftFrom(s, c)| && ShiftFrom(s, c)[k] == y;
      assert s[k] in s;
    }
  }

  /** A non-member below a node's value counts only the left part. */
  lemma {:induction false} BelowLeftOf(S: seq<int>, L: seq<int>, x: int, R: seq<int>, y: int)
    requires S == L + [x] + R
    requires Above(R, x) && y < x && y !in L
    ensures y !in S && Below(S, y) == Below(L, y)
  {
    BelowConcat(L + [x], R, y);
    BelowConcat(L, [x], y);
    BelowNoneLess(R, y);
  }

  /** A non-member above a node's value counts all of the left part, the
      value, and what lies below it on the right. */
  lemma {:induction false} BelowRightOf(S: seq<int>, L: seq<int>, x: int, R: seq<int>, y: int)
    requires S == L + [x] + R
    requires Under(L, x) && y > x && y !in R
    ensures y !in S && Below(S, y) == |L| + 1 + Below(R, y)
  {
    BelowConcat(L + [x], R, y);
    BelowConcat(L, [x], y);
    BelowAllLess(L, y);
  }
}
