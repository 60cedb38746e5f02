/** Sequence helpers shared by the entity records, the store and the search
    module: linear search, order-preserving filtering, the set-like list
    operations of a regular user, and substring search. */
module Seqs {
  import opened Wrappers

  /** No value occurs twice. */
  ghost predicate NoDuplicates<T>(s: seq<T>) {
    forall i, j :: 0 <= i < j < |s| ==> s[i] != s[j]
  }

  /* ---------------------------------------------------------------- search */

  /** Index of the first element satisfying `p`, scanning from the front, as
      `std::find_if` and the range-for loops with an early `return` do. */
  function FirstIndex<T>(s: seq<T>, p: T -> bool): (r: Option<nat>)
    ensures r.Some? ==> r.value < |s| && p(s[r.value])
    ensures r.Some? ==> forall j :: 0 <= j < r.value ==> !p(s[j])
    ensures r.None? <==> forall j :: 0 <= j < |s| ==> !p(s[j])
  {
    if |s| == 0 then None
    else if p(s[0]) then Some(0)
    else match FirstIndex(s[1..], p)
      case None => None
      case Some(i) => Some(i + 1)
  }

  /** Position of the first occurrence of `x` (`std::find`). */
  function IndexOf<T(==)>(s: seq<T>, x: T): (i: nat)
    requires x in s
    ensures i < |s| && s[i] == x
    ensures forall j :: 0 <= j < i ==> s[j] != x
  {
    if s[0] == x then 0 else 1 + IndexOf(s[1..], x)
  }

  /* ------------------------------------------------------------- filtering */

  /** The elements of `s` satisfying `p`, in their original order: the
      `push_back` loops of the queries. */
  function Filter<T>(s: seq<T>, p: T -> bool): (r: seq<T>)
    ensures |r| <= |s|
    ensures forall k :: 0 <= k < |r| ==> p(r[k])
  {
    if |s| == 0 then []
    else (if p(s[0]) then [s[0]] else []) + Filter(s[1..], p)
  }

  /** Every entry of `idx` is a position of `s`, and `idx` is strictly
      increasing. */
  ghost predicate IncreasingPositions<T>(idx: seq<int>, s: seq<T>) {
    && (forall k :: 0 <= k < |idx| ==> 0 <= idx[k] < |s|)
    && (forall k, l :: 0 <= k < l < |idx| ==> idx[k] < idx[l])
  }

  /** `r` is `s` read at the positions `idx`, all of which qualify. */
  ghost predicate ReadsAt<T>(r: seq<T>, s: seq<T>, idx: seq<int>, p: T -> bool) {
    && |idx| == |r|
    && forall k :: 0 <= k < |idx| ==> 0 <= idx[k] < |s| && r[k] == s[idx[k]] && p(s[idx[k]])
  }

  /** Every qualifying position of `s` is listed in `idx`. */
  ghost predicate CoversQualifying<T>(s: seq<T>, idx: seq<int>, p: T -> bool) {
    forall i :: 0 <= i < |s| && p(s[i]) ==> i in idx
  }

  /** `idx` lists, in strictly increasing order, exactly the positions of `s`
      whose element satisfies `p`, and `r` is `s` read at those positions. */
  ghost predicate SelectsIndices<T>(r: seq<T>, s: seq<T>, idx: seq<int>, p: T -> bool) {
    ReadsAt(r, s, idx, p) && IncreasingPositions(idx, s) && CoversQualifying(s, idx, p)
  }

  /** `r` is the order-preserving subsequence of the elements of `s` that
      satisfy `p`. */
  ghost predicate IsOrderedSelection<T>(r: seq<T>, s: seq<T>, p: T -> bool) {
    exists idx :: SelectsIndices(r, s, idx, p)
  }

  /** Moves every index by `d`. */
  function Shift(idx: seq<int>, d: int): (r: seq<int>)
    ensures |r| == |idx|
    ensures forall k :: 0 <= k < |idx| ==> r[k] == idx[k] + d
  {
    seq(|idx|, k requires 0 <= k < |idx| => idx[k] + d)
  }

  /** Positions in the tail, moved up by one and possibly preceded by the
      head's position, are positions of the whole sequence. */
  lemma ConsPositions<T>(s: seq<T>, head: bool, idx: seq<int>)
    requires |s| > 0 && IncreasingPositions(idx, s[1..])
    ensures IncreasingPositions((if head then [0] else []) + Shift(idx, 1), s)
  {
    var n, t := if head then 1 else 0, Shift(idx, 1);
    var all := (if head then [0] else []) + t;
    forall k | n <= k < |all|
      ensures all[k] == idx[k - n] + 1
    {
    }
  }

  /** The positions `Filter` keeps. */
  ghost function FilterPositions<T>(s: seq<T>, p: T -> bool): (idx: seq<int>)
    ensures IncreasingPositions(idx, s)
  {
    if |s| == 0 then []
    else
      ConsPositions(s, p(s[0]), FilterPositions(s[1..], p));
      (if p(s[0]) then [0] else []) + Shift(FilterPositions(s[1..], p), 1)
  }

  /** Reading the tail at `idx` and the whole at the moved positions agree,
      with the head in front when it qualifies. */
  lemma ConsReads<T>(s: seq<T>, p: T -> bool, r: seq<T>, idx: seq<int>)
    requires |s| > 0 && ReadsAt(r, s[1..], idx, p)
    ensures ReadsAt((if p(s[0]) then [s[0]] else []) + r, s,
                    (if p(s[0]) then [0] else []) + Shift(idx, 1), p)
  {
    var n := if p(s[0]) then 1 else 0;
    var r2, idx2 := (if p(s[0]) then [s[0]] else []) + r, (if p(s[0]) then [0] else []) + Shift(idx, 1);
    forall k | n <= k < |idx2|
      ensures 0 <= idx2[k] < |s| && r2[k] == s[idx2[k]] && p(s[idx2[k]])
    {
      assert idx2[k] == idx[k - n] + 1;
      assert r2[k] == r[k - n];
    }
  }

  lemma {:induction false} FilterPositionsPointwise<T>(s: seq<T>, p: T -> bool)
    ensures ReadsAt(Filter(s, p), s, FilterPositions(s, p), p)
  {
    if |s| > 0 {
      FilterPositionsPointwise(s[1..], p);
      ConsReads(s, p, Filter(s[1..], p), FilterPositions(s[1..], p));
    }
  }

  lemma {:induction false} FilterPositionsCover<T>(s: seq<T>, p: T -> bool)
    ensures CoversQualifying(s, FilterPositions(s, p), p)
  {
    if |s| > 0 {
      FilterPositionsCover(s[1..], p);
      var idx' := FilterPositions(s[1..], p);
      var n := if p(s[0]) then 1 else 0;
      var idx := FilterPositions(s, p);
      forall i | 0 <= i < |s| && p(s[i])
        ensures i in idx
      {
        if i == 0 {
          assert idx[0] == 0;
        } else {
          assert s[1..][i - 1] == s[i];
          var k :| 0 <= k < |idx'| && idx'[k] == i - 1;
          assert idx[k + n] == i;
        }
      }
    }
  }

  lemma FilterIsOrderedSelection<T>(s: seq<T>, p: T -> bool)
    ensures IsOrderedSelection(Filter(s, p), s, p)
  {
    FilterPositionsPointwise(s, p);
    FilterPositionsCover(s, p);
    assert SelectsIndices(Filter(s, p), s, FilterPositions(s, p), p);
  }

  /** Positions that avoid the head and cover every qualifying position after
      it select from the tail, once moved down by one. */
  lemma SelectionOfTail<T>(r: seq<T>, s: seq<T>, idx: seq<int>, p: T -> bool)
    requires |s| > 0 && ReadsAt(r, s, idx, p) && IncreasingPositions(idx, s)
    requires forall k :: 0 <= k < |idx| ==> idx[k] > 0
    requires forall i :: 1 <= i < |s| && p(s[i]) ==> i in idx
    ensures SelectsIndices(r, s[1..], Shift(idx, -1), p)
  {
    var idx', t := Shift(idx, -1), s[1..];
    forall k | 0 <= k < |idx'|
      ensures 0 <= idx'[k] < |t| && r[k] == t[idx'[k]] && p(t[idx'[k]])
    {
      assert t[idx'[k]] == s[idx[k]];
    }
    forall k, l | 0 <= k < l < |idx'|
      ensures idx'[k] < idx'[l]
    {
      assert idx[k] < idx[l];
    }
    forall i | 0 <= i < |t| && p(t[i])
      ensures i in idx'
    {
      assert s[i + 1] == t[i];
      var k :| 0 <= k < |idx| && idx[k] == i + 1;
      assert idx'[k] == i;
    }
  }

  /** A selection from a sequence whose head qualifies starts with the head. */
  lemma SelectionKeepsHead<T>(r: seq<T>, s: seq<T>, idx: seq<int>, p: T -> bool)
    requires |s| > 0 && p(s[0]) && SelectsIndices(r, s, idx, p)
    ensures |r| > 0 && r[0] == s[0]
    ensures SelectsIndices(r[1..], s[1..], Shift(idx[1..], -1), p)
  {
    var k0 :| 0 <= k0 < |idx| && idx[k0] == 0;
    assert forall k :: 0 < k < |idx| ==> 0 <= idx[0] < idx[k];
    assert k0 == 0;
    var tail := idx[1..];
    forall k | 0 <= k < |tail|
      ensures tail[k] > 0 && r[1..][k] == s[tail[k]] && p(s[tail[k]])
    {
      assert idx[0] < idx[k + 1];
    }
    forall i | 1 <= i < |s| && p(s[i])
      ensures i in tail
    {
      var k :| 0 <= k < |idx| && idx[k] == i;
      assert tail[k - 1] == i;
    }
    SelectionOfTail(r[1..], s, tail, p);
  }

  /** A selection from a sequence whose head does not qualify skips it. */
  lemma SelectionSkipsHead<T>(r: seq<T>, s: seq<T>, idx: seq<int>, p: T -> bool)
    requires |s| > 0 && !p(s[0]) && SelectsIndices(r, s, idx, p)
    ensures SelectsIndices(r, s[1..], Shift(idx, -1), p)
  {
    forall k | 0 <= k < |idx|
      ensures idx[k] > 0
    {
    }
    SelectionOfTail(r, s, idx, p);
  }

  /** The order-preserving selection is unique: it is what `Filter` computes. */
  lemma {:induction false} OrderedSelectionIsFilter<T>(r: seq<T>, s: seq<T>, idx: seq<int>, p: T -> bool)
    requires SelectsIndices(r, s, idx, p)
    ensures r == Filter(s, p)
    decreases |s|
  {
    if |s| == 0 {
      assert |idx| == 0;
    } else if p(s[0]) {
      SelectionKeepsHead(r, s, idx, p);
      OrderedSelectionIsFilter(r[1..], s[1..], Shift(idx[1..], -1), p);
      assert Filter(s, p) == [s[0]] + Filter(s[1..], p);
      assert r == [s[0]] + r[1..];
    } else {
      SelectionSkipsHead(r, s, idx, p);
      OrderedSelectionIsFilter(r, s[1..], Shift(idx, -1), p);
      assert Filter(s, p) == Filter(s[1..], p);
    }
  }

  /** Each value occurs in the filtered sequence exactly as often as in the
      input when it qualifies, and not at all otherwise. */
  lemma {:induction false} FilterMultiplicity<T>(s: seq<T>, p: T -> bool, x: T)
    ensures multiset(Filter(s, p))[x] == if p(x) then multiset(s)[x] else 0
  {
    if |s| > 0 {
      FilterMultiplicity(s[1..], p, x);
      assert s == [s[0]] + s[1..];
    }
  }

  /** A value is in the filtered sequence iff it is in the input and
      qualifies. */
  lemma FilterMembership<T>(s: seq<T>, p: T -> bool, x: T)
    ensures x in Filter(s, p) <==> x in s && p(x)
  {
    FilterMultiplicity(s, p, x);
    assert x in Filter(s, p) <==> x in multiset(Filter(s, p));
  }

  lemma FilterMultiplicityAll<T(!new)>(s: seq<T>, p: T -> bool)
    ensures forall x :: multiset(Filter(s, p))[x] == if p(x) then multiset(s)[x] else 0
  {
    forall x
      ensures multiset(Filter(s, p))[x] == if p(x) then multiset(s)[x] else 0
    {
      FilterMultiplicity(s, p, x);
    }
  }

  lemma FilterMembershipAll<T(!new)>(s: seq<T>, p: T -> bool)
    ensures forall x :: x in Filter(s, p) <==> x in s && p(x)
  {
    forall x
      ensures x in Filter(s, p) <==> x in s && p(x)
    {
      FilterMembership(s, p, x);
    }
  }

  /** Filtering by a stronger predicate after a weaker one is filtering by
      the stronger one alone. */
  lemma {:induction false} FilterOfFilter<T>(s: seq<T>, p: T -> bool, q: T -> bool)
    requires forall x :: p(x) ==> q(x)
    ensures Filter(Filter(s, q), p) == Filter(s, p)
    decreases |s|
  {
    if |s| > 0 {
      FilterOfFilter(s[1..], p, q);
      var t := Filter(s[1..], q);
      assert p(s[0]) ==> q(s[0]);
      if q(s[0]) {
        assert Filter(s, q) == [s[0]] + t;
        assert ([s[0]] + t)[1..] == t;
        assert Filter([s[0]] + t, p) == (if p(s[0]) then [s[0]] else []) + Filter(t, p);
      } else {
        assert Filter(s, q) == t;
      }
    }
  }

  /* ------------------------------------------------------ set-like lists */

  /** Appends `x` unless it is already present (the duplicate scan of
      `addToCart` and `addToFavorites`). */
  function AddIfAbsent<T(==,!new)>(s: seq<T>, x: T): (r: seq<T>)
    ensures x in r
    ensures forall y :: y in r <==> y in s || y == x
    ensures x in s ==> r == s
    ensures x !in s ==> r == s + [x]
    ensures NoDuplicates(s) ==> NoDuplicates(r)
  {
    if x in s then s else s + [x]
  }

  /** Erases the first occurrence of `x`, keeping the rest in order; no
      change when `x` is absent (`std::find` followed by `erase`). */
  function RemoveFirst<T(==)>(s: seq<T>, x: T): (r: seq<T>)
    ensures x !in s ==> r == s
    ensures |r| == if x in s then |s| - 1 else |s|
  {
    if |s| == 0 then []
    else if s[0] == x then s[1..]
    else [s[0]] + RemoveFirst(s[1..], x)
  }

  /** Slicing around position `j + 1` of `s` is slicing around `j` in its
      tail, with the head in front. */
  lemma ConsSlices<T>(s: seq<T>, j: nat)
    requires j + 1 < |s|
    ensures s[..j + 1] + s[j + 2..] == [s[0]] + (s[1..][..j] + s[1..][j + 1..])
  {
    assert s[..j + 1] == [s[0]] + s[1..][..j];
    assert s[j + 2..] == s[1..][j + 1..];
  }

  /** What is left is what stood before and after the first occurrence. */
  lemma {:induction false} RemoveFirstSlices<T>(s: seq<T>, x: T)
    requires x in s
    ensures RemoveFirst(s, x) == s[..IndexOf(s, x)] + s[IndexOf(s, x) + 1..]
  {
    if s[0] != x {
      var t := s[1..];
      assert x in t by {
        var i :| 0 <= i < |s| && s[i] == x;
        assert t[i - 1] == x;
      }
      var j := IndexOf(t, x);
      RemoveFirstSlices(t, x);
      assert IndexOf(s, x) == j + 1;
      assert RemoveFirst(s, x) == [s[0]] + RemoveFirst(t, x);
      ConsSlices(s, j);
    }
  }

  /** Exactly one copy of `x` goes, when there is one. */
  lemma {:induction false} RemoveFirstMultiset<T>(s: seq<T>, x: T)
    ensures multiset(RemoveFirst(s, x)) == multiset(s) - multiset{x}
  {
    if |s| > 0 {
      if s[0] == x {
        assert s == [x] + s[1..];
        assert RemoveFirst(s, x) == s[1..];
      } else {
        RemoveFirstMultiset(s[1..], x);
        assert s == [s[0]] + s[1..];
        assert RemoveFirst(s, x) == [s[0]] + RemoveFirst(s[1..], x);
      }
    }
  }

  /** Removing what was just added restores the list. */
  lemma RemoveUndoesAdd<T(!new)>(s: seq<T>, x: T)
    requires x !in s
    ensures RemoveFirst(AddIfAbsent(s, x), x) == s
  {
    var t := s + [x];
    RemoveFirstSlices(t, x);
    assert forall j :: 0 <= j < |s| ==> t[j] == s[j] && t[j] != x;
    assert IndexOf(t, x) == |s|;
    assert t[..|s|] == s;
  }

  /** In a duplicate-free list, removing `x` removes every `x` and keeps the
      list duplicate-free. */
  lemma RemoveFirstFromDistinct<T>(s: seq<T>, x: T)
    ensures NoDuplicates(s) ==> x !in RemoveFirst(s, x) && NoDuplicates(RemoveFirst(s, x))
  {
    var r := RemoveFirst(s, x);
    if NoDuplicates(s) && x in s {
      var i := IndexOf(s, x);
      RemoveFirstSlices(s, x);
      assert r == s[..i] + s[i + 1..];
      forall j | 0 <= j < |r|
        ensures r[j] != x && r[j] == s[if j < i then j else j + 1]
      {
        if j < i { assert s[..i][j] == s[j]; }
      }
      forall a, b | 0 <= a < b < |r|
        ensures r[a] != r[b]
      {
        assert r[a] == s[if a < i then a else a + 1];
        assert r[b] == s[if b < i then b else b + 1];
      }
    }
  }

  /* ------------------------------------------------------------ substring */

  /** `k` occurs in `s` starting at position `i`. */
  predicate OccursAt(s: string, k: string, i: nat) {
    i + |k| <= |s| && s[i..i + |k|] == k
  }

  /** `s` has `k` as a contiguous substring; the empty keyword is found in
      every string. */
  ghost predicate HasSubstring(s: string, k: string) {
    exists i: nat :: OccursAt(s, k, i)
  }

  /** `s.find(k) != npos`. */
  function Contains(s: string, k: string): (b: bool)
    ensures b <==> HasSubstring(s, k)
    decreases |s|
  {
    if |k| > |s| then false
    else if s[..|k|] == k then
      assert OccursAt(s, k, 0);
      true
    else
      var b := Contains(s[1..], k);
      assert b ==> HasSubstring(s, k) by {
        if b {
          var i: nat :| OccursAt(s[1..], k, i);
          assert s[i + 1..i + 1 + |k|] == s[1..][i..i + |k|];
          assert OccursAt(s, k, i + 1);
        }
      }
      assert HasSubstring(s, k) ==> b by {
        if HasSubstring(s, k) {
          var i: nat :| OccursAt(s, k, i);
          assert i != 0;
          assert s[1..][i - 1..i - 1 + |k|] == s[i..i + |k|];
          assert OccursAt(s[1..], k, i - 1);
        }
      }
      b
  }

  lemma EmptyKeywordAlwaysFound(s: string)
    ensures Contains(s, "")
  {
    assert OccursAt(s, "", 0);
  }
}
