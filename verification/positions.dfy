/** Lists of catalogue positions: the order facts the index buckets and the filter
    results are stated with. */
module Positions {

  /** Strictly increasing, hence free of repeats. */
  predicate Ascending(s: seq<nat>)
  {
    forall i, j :: 0 <= i < j < |s| ==> s[i] < s[j]
  }

  predicate NonDecreasing(s: seq<nat>)
  {
    forall i, j :: 0 <= i < j < |s| ==> s[i] <= s[j]
  }

  /** The positions 0 .. n-1 in order: the seed of a filter without a meal type. */
  function AllPositions(n: nat): (r: seq<nat>)
    ensures |r| == n && forall i :: 0 <= i < n ==> r[i] == i
  {
    seq(n, i requires 0 <= i < n => i)
  }

  lemma {:induction false} AllPositionsSpec(n: nat)
    ensures Ascending(AllPositions(n))
    ensures forall x: nat :: x in AllPositions(n) <==> x < n
  {
    forall x: nat | x < n ensures x in AllPositions(n) {
      assert AllPositions(n)[x] == x;
    }
  }

  /** An ascending list whose elements all lie below x stays ascending when x is appended. */
  lemma {:induction false} AscendingAppend(s: seq<nat>, x: nat)
    requires Ascending(s)
    requires forall y :: y in s ==> y < x
    ensures Ascending(s + [x])
  {
    forall i, j | 0 <= i < j < |s| + 1 ensures (s + [x])[i] < (s + [x])[j] {
      assert s[i] in s;
      if j < |s| { assert s[j] in s; }
    }
  }

  /** `a` is `b` with some elements deleted and the rest kept in order. */
  predicate IsSubsequence<T(==)>(a: seq<T>, b: seq<T>)
    decreases |b|
  {
    if a == [] then true
    else if b == [] then false
    else if a[|a| - 1] == b[|b| - 1] then IsSubsequence(a[..|a| - 1], b[..|b| - 1])
    else IsSubsequence(a, b[..|b| - 1])
  }

  /** Dropping the head of an ascending list keeps it ascending and removes exactly
      the head, which is its least element. */
  lemma {:induction false} AscendingTail(a: seq<nat>)
    requires Ascending(a) && a != []
    ensures Ascending(a[1..])
    ensures forall x :: x in a ==> a[0] <= x
    ensures forall x :: x in a[1..] <==> x in a && x != a[0]
  {
    forall x | x in a ensures a[0] <= x {
      var i :| 0 <= i < |a| && a[i] == x;
    }
    forall x ensures x in a[1..] <==> x in a && x != a[0] {
      if x in a[1..] {
        var i :| 0 <= i < |a| - 1 && a[1..][i] == x;
        assert a[i + 1] == x;
      }
      if x in a && x != a[0] {
        var i :| 0 <= i < |a| && a[i] == x;
        assert a[1..][i - 1] == x;
      }
    }
  }

  /** Two ascending lists with the same members are the same list. */
  lemma {:induction false} AscendingUnique(a: seq<nat>, b: seq<nat>)
    requires Ascending(a) && Ascending(b)
    requires forall x :: x in a <==> x in b
    ensures a == b
    decreases |a|
  {
    if b != [] {
      assert b[0] in b;
    }
    if a != [] {
      assert a[0] in b;
      AscendingTail(a);
      AscendingTail(b);
      assert a[0] == b[0] by {
        assert b[0] in a;
      }
      AscendingUnique(a[1..], b[1..]);
      assert a == [a[0]] + a[1..] && b == [b[0]] + b[1..];
    }
  }

  /** Dropping the last element of a subsequence leaves a subsequence. */
  lemma {:induction false} SubsequenceDropLast<T>(a: seq<T>, b: seq<T>)
    requires a != [] && IsSubsequence(a, b)
    ensures IsSubsequence(a[..|a| - 1], b)
    decreases |b|, 0
  {
    var a' := a[..|a| - 1];
    if a' != [] {
      if a[|a| - 1] == b[|b| - 1] {
        SubsequenceExtend(a', b[..|b| - 1], b[|b| - 1]);
        assert b[..|b| - 1] + [b[|b| - 1]] == b;
      } else {
        SubsequenceDropLast(a, b[..|b| - 1]);
        SubsequenceExtend(a', b[..|b| - 1], b[|b| - 1]);
        assert b[..|b| - 1] + [b[|b| - 1]] == b;
      }
    }
  }

  /** Appending to the longer list keeps a subsequence a subsequence. */
  lemma {:induction false} SubsequenceExtend<T>(a: seq<T>, b: seq<T>, x: T)
    requires IsSubsequence(a, b)
    ensures IsSubsequence(a, b + [x])
    decreases |b|, 1
  {
    if a != [] {
      assert (b + [x])[..|b|] == b;
      if a[|a| - 1] == x {
        SubsequenceDropLast(a, b);
      }
    }
  }

  /** Appending the same element to both lists keeps a subsequence a subsequence. */
  lemma {:induction false} SubsequenceAppendBoth<T>(a: seq<T>, b: seq<T>, x: T)
    requires IsSubsequence(a, b)
    ensures IsSubsequence(a + [x], b + [x])
  {
    assert (a + [x])[..|a|] == a && (b + [x])[..|b|] == b;
  }

  /** A filtering pass over `b` that has looked at its first `i` elements and now
      keeps or drops the next one still holds a subsequence of what it has seen. */
  lemma {:induction false} SubsequenceFilterStep<T>(a: seq<T>, b: seq<T>, i: nat, keep: bool)
    requires i < |b| && IsSubsequence(a, b[..i])
    ensures IsSubsequence(if keep then a + [b[i]] else a, b[..i + 1])
  {
    assert b[..i + 1] == b[..i] + [b[i]];
    if keep {
      SubsequenceAppendBoth(a, b[..i], b[i]);
    } else {
      SubsequenceExtend(a, b[..i], b[i]);
    }
  }

  /** Every element of a subsequence is an element of the longer list. */
  lemma {:induction false} SubsequenceMembers<T>(a: seq<T>, b: seq<T>)
    requires IsSubsequence(a, b)
    ensures forall x :: x in a ==> x in b
    decreases |b|
  {
    if a != [] {
      var b' := b[..|b| - 1];
      assert b == b' + [b[|b| - 1]];
      if a[|a| - 1] == b[|b| - 1] {
        SubsequenceMembers(a[..|a| - 1], b');
        assert a == a[..|a| - 1] + [a[|a| - 1]];
      } else {
        SubsequenceMembers(a, b');
      }
    }
  }

  /** What is kept of an ascending list, in order, is ascending. */
  lemma {:induction false} SubsequenceAscending(a: seq<nat>, b: seq<nat>)
    requires IsSubsequence(a, b) && Ascending(b)
    ensures Ascending(a)
    decreases |b|
  {
    if a != [] {
      var b' := b[..|b| - 1];
      assert Ascending(b');
      if a[|a| - 1] == b[|b| - 1] {
        var a' := a[..|a| - 1];
        SubsequenceAscending(a', b');
        SubsequenceMembers(a', b');
        forall y | y in a' ensures y < b[|b| - 1] {
          var k :| 0 <= k < |b'| && b'[k] == y;
        }
        AscendingAppend(a', b[|b| - 1]);
        assert a == a' + [b[|b| - 1]];
      } else {
        SubsequenceAscending(a, b');
      }
    }
  }
}
