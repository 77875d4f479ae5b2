/** std::set_difference and std::set_intersection over lists sorted by the entry
    order: the merges used by main_functor and find_indexes_handler. */
module SetOps {
  import opened Entries
  import opened Ordered

  /** std::set_difference(a, b): the entries of a not matched by an entry of b. */
  function SetDifference(a: seq<Entry>, b: seq<Entry>): (r: seq<Entry>)
    ensures forall x :: x in r ==> x in a
    decreases |a| + |b|
  {
    if a == [] then []
    else if b == [] then a
    else if Less(a[0], b[0]) then [a[0]] + SetDifference(a[1..], b)
    else if Less(b[0], a[0]) then SetDifference(a, b[1..])
    else SetDifference(a[1..], b[1..])
  }

  /** std::set_intersection(a, b): the entries of a matched by an entry of b
      (copied from a, as the algorithm does). */
  function SetIntersection(a: seq<Entry>, b: seq<Entry>): (r: seq<Entry>)
    ensures forall x :: x in r ==> x in a
    decreases |a| + |b|
  {
    if a == [] || b == [] then []
    else if Less(a[0], b[0]) then SetIntersection(a[1..], b)
    else if Less(b[0], a[0]) then SetIntersection(a, b[1..])
    else [a[0]] + SetIntersection(a[1..], b[1..])
  }

  /** An entry below the head of a sorted list does not occur in it. */
  lemma BelowHeadAbsent(b: seq<Entry>, x: Entry)
    requires SortedLe(b) && b != [] && Less(x, b[0])
    ensures x !in b
    ensures multiset(b)[x] == 0
  {
    LessIrreflexive(b[0]);
    forall k | 0 <= k < |b|
      ensures b[k] != x
    {
    }
  }

  lemma SortedLeTail(s: seq<Entry>)
    requires SortedLe(s) && s != []
    ensures SortedLe(s[1..])
  {
  }

  /** A list whose head is not above any element of a sorted list, followed by it, is sorted. */
  lemma SortedLeCons(x: Entry, s: seq<Entry>)
    requires SortedLe(s)
    requires forall y :: y in s ==> !Less(y, x)
    ensures SortedLe([x] + s)
  {
    var t := [x] + s;
    forall p, q | 0 <= p < q < |t|
      ensures !Less(t[q], t[p])
    {
      if p > 0 {
        assert t[p] == s[p - 1] && t[q] == s[q - 1];
      } else {
        assert t[q] == s[q - 1] && s[q - 1] in s;
      }
    }
  }

  lemma StrictCons(x: Entry, s: seq<Entry>)
    requires Sorted(s)
    requires forall y :: y in s ==> Less(x, y)
    ensures Sorted([x] + s)
  {
    var t := [x] + s;
    forall p, q | 0 <= p < q < |t|
      ensures Less(t[p], t[q])
    {
      if p > 0 {
        assert t[p] == s[p - 1] && t[q] == s[q - 1];
      } else {
        assert t[q] == s[q - 1] && s[q - 1] in s;
      }
    }
  }

  /** Elements of a sorted list all sit at or above its head. */
  lemma AllAboveHead(s: seq<Entry>)
    requires SortedLe(s) && s != []
    ensures forall y :: y in s[1..] ==> !Less(y, s[0])
    ensures Sorted(s) ==> forall y :: y in s[1..] ==> Less(s[0], y)
  {
  }

  // ---------------------------------------------------------------------------
  // Multiset identities behind the merge steps

  lemma AddBeforeSubtract<T>(x: T, A: multiset<T>, B: multiset<T>)
    requires B[x] == 0
    ensures multiset{x} + (A - B) == (multiset{x} + A) - B
  {
    assert forall z :: (multiset{x} + (A - B))[z] == ((multiset{x} + A) - B)[z];
  }

  lemma SubtractAbsent<T>(x: T, A: multiset<T>, B: multiset<T>)
    requires A[x] == 0
    ensures A - (multiset{x} + B) == A - B
  {
    assert forall z :: (A - (multiset{x} + B))[z] == (A - B)[z];
  }

  lemma SubtractCommonHead<T>(x: T, A: multiset<T>, B: multiset<T>)
    ensures (multiset{x} + A) - (multiset{x} + B) == A - B
  {
    assert forall z :: ((multiset{x} + A) - (multiset{x} + B))[z] == (A - B)[z];
  }

  lemma IntersectAbsentLeft<T>(x: T, A: multiset<T>, B: multiset<T>)
    requires B[x] == 0
    ensures (multiset{x} + A) * B == A * B
  {
    assert forall z :: ((multiset{x} + A) * B)[z] == (A * B)[z];
  }

  lemma IntersectAbsentRight<T>(x: T, A: multiset<T>, B: multiset<T>)
    requires A[x] == 0
    ensures A * (multiset{x} + B) == A * B
  {
    assert forall z :: (A * (multiset{x} + B))[z] == (A * B)[z];
  }

  lemma IntersectCommonHead<T>(x: T, A: multiset<T>, B: multiset<T>)
    ensures (multiset{x} + A) * (multiset{x} + B) == multiset{x} + A * B
  {
    assert forall z :: ((multiset{x} + A) * (multiset{x} + B))[z] == (multiset{x} + A * B)[z];
  }

  /** With I = D - R and M = R - D: I and M are disjoint, D = (R + I) - M, R = (D + M) - I. */
  lemma DifferenceAlgebra<T>(D: multiset<T>, R: multiset<T>)
    ensures (D - R) * (R - D) == multiset{}
    ensures D == (R + (D - R)) - (R - D)
    ensures R == (D + (R - D)) - (D - R)
  {
    assert forall z :: ((D - R) * (R - D))[z] == 0;
    assert forall z :: ((R + (D - R)) - (R - D))[z] == D[z];
    assert forall z :: ((D + (R - D)) - (D - R))[z] == R[z];
  }

  // ---------------------------------------------------------------------------
  // set_difference

  /** On sorted inputs set_difference subtracts multiplicities: an entry that occurs
      m times in a and n times in b occurs max(m - n, 0) times in the result. */
  lemma {:induction false} SetDifferenceCounts(a: seq<Entry>, b: seq<Entry>)
    requires SortedLe(a) && SortedLe(b)
    ensures multiset(SetDifference(a, b)) == multiset(a) - multiset(b)
    decreases |a| + |b|
  {
    if a != [] && b != [] {
      assert a == [a[0]] + a[1..];
      assert b == [b[0]] + b[1..];
      SortedLeTail(a);
      SortedLeTail(b);
      if Less(a[0], b[0]) {
        SetDifferenceCounts(a[1..], b);
        BelowHeadAbsent(b, a[0]);
        AddBeforeSubtract(a[0], multiset(a[1..]), multiset(b));
      } else if Less(b[0], a[0]) {
        SetDifferenceCounts(a, b[1..]);
        BelowHeadAbsent(a, b[0]);
        SubtractAbsent(b[0], multiset(a), multiset(b[1..]));
      } else {
        SetDifferenceCounts(a[1..], b[1..]);
        LessTotal(a[0], b[0]);
        SubtractCommonHead(a[0], multiset(a[1..]), multiset(b[1..]));
      }
    }
  }

  /** set_difference of a sorted list is sorted, strictly when the list is. */
  lemma {:induction false} SetDifferenceSorted(a: seq<Entry>, b: seq<Entry>)
    requires SortedLe(a)
    ensures SortedLe(SetDifference(a, b))
    ensures Sorted(a) ==> Sorted(SetDifference(a, b))
    decreases |a| + |b|
  {
    if a != [] && b != [] {
      SortedLeTail(a);
      if Less(a[0], b[0]) {
        SetDifferenceSorted(a[1..], b);
        AllAboveHead(a);
        SortedLeCons(a[0], SetDifference(a[1..], b));
        if Sorted(a) {
          StrictCons(a[0], SetDifference(a[1..], b));
        }
      } else if Less(b[0], a[0]) {
        SetDifferenceSorted(a, b[1..]);
      } else {
        SetDifferenceSorted(a[1..], b[1..]);
      }
    }
  }

  /** The diff step's two differences, I = D - R and M = R - D, never share an entry,
      and each side is rebuilt from the other: D = (R + I) - M and R = (D + M) - I. */
  lemma DiffRebuilds(desired: seq<Entry>, remote: seq<Entry>)
    requires SortedLe(desired) && SortedLe(remote)
    ensures var ins, rem := SetDifference(desired, remote), SetDifference(remote, desired);
      multiset(ins) * multiset(rem) == multiset{}
      && multiset(desired) == (multiset(remote) + multiset(ins)) - multiset(rem)
      && multiset(remote) == (multiset(desired) + multiset(rem)) - multiset(ins)
  {
    SetDifferenceCounts(desired, remote);
    SetDifferenceCounts(remote, desired);
    DifferenceAlgebra(multiset(desired), multiset(remote));
  }

  // ---------------------------------------------------------------------------
  // set_intersection

  /** On sorted inputs set_intersection keeps min(m, n) copies of an entry that
      occurs m times in a and n times in b. */
  lemma {:induction false} SetIntersectionCounts(a: seq<Entry>, b: seq<Entry>)
    requires SortedLe(a) && SortedLe(b)
    ensures multiset(SetIntersection(a, b)) == multiset(a) * multiset(b)
    decreases |a| + |b|
  {
    if a != [] && b != [] {
      assert a == [a[0]] + a[1..];
      assert b == [b[0]] + b[1..];
      SortedLeTail(a);
      SortedLeTail(b);
      if Less(a[0], b[0]) {
        SetIntersectionCounts(a[1..], b);
        BelowHeadAbsent(b, a[0]);
        IntersectAbsentLeft(a[0], multiset(a[1..]), multiset(b));
      } else if Less(b[0], a[0]) {
        SetIntersectionCounts(a, b[1..]);
        BelowHeadAbsent(a, b[0]);
        IntersectAbsentRight(b[0], multiset(a), multiset(b[1..]));
      } else {
        SetIntersectionCounts(a[1..], b[1..]);
        LessTotal(a[0], b[0]);
        IntersectCommonHead(a[0], multiset(a[1..]), multiset(b[1..]));
      }
    }
  }

  /** set_intersection of a sorted list is sorted, strictly when the list is. */
  lemma {:induction false} SetIntersectionSorted(a: seq<Entry>, b: seq<Entry>)
    requires SortedLe(a)
    ensures SortedLe(SetIntersection(a, b))
    ensures Sorted(a) ==> Sorted(SetIntersection(a, b))
    decreases |a| + |b|
  {
    if a != [] && b != [] {
      SortedLeTail(a);
      if Less(a[0], b[0]) {
        SetIntersectionSorted(a[1..], b);
      } else if Less(b[0], a[0]) {
        SetIntersectionSorted(a, b[1..]);
      } else {
        SetIntersectionSorted(a[1..], b[1..]);
        AllAboveHead(a);
        SortedLeCons(a[0], SetIntersection(a[1..], b[1..]));
        if Sorted(a) {
          StrictCons(a[0], SetIntersection(a[1..], b[1..]));
        }
      }
    }
  }

  /** An entry occurs at most once in a strictly sorted list. */
  lemma {:induction false} SortedCountAtMostOne(s: seq<Entry>, x: Entry)
    requires Sorted(s)
    ensures multiset(s)[x] <= 1
  {
    if s != [] {
      assert s == [s[0]] + s[1..];
      SortedCountAtMostOne(s[1..], x);
      LessIrreflexive(s[0]);
      assert s[0] !in s[1..];
    }
  }

  /** For strictly sorted lists, set_intersection is set intersection. */
  lemma SetIntersectionMembership(a: seq<Entry>, b: seq<Entry>, x: Entry)
    requires Sorted(a) && Sorted(b)
    ensures x in SetIntersection(a, b) <==> x in a && x in b
  {
    SortedIsSortedLe(a);
    SortedIsSortedLe(b);
    SetIntersectionCounts(a, b);
    assert x in a <==> multiset(a)[x] > 0;
    assert x in b <==> multiset(b)[x] > 0;
    assert x in SetIntersection(a, b) <==> multiset(SetIntersection(a, b))[x] > 0;
  }

  /** For strictly sorted lists, set_difference is set difference. */
  lemma SetDifferenceMembership(a: seq<Entry>, b: seq<Entry>, x: Entry)
    requires Sorted(a) && Sorted(b)
    ensures x in SetDifference(a, b) <==> x in a && x !in b
  {
    SortedIsSortedLe(a);
    SortedIsSortedLe(b);
    SetDifferenceCounts(a, b);
    SortedCountAtMostOne(a, x);
    assert x in b <==> multiset(b)[x] > 0;
    assert x in a <==> multiset(a)[x] > 0;
    assert x in SetDifference(a, b) <==> multiset(SetDifference(a, b))[x] > 0;
  }

  /** set_intersection with the output range starting at a itself, as the find loop
      calls it: the result overwrites a prefix of a[..n] and its new length is returned. */
  method IntersectInPlace(a: array<Entry>, n: nat, b: seq<Entry>) returns (k: nat)
    requires n <= a.Length
    modifies a
    ensures k <= n
    ensures a[..k] == SetIntersection(old(a[..n]), b)
  {
    ghost var A := a[..n];
    var i, j := 0, 0;
    k := 0;
    while i < n && j < |b|
      invariant 0 <= k <= i <= n && j <= |b|
      invariant a[i..n] == A[i..]
      invariant a[..k] + SetIntersection(A[i..], b[j..]) == SetIntersection(A, b)
      decreases n - i + |b| - j
    {
      assert A[i..] == [a[i]] + A[i + 1..];
      assert b[j..] == [b[j]] + b[j + 1..];
      if Less(a[i], b[j]) {
        i := i + 1;
      } else if Less(b[j], a[i]) {
        j := j + 1;
      } else {
        ghost var kept := a[..k];
        a[k] := a[i];
        assert a[..k + 1] == kept + [A[i]];
        k, i, j := k + 1, i + 1, j + 1;
      }
    }
    assert SetIntersection(A[i..], b[j..]) == [];
  }
}
