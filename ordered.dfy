/** Sorted lists of entries: the position std::lower_bound finds, sorted insertion
    and erasure, and the sort session::update_indexes applies to the wanted list. */
module Ordered {
  import opened Entries

  /** The position std::lower_bound is specified to return: the number of leading
      entries that are Less than x. */
  function FirstNotLess(s: seq<Entry>, x: Entry): (i: nat)
    ensures i <= |s|
    ensures forall k :: 0 <= k < i ==> Less(s[k], x)
    ensures i < |s| ==> !Less(s[i], x)
  {
    if s == [] || !Less(s[0], x) then 0 else 1 + FirstNotLess(s[1..], x)
  }

  /** s with x inserted at its lower bound (vector::insert(lower_bound(...), 1, x)). */
  function InsertSorted(s: seq<Entry>, x: Entry): seq<Entry>
  {
    var i := FirstNotLess(s, x);
    s[..i] + [x] + s[i..]
  }

  /** s without its i-th element (vector::erase). */
  function EraseAt(s: seq<Entry>, i: nat): seq<Entry>
    requires i < |s|
  {
    s[..i] + s[i + 1..]
  }

  lemma SortedIsSortedLe(s: seq<Entry>)
    requires Sorted(s)
    ensures SortedLe(s)
  {
    forall i, j | 0 <= i < j < |s|
      ensures !Less(s[j], s[i])
    {
      LessAsymmetric(s[i], s[j]);
    }
  }

  /** In a sorted list, every entry from the lower bound on is not less than x. */
  lemma FirstNotLessPartitions(s: seq<Entry>, x: Entry)
    requires SortedLe(s)
    ensures forall k :: FirstNotLess(s, x) <= k < |s| ==> !Less(s[k], x)
  {
    var i := FirstNotLess(s, x);
    forall k | i < k < |s|
      ensures !Less(s[k], x)
    {
      LeTransitive(x, s[i], s[k]);
    }
  }

  /** A position preceded only by entries less than x, and holding an entry not less
      than x (or the end), is the lower bound. */
  lemma {:induction false} PartitionIsFirstNotLess(s: seq<Entry>, x: Entry, i: nat)
    requires i <= |s|
    requires forall k :: 0 <= k < i ==> Less(s[k], x)
    requires i < |s| ==> !Less(s[i], x)
    ensures i == FirstNotLess(s, x)
  {
    if i > 0 {
      PartitionIsFirstNotLess(s[1..], x, i - 1);
    }
  }

  /** In a sorted list that holds x, the lower bound of x is an occurrence of x;
      so x is absent exactly when the entry at the lower bound is missing or differs. */
  lemma FirstNotLessFinds(s: seq<Entry>, x: Entry)
    requires SortedLe(s)
    ensures x in s <==> (FirstNotLess(s, x) < |s| && s[FirstNotLess(s, x)] == x)
  {
    var i := FirstNotLess(s, x);
    if x in s {
      var j :| 0 <= j < |s| && s[j] == x;
      LessIrreflexive(x);
      assert i <= j;
      if i < j {
        assert !Less(s[j], s[i]);
      }
      LessTotal(s[i], x);
    }
  }

  /** Where each element of InsertSorted(s, x) comes from. */
  lemma InsertSortedAt(s: seq<Entry>, x: Entry)
    ensures var i, t := FirstNotLess(s, x), InsertSorted(s, x);
      |t| == |s| + 1 && t[i] == x
      && (forall k :: 0 <= k < i ==> t[k] == s[k])
      && (forall k :: i < k < |t| ==> t[k] == s[k - 1])
  {
  }

  /** Sorted insertion keeps the list sorted and adds exactly one copy of x. */
  lemma InsertSortedKeepsOrder(s: seq<Entry>, x: Entry)
    requires SortedLe(s)
    ensures SortedLe(InsertSorted(s, x))
    ensures multiset(InsertSorted(s, x)) == multiset(s) + multiset{x}
  {
    var i := FirstNotLess(s, x);
    var t := InsertSorted(s, x);
    FirstNotLessPartitions(s, x);
    InsertSortedAt(s, x);
    forall p, q | 0 <= p < q < |t|
      ensures !Less(t[q], t[p])
    {
      if q < i {
      } else if q == i {
        LessAsymmetric(s[p], x);
      } else if p < i {
      } else if p == i {
      } else {
      }
    }
    assert s == s[..i] + s[i..];
  }

  /** Inserting an absent entry into a strictly sorted list keeps it strictly sorted. */
  lemma InsertSortedKeepsStrictOrder(s: seq<Entry>, x: Entry)
    requires Sorted(s) && x !in s
    ensures Sorted(InsertSorted(s, x))
  {
    var i := FirstNotLess(s, x);
    var t := InsertSorted(s, x);
    SortedIsSortedLe(s);
    FirstNotLessPartitions(s, x);
    InsertSortedAt(s, x);
    forall p, q | 0 <= p < q < |t|
      ensures Less(t[p], t[q])
    {
      if q <= i {
      } else if p < i {
      } else if p == i {
        LessTotal(x, s[q - 1]);
      } else {
      }
    }
  }

  /** Erasing keeps a strictly sorted list strictly sorted and removes one copy. */
  lemma EraseAtKeepsOrder(s: seq<Entry>, i: nat)
    requires Sorted(s) && i < |s|
    ensures Sorted(EraseAt(s, i))
    ensures multiset(EraseAt(s, i)) == multiset(s) - multiset{s[i]}
    ensures s[i] !in EraseAt(s, i)
  {
    var t := EraseAt(s, i);
    assert s == s[..i] + [s[i]] + s[i + 1..];
    forall p, q | 0 <= p < q < |t|
      ensures Less(t[p], t[q])
    {
      if q < i {
        assert t[p] == s[p] && t[q] == s[q];
      } else if p < i {
        assert t[p] == s[p] && t[q] == s[q + 1];
      } else {
        assert t[p] == s[p + 1] && t[q] == s[q + 1];
      }
    }
    forall k | 0 <= k < |t|
      ensures t[k] != s[i]
    {
      if k < i {
        assert t[k] == s[k];
        LessIrreflexive(s[i]);
      } else {
        assert t[k] == s[k + 1];
        LessIrreflexive(s[i]);
      }
    }
  }

  /** std::sort of the wanted list (session::update_indexes): insertion sort under Less.
      Sorted permutations are unique (SortedPermutationUnique), so every correct sort
      algorithm yields this same list. */
  function SortEntries(s: seq<Entry>): (r: seq<Entry>)
    ensures SortedLe(r)
    ensures multiset(r) == multiset(s)
  {
    if s == [] then []
    else
      var rest := SortEntries(s[..|s| - 1]);
      InsertSortedKeepsOrder(rest, s[|s| - 1]);
      assert s == s[..|s| - 1] + [s[|s| - 1]];
      InsertSorted(rest, s[|s| - 1])
  }

  /** The head of a sorted list is not greater than any of its elements. */
  lemma HeadIsLeast(r: seq<Entry>, y: Entry)
    requires SortedLe(r) && y in r
    ensures !Less(y, r[0])
  {
    var j :| 0 <= j < |r| && r[j] == y;
    if j == 0 {
      LessIrreflexive(y);
    }
  }

  /** Two sorted lists with the same elements are the same list: the entry order
      leaves no ties between distinct entries. */
  lemma {:induction false} SortedPermutationUnique(r1: seq<Entry>, r2: seq<Entry>)
    requires SortedLe(r1) && SortedLe(r2)
    requires multiset(r1) == multiset(r2)
    ensures r1 == r2
  {
    if r1 == [] {
      assert |multiset(r2)| == 0;
    } else {
      assert r1 == [r1[0]] + r1[1..];
      assert r1[0] in multiset(r2);
      assert r2 == [r2[0]] + r2[1..];
      assert r2[0] in multiset(r1);
      HeadIsLeast(r2, r1[0]);
      HeadIsLeast(r1, r2[0]);
      LessTotal(r1[0], r2[0]);
      assert multiset(r1[1..]) == multiset(r1) - multiset{r1[0]};
      assert multiset(r2[1..]) == multiset(r2) - multiset{r2[0]};
      SortedPermutationUnique(r1[1..], r2[1..]);
    }
  }
}
