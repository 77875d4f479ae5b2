/** Index entries and the order every list of them is kept in
    (the comparator and equality of bindings/cpp/session_indexes.cpp). */
module Entries {

  /** One byte as memcmp sees it: an unsigned char. */
  newtype Byte = x: int | 0 <= x < 256

  /** Width of a dnet_raw_id. */
  const ID_SIZE: nat := 64

  /** A dnet_raw_id: exactly ID_SIZE bytes. */
  type RawId = s: seq<Byte> | |s| == ID_SIZE witness seq(ID_SIZE, _ => 0)

  /** An index_entry: a raw id (an index id in a forward record, an object id in
      a reverse record) and an uninterpreted payload. */
  datatype Entry = Entry(index: RawId, data: seq<Byte>)

  /** memcmp(a, b, n). Only the sign of memcmp's result is specified, so the model
      returns -1, 0 or 1: the sign of the first of the n leading bytes that differ. */
  function MemCmp(a: seq<Byte>, b: seq<Byte>, n: nat): (r: int)
    requires n <= |a| && n <= |b|
    ensures -1 <= r <= 1
  {
    if n == 0 then 0
    else if a[0] < b[0] then -1
    else if b[0] < a[0] then 1
    else MemCmp(a[1..], b[1..], n - 1)
  }

  /** Lexicographic order on the first n bytes, stated without recursion:
      some position k < n where the bytes first differ, and a is smaller there. */
  ghost predicate LexLess(a: seq<Byte>, b: seq<Byte>, n: nat)
    requires n <= |a| && n <= |b|
  {
    exists k :: 0 <= k < n && a[..k] == b[..k] && a[k] < b[k]
  }

  /** The cmp value of dnet_raw_id_less_than's (index_entry, index_entry) overload:
      the ids are compared with the arguments swapped, then the payload lengths,
      then the payload bytes. */
  function Compare(a: Entry, b: Entry): int
  {
    var byId := MemCmp(b.index, a.index, ID_SIZE);
    var bySize := if byId == 0 then |a.data| - |b.data| else byId;
    if bySize == 0 then MemCmp(a.data, b.data, |a.data|) else bySize
  }

  /** dnet_raw_id_less_than()(a, b) on two entries: the order used by std::sort,
      std::lower_bound, std::set_difference and std::set_intersection. */
  predicate Less(a: Entry, b: Entry)
  {
    Compare(a, b) < 0
  }

  /** operator==(index_entry, index_entry). */
  predicate Equal(a: Entry, b: Entry)
  {
    |a.data| == |b.data|
    && MemCmp(b.index, a.index, ID_SIZE) == 0
    && MemCmp(a.data, b.data, |a.data|) == 0
  }

  /** Strictly ascending under Less (so without duplicates). */
  predicate Sorted(s: seq<Entry>)
  {
    forall i, j {:trigger Less(s[i], s[j])} :: 0 <= i < j < |s| ==> Less(s[i], s[j])
  }

  /** Ascending under Less, duplicates allowed: what std::sort leaves. */
  predicate SortedLe(s: seq<Entry>)
  {
    forall i, j {:trigger Less(s[j], s[i])} :: 0 <= i < j < |s| ==> !Less(s[j], s[i])
  }

  // ---------------------------------------------------------------------------
  // memcmp

  lemma {:induction false} LexLessStep(a: seq<Byte>, b: seq<Byte>, n: nat)
    requires 0 < n <= |a| && n <= |b| && a[0] == b[0]
    ensures LexLess(a, b, n) <==> LexLess(a[1..], b[1..], n - 1)
  {
    if LexLess(a, b, n) {
      var k :| 0 <= k < n && a[..k] == b[..k] && a[k] < b[k];
      assert k != 0;
      assert a[1..][..k - 1] == a[1..k] == b[1..k] == b[1..][..k - 1];
      assert a[1..][k - 1] < b[1..][k - 1];
    }
    if LexLess(a[1..], b[1..], n - 1) {
      var k :| 0 <= k < n - 1 && a[1..][..k] == b[1..][..k] && a[1..][k] < b[1..][k];
      assert a[..k + 1] == [a[0]] + a[1..][..k];
      assert b[..k + 1] == [b[0]] + b[1..][..k];
      assert a[k + 1] < b[k + 1];
    }
  }

  /** memcmp's result is 0 exactly when the n leading bytes agree, and negative
      or positive exactly when a or b is lexicographically smaller. */
  lemma {:induction false} MemCmpMeaning(a: seq<Byte>, b: seq<Byte>, n: nat)
    requires n <= |a| && n <= |b|
    ensures MemCmp(a, b, n) == 0 <==> a[..n] == b[..n]
    ensures MemCmp(a, b, n) < 0 <==> LexLess(a, b, n)
    ensures MemCmp(a, b, n) > 0 <==> LexLess(b, a, n)
  {
    if n == 0 {
    } else if a[0] != b[0] {
      assert a[..0] == b[..0];
      assert a[..n][0] != b[..n][0];
      forall k | 0 < k < n
        ensures a[..k] != b[..k]
      {
        assert a[..k][0] != b[..k][0];
      }
    } else {
      MemCmpMeaning(a[1..], b[1..], n - 1);
      LexLessStep(a, b, n);
      LexLessStep(b, a, n);
      assert a[..n] == [a[0]] + a[1..][..n - 1];
      assert b[..n] == [b[0]] + b[1..][..n - 1];
    }
  }

  lemma {:induction false} MemCmpAntisymmetric(a: seq<Byte>, b: seq<Byte>, n: nat)
    requires n <= |a| && n <= |b|
    ensures MemCmp(b, a, n) == -MemCmp(a, b, n)
  {
    if n > 0 && a[0] == b[0] {
      MemCmpAntisymmetric(a[1..], b[1..], n - 1);
    }
  }

  lemma {:induction false} MemCmpTransitive(a: seq<Byte>, b: seq<Byte>, c: seq<Byte>, n: nat)
    requires n <= |a| && n <= |b| && n <= |c|
    requires MemCmp(a, b, n) < 0 && MemCmp(b, c, n) < 0
    ensures MemCmp(a, c, n) < 0
  {
    if a[0] == b[0] && b[0] == c[0] {
      MemCmpTransitive(a[1..], b[1..], c[1..], n - 1);
    }
  }

  /** Two byte strings that memcmp finds equal compare the same against a third. */
  lemma MemCmpZeroSubstitutes(a: seq<Byte>, b: seq<Byte>, c: seq<Byte>, n: nat)
    requires |a| == n && |b| == n && |c| == n
    requires MemCmp(a, b, n) == 0
    ensures a == b
    ensures MemCmp(a, c, n) == MemCmp(b, c, n) && MemCmp(c, a, n) == MemCmp(c, b, n)
  {
    MemCmpMeaning(a, b, n);
    assert a == a[..n] && b == b[..n];
  }

  lemma MemCmpSelf(a: seq<Byte>, n: nat)
    requires n <= |a|
    ensures MemCmp(a, a, n) == 0
  {
    MemCmpMeaning(a, a, n);
  }

  // ---------------------------------------------------------------------------
  // The entry order

  /** The comparator, in words: a sorts before b when a's id is lexicographically
      GREATER than b's, or the ids are equal and a's payload is shorter, or ids and
      payload lengths are equal and a's payload bytes are lexicographically smaller. */
  lemma LessMeaning(a: Entry, b: Entry)
    ensures Less(a, b) <==>
      LexLess(b.index, a.index, ID_SIZE)
      || (a.index == b.index && |a.data| < |b.data|)
      || (a.index == b.index && |a.data| == |b.data| && LexLess(a.data, b.data, |a.data|))
  {
    MemCmpMeaning(b.index, a.index, ID_SIZE);
    MemCmpMeaning(a.index, b.index, ID_SIZE);
    assert a.index[..ID_SIZE] == a.index && b.index[..ID_SIZE] == b.index;
    if |a.data| == |b.data| {
      MemCmpMeaning(a.data, b.data, |a.data|);
    }
  }

  /** operator== holds exactly when the two entries are the same value. */
  lemma EqualMeaning(a: Entry, b: Entry)
    ensures Equal(a, b) <==> a == b
  {
    MemCmpMeaning(b.index, a.index, ID_SIZE);
    assert a.index[..ID_SIZE] == a.index && b.index[..ID_SIZE] == b.index;
    if |a.data| == |b.data| {
      MemCmpMeaning(a.data, b.data, |a.data|);
      assert a.data[..|a.data|] == a.data && b.data[..|b.data|] == b.data;
    }
  }

  lemma LessIrreflexive(a: Entry)
    ensures !Less(a, a)
  {
    MemCmpSelf(a.index, ID_SIZE);
    MemCmpSelf(a.data, |a.data|);
  }

  lemma LessAsymmetric(a: Entry, b: Entry)
    ensures Less(a, b) ==> !Less(b, a)
  {
    MemCmpAntisymmetric(a.index, b.index, ID_SIZE);
    if |a.data| == |b.data| {
      MemCmpAntisymmetric(a.data, b.data, |a.data|);
    }
  }

  lemma LessTransitive(a: Entry, b: Entry, c: Entry)
    requires Less(a, b) && Less(b, c)
    ensures Less(a, c)
  {
    var ab := MemCmp(b.index, a.index, ID_SIZE);
    var bc := MemCmp(c.index, b.index, ID_SIZE);
    if ab == 0 {
      MemCmpZeroSubstitutes(b.index, a.index, c.index, ID_SIZE);
      if bc == 0 {
        MemCmpZeroSubstitutes(c.index, b.index, a.index, ID_SIZE);
        MemCmpSelf(a.index, ID_SIZE);
        if |a.data| == |b.data| == |c.data| {
          MemCmpTransitive(a.data, b.data, c.data, |a.data|);
        }
      }
    } else if bc == 0 {
      MemCmpZeroSubstitutes(c.index, b.index, a.index, ID_SIZE);
    } else {
      MemCmpTransitive(c.index, b.index, a.index, ID_SIZE);
    }
  }

  /** Any two entries are ordered one way or the other unless they are equal, and
      "neither is less than the other" is exactly operator==. */
  lemma LessTotal(a: Entry, b: Entry)
    ensures a == b || Less(a, b) || Less(b, a)
    ensures (!Less(a, b) && !Less(b, a)) <==> Equal(a, b)
  {
    EqualMeaning(a, b);
    LessIrreflexive(a);
    MemCmpAntisymmetric(b.index, a.index, ID_SIZE);
    if MemCmp(b.index, a.index, ID_SIZE) == 0 && |a.data| == |b.data| {
      MemCmpAntisymmetric(a.data, b.data, |a.data|);
    }
  }

  /** Not-less is transitive: a <= b and b <= c give a <= c. */
  lemma LeTransitive(a: Entry, b: Entry, c: Entry)
    requires !Less(b, a) && !Less(c, b)
    ensures !Less(c, a)
  {
    LessTotal(a, b);
    LessTotal(b, c);
    if a != b && b != c {
      LessTransitive(a, b, c);
      LessAsymmetric(a, c);
    } else {
      LessIrreflexive(a);
    }
  }

  /** a <= b < c gives a < c. */
  lemma LeLessTransitive(a: Entry, b: Entry, c: Entry)
    requires !Less(b, a) && Less(b, c)
    ensures Less(a, c)
  {
    LessTotal(a, b);
    if a != b {
      LessTransitive(a, b, c);
    }
  }
}
