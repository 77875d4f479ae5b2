/** The CAS edit function update_indexes_data::update_functor applies to a reverse
    record: a sorted insert or erase of one entry, and nothing at all when there is
    nothing to do. */
module Edit {
  import opened Wrappers
  import opened Entries
  import opened Ordered
  import opened Codec
  import opened SetOps

  /** The record an edit starts from: no bytes stand for a record with no entries. */
  function ReadRecord(data: Blob): Result<Record>
  {
    if data.Empty? then Ok(Record([], [])) else Unpack(data)
  }

  /** What the edit produces from the stored bytes when their entries are sorted:
      the input bytes themselves when x is already there (insert) or missing (erase),
      otherwise the packing of the record with x inserted at, or erased from, its
      lower bound. */
  function Edited(data: Blob, x: Entry, insert: bool): Result<Blob>
  {
    match ReadRecord(data)
    case Err(e) => Err(e)
    case Ok(r) =>
      var i := FirstNotLess(r.entries, x);
      if i < |r.entries| && r.entries[i] == x then
        if insert then Ok(data)
        else Ok(Packed(EncodeRecord(Record(EraseAt(r.entries, i), r.friends))))
      else if insert then Ok(Packed(EncodeRecord(Record(InsertSorted(r.entries, x), r.friends))))
      else Ok(data)
  }

  /** std::lower_bound over the entries, with libstdc++'s halving search. On a sorted
      list it returns the first position whose entry is not Less than x. */
  method LowerBound(s: seq<Entry>, x: Entry) returns (i: nat)
    ensures i <= |s|
    ensures SortedLe(s) ==> i == FirstNotLess(s, x)
  {
    var first: nat, count: nat := 0, |s|;
    while count > 0
      invariant first + count <= |s|
      invariant SortedLe(s) ==> forall k :: 0 <= k < first ==> Less(s[k], x)
      invariant SortedLe(s) ==> forall k :: first + count <= k < |s| ==> !Less(s[k], x)
    {
      var step := count / 2;
      var mid := first + step;
      if Less(s[mid], x) {
        if SortedLe(s) {
          forall k | 0 <= k < mid
            ensures Less(s[k], x)
          {
            LeLessTransitive(s[k], s[mid], x);
          }
        }
        first, count := mid + 1, count - step - 1;
      } else {
        if SortedLe(s) {
          forall k | mid < k < |s|
            ensures !Less(s[k], x)
          {
            LeTransitive(x, s[mid], s[k]);
          }
        }
        count := step;
      }
    }
    i := first;
    if SortedLe(s) {
      PartitionIsFirstNotLess(s, x, i);
    }
  }

  /** update_functor::operator()(data): unpack the stored bytes (none mean an empty
      record), find the request entry's lower bound, and insert or erase it there;
      the input bytes come back untouched when there is nothing to do. A failed
      unpack is the exception that escapes the edit. */
  method ApplyEdit(data: Blob, request: Entry, insert: bool) returns (r: Result<Blob>)
    ensures ReadRecord(data).Err? ==> r == Err(ReadRecord(data).error)
    ensures ReadRecord(data).Ok? ==> r.Ok?
    ensures ReadRecord(data).Ok? && SortedLe(ReadRecord(data).value.entries) ==> r == Edited(data, request, insert)
  {
    var indexes := Record([], []);
    if !data.Empty? {
      var unpacked := Unpack(data);
      if unpacked.Err? {
        return Err(unpacked.error);
      }
      indexes := unpacked.value;
    }
    var entries := indexes.entries;
    var it := LowerBound(entries, request);
    if it < |entries| && Equal(entries[it], request) {
      EqualMeaning(entries[it], request);
      if insert {
        return Ok(data);
      }
      entries := EraseAt(entries, it);
    } else {
      EqualMeaning(if it < |entries| then entries[it] else request, request);
      if !insert {
        return Ok(data);
      }
      entries := entries[..it] + [request] + entries[it..];
    }
    return Ok(Packed(EncodeRecord(Record(entries, indexes.friends))));
  }

  // ---------------------------------------------------------------------------
  // What an edit does to a reverse record

  /** The entries an edit leaves behind: x inserted at, or erased from, its lower bound. */
  function EditEntries(s: seq<Entry>, x: Entry, insert: bool): seq<Entry>
  {
    var i := FirstNotLess(s, x);
    if i < |s| && s[i] == x then (if insert then s else EraseAt(s, i))
    else if insert then InsertSorted(s, x) else s
  }

  /** On a strictly sorted list an edit keeps the list strictly sorted, leaves x present
      exactly when it inserts, and adds or drops one copy of x and nothing else. */
  lemma EditEntriesMeaning(s: seq<Entry>, x: Entry, insert: bool)
    requires Sorted(s)
    ensures Sorted(EditEntries(s, x, insert))
    ensures x in EditEntries(s, x, insert) <==> insert
    ensures multiset(EditEntries(s, x, insert)) ==
      if insert then multiset(s) + (if x in s then multiset{} else multiset{x})
      else multiset(s) - multiset{x}
  {
    var i := FirstNotLess(s, x);
    SortedIsSortedLe(s);
    FirstNotLessFinds(s, x);
    if i < |s| && s[i] == x {
      if !insert {
        EraseAtKeepsOrder(s, i);
      }
    } else {
      if insert {
        InsertSortedKeepsOrder(s, x);
        InsertSortedKeepsStrictOrder(s, x);
      } else {
        assert multiset(s)[x] == 0;
        assert multiset(s) - multiset{x} == multiset(s);
      }
    }
  }

  /** The bytes an edit returns decode to the edited entries and the same friends. */
  lemma EditedReadsBack(data: Blob, x: Entry, insert: bool)
    requires ReadRecord(data).Ok?
    ensures Edited(data, x, insert).Ok?
    ensures var r := ReadRecord(data).value;
      ReadRecord(Edited(data, x, insert).value) == Ok(Record(EditEntries(r.entries, x, insert), r.friends))
  {
    var r := ReadRecord(data).value;
    RecordRoundTrip(Record(EditEntries(r.entries, x, insert), r.friends));
  }

  /** On a strictly sorted record the edit succeeds, keeps the record strictly sorted,
      carries the friends through, adds x once (insert) or drops it (erase) and
      changes nothing else; when there was nothing to do it returns the input bytes. */
  lemma EditedMeaning(data: Blob, x: Entry, insert: bool)
    requires ReadRecord(data).Ok? && Sorted(ReadRecord(data).value.entries)
    ensures Edited(data, x, insert).Ok?
    ensures var before, after := ReadRecord(data).value, Edited(data, x, insert).value;
      ReadRecord(after).Ok?
      && Sorted(ReadRecord(after).value.entries)
      && ReadRecord(after).value.friends == before.friends
      && (x in ReadRecord(after).value.entries <==> insert)
      && multiset(ReadRecord(after).value.entries) ==
           (if insert then multiset(before.entries) + (if x in before.entries then multiset{} else multiset{x})
            else multiset(before.entries) - multiset{x})
      && ((x in before.entries) == insert ==> after == data)
    ensures data.Empty? ==>
      Edited(data, x, insert) == if insert then Ok(Packed(EncodeRecord(Record([x], [])))) else Ok(Empty)
  {
    var s := ReadRecord(data).value.entries;
    EditedReadsBack(data, x, insert);
    EditEntriesMeaning(s, x, insert);
    SortedIsSortedLe(s);
    FirstNotLessFinds(s, x);
  }

  /** Applying the same edit twice is applying it once. */
  lemma EditedIdempotent(data: Blob, x: Entry, insert: bool)
    requires ReadRecord(data).Ok? && Sorted(ReadRecord(data).value.entries)
    ensures Edited(data, x, insert).Ok?
    ensures Edited(Edited(data, x, insert).value, x, insert) == Edited(data, x, insert)
  {
    EditedMeaning(data, x, insert);
    EditedMeaning(Edited(data, x, insert).value, x, insert);
  }

  /** Inserting an absent entry at its lower bound and then erasing it there gives the list back. */
  lemma EraseAfterInsert(s: seq<Entry>, x: Entry)
    requires Sorted(s) && x !in s
    ensures var t := InsertSorted(s, x);
      FirstNotLess(t, x) == FirstNotLess(s, x) && t[FirstNotLess(s, x)] == x
      && EraseAt(t, FirstNotLess(s, x)) == s
  {
    var i := FirstNotLess(s, x);
    var t := InsertSorted(s, x);
    InsertSortedAt(s, x);
    LessIrreflexive(x);
    PartitionIsFirstNotLess(t, x, i);
    assert EraseAt(t, i) == s[..i] + s[i..];
  }

  /** Erasing x from its lower bound removes it and leaves the lower bound of x
      where it was. */
  lemma EraseKeepsLowerBound(s: seq<Entry>, x: Entry)
    requires Sorted(s) && FirstNotLess(s, x) < |s| && s[FirstNotLess(s, x)] == x
    ensures x !in EraseAt(s, FirstNotLess(s, x))
    ensures FirstNotLess(EraseAt(s, FirstNotLess(s, x)), x) == FirstNotLess(s, x)
  {
    var i := FirstNotLess(s, x);
    var e := EraseAt(s, i);
    EraseAtKeepsOrder(s, i);
    forall k | 0 <= k < i
      ensures Less(e[k], x)
    {
      assert e[k] == s[k];
    }
    if i < |e| {
      assert e[i] == s[i + 1];
      assert Less(s[i], s[i + 1]);
      LessAsymmetric(x, s[i + 1]);
    }
    PartitionIsFirstNotLess(e, x, i);
  }

  /** Erasing a present entry at its lower bound and then re-inserting it gives the list back. */
  lemma InsertAfterErase(s: seq<Entry>, x: Entry)
    requires Sorted(s) && FirstNotLess(s, x) < |s| && s[FirstNotLess(s, x)] == x
    ensures var e := EraseAt(s, FirstNotLess(s, x));
      x !in e && InsertSorted(e, x) == s
  {
    var i := FirstNotLess(s, x);
    var e := EraseAt(s, i);
    EraseKeepsLowerBound(s, x);
    SpliceBack(s, i);
  }

  /** Putting an erased element back where it was gives the list back. */
  lemma SpliceBack(s: seq<Entry>, i: nat)
    requires i < |s|
    ensures EraseAt(s, i)[..i] + [s[i]] + EraseAt(s, i)[i..] == s
  {
    var e := EraseAt(s, i);
    assert e[..i] == s[..i];
    assert e[i..] == s[i + 1..];
    assert s == s[..i] + [s[i]] + s[i + 1..];
  }

  /** The insert half of a compensation pair, on the stored bytes. */
  lemma UndoInsert(data: Blob, x: Entry)
    requires ReadRecord(data).Ok? && Sorted(ReadRecord(data).value.entries)
    requires x !in ReadRecord(data).value.entries
    ensures var r := ReadRecord(data).value;
      var inserted := Packed(EncodeRecord(Record(InsertSorted(r.entries, x), r.friends)));
      Edited(data, x, true) == Ok(inserted) && Edited(inserted, x, false) == Ok(Packed(EncodeRecord(r)))
  {
    var r := ReadRecord(data).value;
    var s := r.entries;
    SortedIsSortedLe(s);
    FirstNotLessFinds(s, x);
    var t := InsertSorted(s, x);
    EraseAfterInsert(s, x);
    RecordRoundTrip(Record(t, r.friends));
    var d1 := Packed(EncodeRecord(Record(t, r.friends)));
    assert ReadRecord(d1) == Ok(Record(t, r.friends));
  }

  /** The erase half of a compensation pair, on the stored bytes. */
  lemma UndoErase(data: Blob, x: Entry)
    requires ReadRecord(data).Ok? && Sorted(ReadRecord(data).value.entries)
    requires var s := ReadRecord(data).value.entries;
      FirstNotLess(s, x) < |s| && s[FirstNotLess(s, x)] == x
    ensures var r := ReadRecord(data).value;
      var erased := Packed(EncodeRecord(Record(EraseAt(r.entries, FirstNotLess(r.entries, x)), r.friends)));
      Edited(data, x, false) == Ok(erased) && Edited(erased, x, true) == Ok(Packed(EncodeRecord(r)))
  {
    var r := ReadRecord(data).value;
    var s := r.entries;
    var i := FirstNotLess(s, x);
    SortedIsSortedLe(s);
    FirstNotLessFinds(s, x);
    var e := EraseAt(s, i);
    EraseKeepsLowerBound(s, x);
    InsertAfterErase(s, x);
    RecordRoundTrip(Record(e, r.friends));
    var d1 := Packed(EncodeRecord(Record(e, r.friends)));
    assert ReadRecord(d1) == Ok(Record(e, r.friends));
  }

  /** A compensation undoes a successful edit: inserting an absent entry and then
      erasing it, or erasing a present entry and then re-inserting it, gives back the
      record that was stored before. */
  lemma CompensationRestores(data: Blob, x: Entry, insert: bool)
    requires ReadRecord(data).Ok? && Sorted(ReadRecord(data).value.entries)
    requires (x in ReadRecord(data).value.entries) != insert
    ensures Edited(data, x, insert).Ok?
    ensures Edited(Edited(data, x, insert).value, x, !insert).Ok?
    ensures ReadRecord(Edited(Edited(data, x, insert).value, x, !insert).value) == ReadRecord(data)
  {
    RecordRoundTrip(ReadRecord(data).value);
    SortedIsSortedLe(ReadRecord(data).value.entries);
    FirstNotLessFinds(ReadRecord(data).value.entries, x);
    if insert {
      UndoInsert(data, x);
    } else {
      UndoErase(data, x);
    }
  }

  /** Inserting one entry and erasing another, different entry leave the same list
      whichever lands first; the inserted entry is then present and the erased absent. */
  lemma DistinctEditsCommute(s: seq<Entry>, x: Entry, y: Entry)
    requires Sorted(s) && x != y
    ensures var first := EditEntries(EditEntries(s, x, true), y, false);
      first == EditEntries(EditEntries(s, y, false), x, true)
      && x in first && y !in first
  {
    var sx := EditEntries(s, x, true);
    var sy := EditEntries(s, y, false);
    EditEntriesMeaning(s, x, true);
    EditEntriesMeaning(s, y, false);
    EditEntriesMeaning(sx, y, false);
    EditEntriesMeaning(sy, x, true);
    var s1 := EditEntries(sx, y, false);
    var s2 := EditEntries(sy, x, true);
    var m := multiset(s);
    assert x in s <==> m[x] > 0;
    assert x in sy <==> multiset(sy)[x] > 0;
    assert multiset(sy)[x] == m[x];
    if x in s {
      assert multiset(s1) == m - multiset{y} == multiset(s2);
    } else {
      AddRemoveCommute(m, x, y);
      assert multiset(s1) == (m + multiset{x}) - multiset{y};
      assert multiset(s2) == (m - multiset{y}) + multiset{x};
    }
    assert multiset(s1) == multiset(s2);
    SortedIsSortedLe(s1);
    SortedIsSortedLe(s2);
    SortedPermutationUnique(s1, s2);
  }

  lemma AddRemoveCommute<T>(m: multiset<T>, x: T, y: T)
    requires x != y
    ensures (m + multiset{x}) - multiset{y} == (m - multiset{y}) + multiset{x}
  {
    assert forall z :: ((m + multiset{x}) - multiset{y})[z] == ((m - multiset{y}) + multiset{x})[z];
  }
}
