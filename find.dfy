/** find_indexes_handler and session::find_indexes: one bulk read of the reverse
    records of the requested indexes, then the intersection of their entry lists. */
module Find {
  import opened Wrappers
  import opened Entries
  import opened Codec
  import opened Ordered
  import opened SetOps

  /** The running intersection folded over the remaining replies, in delivery order.
      It stops as soon as the running result is empty, so later replies are then
      never decoded. */
  function IntersectReplies(acc: seq<Entry>, rest: seq<Blob>): Result<seq<Entry>>
    decreases |rest|
  {
    if rest == [] || acc == [] then Ok(acc)
    else
      match Unpack(rest[0])
      case Err(e) => Err(e)
      case Ok(r) => IntersectReplies(SetIntersection(acc, r.entries), rest[1..])
  }

  /** What find_indexes_handler hands to its handler for a bulk read of `iosSize`
      locations: the read's own error; "received not all results" unless there is
      exactly one reply per location; otherwise the first reply's entries
      intersected with each further reply's, or the first decoding error met. */
  function FindResult(iosSize: nat, bulk: Result<seq<Blob>>): Result<seq<Entry>>
    requires iosSize > 0
  {
    match bulk
    case Err(e) => Err(e)
    case Ok(files) =>
      if |files| != iosSize then Err(NotAllResults)
      else
        match Unpack(files[0])
        case Err(e) => Err(e)
        case Ok(first) => IntersectReplies(first.entries, files[1..])
  }

  /** find_indexes_handler::operator(): the running result is kept in an array and
      each further reply is intersected into it in place. */
  method FindHandler(iosSize: nat, bulk: Result<seq<Blob>>) returns (r: Result<seq<Entry>>)
    requires iosSize > 0
    ensures r == FindResult(iosSize, bulk)
  {
    if bulk.Err? {
      return Err(bulk.error);
    }
    var files := bulk.value;
    if |files| != iosSize {
      return Err(NotAllResults);
    }
    var first := Unpack(files[0]);
    if first.Err? {
      return Err(first.error);
    }
    var entries := first.value.entries;
    var result := new Entry[|entries|](k requires 0 <= k < |entries| => entries[k]);
    var n: nat := result.Length;
    assert result[..n] == entries;
    var i := 1;
    while i < |files| && n > 0
      invariant 1 <= i <= |files|
      invariant n <= result.Length
      invariant IntersectReplies(result[..n], files[i..]) == FindResult(iosSize, bulk)
      decreases |files| - i
    {
      var tmp := Unpack(files[i]);
      assert files[i..][0] == files[i] && files[i..][1..] == files[i + 1..];
      if tmp.Err? {
        return Err(tmp.error);
      }
      n := IntersectInPlace(result, n, tmp.value.entries);
      i := i + 1;
    }
    r := Ok(result[..n]);
  }

  /** session::find_indexes: no indexes gives an empty result without any read;
      otherwise one read location per index, in request order, and the handler
      judges the bulk read's outcome against that many locations. */
  method FindIndexes(indexes: seq<RawId>, bulk: Result<seq<Blob>>) returns (locations: seq<RawId>, r: Result<seq<Entry>>)
    ensures indexes == [] ==> locations == [] && r == Ok([])
    ensures indexes != [] ==> locations == indexes && r == FindResult(|indexes|, bulk)
  {
    if |indexes| == 0 {
      return [], Ok([]);
    }
    locations := [];
    for i := 0 to |indexes|
      invariant locations == indexes[..i]
    {
      locations := locations + [indexes[i]];
    }
    assert indexes[..|indexes|] == indexes;
    r := FindHandler(|locations|, bulk);
  }

  // ---------------------------------------------------------------------------
  // Properties

  /** Every reply decodes to a strictly sorted list, as the reverse-record edit keeps it. */
  ghost predicate RepliesSorted(files: seq<Blob>)
  {
    forall i :: 0 <= i < |files| ==> Unpack(files[i]).Ok? && Sorted(Unpack(files[i]).value.entries)
  }

  /** On sorted replies the fold succeeds, stays sorted, and keeps exactly the
      entries of the running result found in every remaining reply. */
  lemma {:induction false} IntersectRepliesMeaning(acc: seq<Entry>, rest: seq<Blob>, x: Entry)
    requires Sorted(acc) && RepliesSorted(rest)
    ensures IntersectReplies(acc, rest).Ok?
    ensures Sorted(IntersectReplies(acc, rest).value)
    ensures x in IntersectReplies(acc, rest).value <==>
      x in acc && forall i :: 0 <= i < |rest| ==> x in Unpack(rest[i]).value.entries
    decreases |rest|
  {
    if rest == [] || acc == [] {
    } else {
      var next := Unpack(rest[0]).value.entries;
      var acc' := SetIntersection(acc, next);
      SortedIsSortedLe(acc);
      SetIntersectionSorted(acc, next);
      SetIntersectionMembership(acc, next, x);
      assert RepliesSorted(rest[1..]) by {
        forall i | 0 <= i < |rest[1..]|
          ensures Unpack(rest[1..][i]).Ok? && Sorted(Unpack(rest[1..][i]).value.entries)
        {
          assert rest[1..][i] == rest[i + 1];
        }
      }
      IntersectRepliesMeaning(acc', rest[1..], x);
      assert IntersectReplies(acc, rest) == IntersectReplies(acc', rest[1..]);
      if x in IntersectReplies(acc, rest).value {
        forall i | 0 <= i < |rest|
          ensures x in Unpack(rest[i]).value.entries
        {
          if i == 0 {
            assert x in next;
          } else {
            assert rest[1..][i - 1] == rest[i];
          }
        }
      }
      if x in acc && forall i :: 0 <= i < |rest| ==> x in Unpack(rest[i]).value.entries {
        assert x in next;
        forall i | 0 <= i < |rest[1..]|
          ensures x in Unpack(rest[1..][i]).value.entries
        {
          assert rest[1..][i] == rest[i + 1];
        }
      }
    }
  }

  /** The find result is the set of entries every requested index lists: with one
      sorted reply per location, an entry is returned exactly when it is in every
      reply, and the result is sorted. */
  lemma FindMembership(iosSize: nat, files: seq<Blob>, x: Entry)
    requires iosSize > 0 && |files| == iosSize && RepliesSorted(files)
    ensures FindResult(iosSize, Ok(files)).Ok?
    ensures Sorted(FindResult(iosSize, Ok(files)).value)
    ensures x in FindResult(iosSize, Ok(files)).value <==>
      forall i :: 0 <= i < |files| ==> x in Unpack(files[i]).value.entries
  {
    var first := Unpack(files[0]).value.entries;
    assert RepliesSorted(files[1..]) by {
      forall i | 0 <= i < |files[1..]|
        ensures Unpack(files[1..][i]).Ok? && Sorted(Unpack(files[1..][i]).value.entries)
      {
        assert files[1..][i] == files[i + 1];
      }
    }
    IntersectRepliesMeaning(first, files[1..], x);
    if forall i :: 0 <= i < |files| ==> x in Unpack(files[i]).value.entries {
      forall i | 0 <= i < |files[1..]|
        ensures x in Unpack(files[1..][i]).value.entries
      {
        assert files[1..][i] == files[i + 1];
      }
    }
    if x in FindResult(iosSize, Ok(files)).value {
      forall i | 0 <= i < |files|
        ensures x in Unpack(files[i]).value.entries
      {
        if i > 0 {
          assert files[1..][i - 1] == files[i];
        }
      }
    }
  }

  /** A failed fold reports the decoding error of one of the replies. */
  lemma {:induction false} IntersectRepliesError(acc: seq<Entry>, rest: seq<Blob>)
    ensures IntersectReplies(acc, rest).Err? ==>
      exists i :: 0 <= i < |rest| && Unpack(rest[i]) == Err(IntersectReplies(acc, rest).error)
    ensures (forall i :: 0 <= i < |rest| ==> Unpack(rest[i]).Ok?) ==> IntersectReplies(acc, rest).Ok?
    decreases |rest|
  {
    if rest == [] || acc == [] {
    } else if Unpack(rest[0]).Ok? {
      var acc' := SetIntersection(acc, Unpack(rest[0]).value.entries);
      IntersectRepliesError(acc', rest[1..]);
      if IntersectReplies(acc, rest).Err? {
        var i :| 0 <= i < |rest[1..]| && Unpack(rest[1..][i]) == Err(IntersectReplies(acc, rest).error);
        assert rest[1..][i] == rest[i + 1];
      }
      if forall i :: 0 <= i < |rest| ==> Unpack(rest[i]).Ok? {
        forall i | 0 <= i < |rest[1..]|
          ensures Unpack(rest[1..][i]).Ok?
        {
          assert rest[1..][i] == rest[i + 1];
        }
      }
    }
  }

  /** The handler's error cases: the read's own error, "received not all results"
      when the reply count differs from the request count, and otherwise only the
      decoding error of some reply; when every reply decodes, the find succeeds. */
  lemma FindErrors(iosSize: nat, bulk: Result<seq<Blob>>)
    requires iosSize > 0
    ensures bulk.Err? ==> FindResult(iosSize, bulk) == Err(bulk.error)
    ensures bulk.Ok? && |bulk.value| != iosSize ==> FindResult(iosSize, bulk) == Err(NotAllResults)
    ensures bulk.Ok? && |bulk.value| == iosSize && FindResult(iosSize, bulk).Err? ==>
      exists i :: 0 <= i < |bulk.value| && Unpack(bulk.value[i]) == Err(FindResult(iosSize, bulk).error)
    ensures bulk.Ok? && |bulk.value| == iosSize && (forall i :: 0 <= i < iosSize ==> Unpack(bulk.value[i]).Ok?) ==>
      FindResult(iosSize, bulk).Ok?
  {
    if bulk.Ok? && |bulk.value| == iosSize {
      var files := bulk.value;
      if Unpack(files[0]).Ok? {
        IntersectRepliesError(Unpack(files[0]).value.entries, files[1..]);
        if FindResult(iosSize, bulk).Err? {
          var i :| 0 <= i < |files[1..]| && Unpack(files[1..][i]) == Err(FindResult(iosSize, bulk).error);
          assert files[1..][i] == files[i + 1];
        }
        if forall i :: 0 <= i < iosSize ==> Unpack(files[i]).Ok? {
          forall i | 0 <= i < |files[1..]|
            ensures Unpack(files[1..][i]).Ok?
          {
            assert files[1..][i] == files[i + 1];
          }
        }
      }
    }
  }

  /** The packed reverse record listing `s`. */
  function Listing(s: seq<Entry>): Blob
  {
    Packed(EncodeRecord(Record(s, [])))
  }

  /** Index a lists [x, y] and index b lists [y, z]: finding {a, b} returns [y]. */
  lemma FindTwoIndexes(x: Entry, y: Entry, z: Entry)
    requires Less(x, y) && Less(y, z)
    ensures FindResult(2, Ok([Listing([x, y]), Listing([y, z])])) == Ok([y])
  {
    RecordRoundTrip(Record([x, y], []));
    RecordRoundTrip(Record([y, z], []));
    LessIrreflexive(y);
    LessAsymmetric(x, y);
    var files := [Listing([x, y]), Listing([y, z])];
    assert [x, y][1..] == [y] && [y, z][1..] == [z] && [y][1..] == [];
    assert SetIntersection([y], [y, z]) == [y];
    assert SetIntersection([x, y], [y, z]) == [y];
    assert files[1..] == [Listing([y, z])] && files[1..][1..] == [];
    assert IntersectReplies([x, y], files[1..]) == IntersectReplies([y], []);
  }

  /** Once the running result is empty the remaining replies are not decoded: a
      malformed third reply after two disjoint listings still yields an empty result. */
  lemma FindStopsWhenEmpty(x: Entry, y: Entry)
    requires Less(x, y)
    ensures FindResult(3, Ok([Listing([x]), Listing([y]), Malformed])) == Ok([])
    ensures Unpack(Malformed).Err?
  {
    RecordRoundTrip(Record([x], []));
    RecordRoundTrip(Record([y], []));
    assert [x][1..] == [];
    assert SetIntersection([x], [y]) == [];
    var files := [Listing([x]), Listing([y]), Malformed];
    assert files[1..] == [Listing([y]), Malformed];
    assert files[1..][1..] == [Malformed];
    assert IntersectReplies([x], files[1..]) == IntersectReplies([], [Malformed]);
  }
}
