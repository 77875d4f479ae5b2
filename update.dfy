/** session::update_indexes and the callbacks of update_indexes_data: the forward write,
    the diff step, the try phase that fans out one CAS per changed index and the
    rollback phase that compensates a partly failed batch. Every callback runs under
    scope->mutex, so each one is one atomic method call on the batch scope. */
module Update {
  import opened Wrappers
  import opened Entries
  import opened Ordered
  import opened Codec
  import opened SetOps
  import opened Edit

  /** One write_cas on a reverse record: `location` is the index id whose record is
      edited, and the edit inserts (insert) or erases the scope's request entry there. */
  datatype Cas = Cas(location: RawId, insert: bool)

  /** What a callback does once it has updated the scope: nothing more, call the
      handler with an error or with none, or issue write_cas calls in this order. */
  datatype Step = Wait | Report(error: Option<Error>) | Issue(writes: seq<Cas>)

  /** Where the batch stands: the forward CAS is outstanding, the try CASes are,
      the compensating CASes are, or the handler has been called. */
  datatype Phase = Forward | Trying | RollingBack | Done

  /** The ids of a list of entries. */
  function Ids(s: seq<Entry>): (r: seq<RawId>)
    ensures |r| == |s|
  {
    if s == [] then [] else [s[0].index] + Ids(s[1..])
  }

  /** One CAS per id, all with the same insert flag. */
  function Writes(ids: seq<RawId>, insert: bool): (w: seq<Cas>)
    ensures |w| == |ids|
  {
    if ids == [] then [] else Writes(ids[..|ids| - 1], insert) + [Cas(ids[|ids| - 1], insert)]
  }

  /** The write_cas loops: one CAS per id, issued in list order. */
  method IssueAll(ids: seq<RawId>, insert: bool) returns (writes: seq<Cas>)
    ensures writes == Writes(ids, insert)
  {
    writes := [];
    for i := 0 to |ids|
      invariant writes == Writes(ids[..i], insert)
    {
      assert ids[..i + 1][..i] == ids[..i];
      writes := writes + [Cas(ids[i], insert)];
    }
    assert ids[..|ids|] == ids;
  }

  /** The wanted entries are sorted and `buffer` is their packed record. */
  ghost predicate IsWanted(indexes: seq<Entry>, buffer: Object)
  {
    SortedLe(indexes) && buffer == EncodeRecord(Record(indexes, []))
  }

  /** Every id of `ids` occurs in `issued`. */
  ghost predicate AllIn(ids: seq<RawId>, issued: seq<RawId>)
  {
    forall x :: x in ids ==> x in issued
  }

  /** inserted = wanted - read and removed = read - wanted. */
  ghost predicate IsDiff(wanted: seq<Entry>, read: seq<Entry>, inserted: seq<Entry>, removed: seq<Entry>)
  {
    inserted == SetDifference(wanted, read) && removed == SetDifference(read, wanted)
  }

  // ---------------------------------------------------------------------------
  // The reverse entry's payload

  /** Changing only the payload of one index, from `a` to `b`, makes the diff insert
      (index, b) and remove (index, a): two CASes at the same location `index`. */
  lemma PayloadChangeDiff(index: RawId, a: seq<Byte>, b: seq<Byte>)
    requires a != b
    ensures SetDifference([Entry(index, b)], [Entry(index, a)]) == [Entry(index, b)]
    ensures SetDifference([Entry(index, a)], [Entry(index, b)]) == [Entry(index, a)]
    ensures Ids([Entry(index, b)]) == Ids([Entry(index, a)]) == [index]
  {
    LessTotal(Entry(index, a), Entry(index, b));
  }

  /** As written, both CASes of a payload-only change edit the index's reverse record
      with the same entry (objectId, request_data), and request_data is empty. When the
      insert completes first it finds the entry already there and changes nothing; the
      erase then removes it. Both CASes succeed, so the batch reports success, yet the
      index's reverse record no longer lists the object. */
  lemma PayloadChangeLosesObject(objectId: RawId, data: Blob)
    requires ReadRecord(data).Ok? && Sorted(ReadRecord(data).value.entries)
    requires Entry(objectId, []) in ReadRecord(data).value.entries
    ensures Edited(data, Entry(objectId, []), true) == Ok(data)
    ensures var erased := Edited(Edited(data, Entry(objectId, []), true).value, Entry(objectId, []), false);
      erased.Ok? && ReadRecord(erased.value).Ok?
      && Entry(objectId, []) !in ReadRecord(erased.value).value.entries
  {
    var s := ReadRecord(data).value.entries;
    SortedIsSortedLe(s);
    FirstNotLessFinds(s, Entry(objectId, []));
    EditedMeaning(data, Entry(objectId, []), false);
  }

  /** The reverse entry the relation calls for: the object id with the payload of the
      forward entry. */
  function ReverseEntry(objectId: RawId, forward: Entry): Entry
  {
    Entry(objectId, forward.data)
  }

  /** With the forward entry's payload in the reverse entry, the two CASes of a
      payload-only change edit different entries, so the index's reverse record ends
      the same whichever completes first: (objectId, b) present, (objectId, a) absent. */
  lemma PayloadChangeKeepsObject(objectId: RawId, index: RawId, a: seq<Byte>, b: seq<Byte>, data: Blob)
    requires a != b
    requires ReadRecord(data).Ok? && Sorted(ReadRecord(data).value.entries)
    ensures var ins, rem := ReverseEntry(objectId, Entry(index, b)), ReverseEntry(objectId, Entry(index, a));
      var r := ReadRecord(data).value;
      var t := EditEntries(EditEntries(r.entries, ins, true), rem, false);
      Edited(data, ins, true).Ok? && Edited(data, rem, false).Ok?
      && Edited(Edited(data, ins, true).value, rem, false).Ok?
      && Edited(Edited(data, rem, false).value, ins, true).Ok?
      && ReadRecord(Edited(Edited(data, ins, true).value, rem, false).value) == Ok(Record(t, r.friends))
      && ReadRecord(Edited(Edited(data, rem, false).value, ins, true).value) == Ok(Record(t, r.friends))
      && ins in t && rem !in t
  {
    var ins, rem := ReverseEntry(objectId, Entry(index, b)), ReverseEntry(objectId, Entry(index, a));
    var r := ReadRecord(data).value;
    EditedReadsBack(data, ins, true);
    EditedReadsBack(Edited(data, ins, true).value, rem, false);
    EditedReadsBack(data, rem, false);
    EditedReadsBack(Edited(data, rem, false).value, ins, true);
    DistinctEditsCommute(r.entries, ins, rem);
  }

  /** The shared state of one update_indexes call (update_indexes_data). */
  class UpdateScope {
    /** The object whose indexes are updated (scope->request_id). */
    const requestId: RawId
    /** scope->request_data: session::update_indexes never assigns it, so it stays empty. */
    const requestData: seq<Byte>
    /** The wanted forward entries, sorted (scope->indexes.indexes). */
    const indexes: seq<Entry>
    /** The packed wanted record the forward CAS writes (scope->buffer). */
    const buffer: Object
    /** The forward record the forward CAS read (scope->remote_indexes). */
    var remoteIndexes: Record
    var insertedIds: seq<Entry>
    var removedIds: seq<Entry>
    var successInsertedIds: seq<RawId>
    var successRemovedIds: seq<RawId>
    var finished: nat
    var exception: Option<Error>

    ghost var phase: Phase
    /** Completions, in the current phase, of the CASes that insert the request
        entry and of those that erase it. */
    ghost var insertsDone: nat
    ghost var removesDone: nat
    /** Failed CASes of the try phase. */
    ghost var failures: nat
    /** How many times the handler has been called. */
    ghost var handlerCalls: nat

    /** The wanted entries are sorted, packed into the buffer, and the request
        entry's payload is the unassigned request_data. */
    ghost predicate Wanted()
    {
      IsWanted(indexes, buffer) && requestData == []
    }

    /** The diff main_functor takes between the wanted and the read entries. */
    ghost predicate DiffTaken()
      reads this`remoteIndexes, this`insertedIds, this`removedIds
    {
      IsDiff(indexes, remoteIndexes.entries, insertedIds, removedIds)
    }

    /** Every recorded success is the id of an entry of the diff with the same flag. */
    ghost predicate SuccessesIssued()
      reads this`successInsertedIds, this`successRemovedIds, this`insertedIds, this`removedIds
    {
      AllIn(successInsertedIds, Ids(insertedIds)) && AllIn(successRemovedIds, Ids(removedIds))
    }

    /** The try phase's bookkeeping: no more completions than CASes issued, every
        success is one of the diff's index ids, each completion was counted once,
        and an exception is held exactly when some CAS failed. */
    ghost predicate TryInvariant()
      reads this`remoteIndexes, this`insertedIds, this`removedIds, this`successInsertedIds,
        this`successRemovedIds, this`insertsDone, this`removesDone, this`finished, this`failures, this`exception
    {
      insertsDone <= |insertedIds| && removesDone <= |removedIds|
      && |successInsertedIds| <= insertsDone && |successRemovedIds| <= removesDone
      && SuccessesIssued()
      && finished == insertsDone + removesDone
      && finished == |successInsertedIds| + |successRemovedIds| + failures
      && (exception.Some? <==> failures > 0)
    }

    /** The rollback phase's bookkeeping: no more completions than compensations
        issued (an erase per successful insert, an insert per successful erase), each
        completion counted once, and the exception of the failed try phase held. */
    ghost predicate RevertInvariant()
      reads this`remoteIndexes, this`insertedIds, this`removedIds, this`successInsertedIds,
        this`successRemovedIds, this`insertsDone, this`removesDone, this`finished, this`failures, this`exception
    {
      insertsDone <= |successRemovedIds| && removesDone <= |successInsertedIds|
      && finished == insertsDone + removesDone
      && failures > 0 && exception.Some?
    }

    ghost predicate Valid()
      reads this
    {
      Wanted()
      && handlerCalls == (if phase == Done then 1 else 0)
      && (phase == Forward ==>
            insertedIds == [] && removedIds == [] && successInsertedIds == [] && successRemovedIds == []
            && finished == 0 && exception == None && insertsDone == 0 && removesDone == 0 && failures == 0)
      && (phase == Trying || phase == RollingBack ==> DiffTaken())
      && (phase == Trying ==> TryInvariant() && finished < |insertedIds| + |removedIds|)
      && (phase == RollingBack ==> RevertInvariant() && finished < |successInsertedIds| + |successRemovedIds|)
    }

    /** session::update_indexes: sort the wanted entries, pack them, start with no
        completions; the forward CAS (at a location hashed from the request id) is
        then issued with ForwardEdit as its edit and ForwardDone as its callback. */
    constructor (requestId: RawId, indexes: seq<Entry>)
      ensures Valid() && phase == Forward
      ensures this.requestId == requestId && requestData == []
      ensures SortedLe(this.indexes) && multiset(this.indexes) == multiset(indexes)
      ensures buffer == EncodeRecord(Record(this.indexes, []))
      ensures remoteIndexes == Record([], [])
    {
      this.requestId := requestId;
      requestData := [];
      var sorted := SortEntries(indexes);
      this.indexes := sorted;
      buffer := EncodeRecord(Record(sorted, []));
      remoteIndexes := Record([], []);
      insertedIds, removedIds := [], [];
      successInsertedIds, successRemovedIds := [], [];
      finished := 0;
      exception := None;
      phase := Forward;
      insertsDone, removesDone := 0, 0;
      failures, handlerCalls := 0, 0;
    }

    /** main_functor::operator()(data): remember the forward record read (no bytes
        clear its entries) and return the packed wanted record to be written,
        whatever was stored. A failed unpack is the exception that escapes the edit. */
    method ForwardEdit(data: Blob) returns (r: Result<Blob>)
      requires Valid() && phase == Forward
      modifies this`remoteIndexes
      ensures Valid()
      ensures data.Empty? ==> r == Ok(Packed(buffer)) && remoteIndexes == old(remoteIndexes).(entries := [])
      ensures !data.Empty? && Unpack(data).Ok? ==> r == Ok(Packed(buffer)) && remoteIndexes == Unpack(data).value
      ensures !data.Empty? && Unpack(data).Err? ==> r == Err(Unpack(data).error) && remoteIndexes == old(remoteIndexes)
    {
      if data.Empty? {
        remoteIndexes := remoteIndexes.(entries := []);
      } else {
        var unpacked := Unpack(data);
        if unpacked.Err? {
          return Err(unpacked.error);
        }
        remoteIndexes := unpacked.value;
      }
      r := Ok(Packed(buffer));
    }

    /** update_functor::operator()(data) as the try and revert CASes run it: the
        scope's request entry, whose payload is the never-assigned request_data. */
    method RequestEdit(data: Blob, insert: bool) returns (r: Result<Blob>)
      requires Valid()
      ensures ReadRecord(data).Err? ==> r == Err(ReadRecord(data).error)
      ensures ReadRecord(data).Ok? && SortedLe(ReadRecord(data).value.entries) ==>
        r == Edited(data, Entry(requestId, []), insert)
    {
      r := ApplyEdit(data, Entry(requestId, requestData), insert);
    }

    /** main_functor::operator()(write_result): a failed forward CAS goes straight to
        the handler. Otherwise the diff is taken, inserted = wanted - read and
        removed = read - wanted; an empty diff is reported as success, and any other
        issues one CAS per inserted entry and then one per removed entry, each at the
        entry's index id. */
    method ForwardDone(result: Option<Error>) returns (step: Step)
      requires Valid() && phase == Forward
      modifies this`insertedIds, this`removedIds, this`phase, this`handlerCalls
      ensures Valid()
      ensures handlerCalls == old(handlerCalls) + (if step.Report? then 1 else 0)
      ensures result.Some? ==> step == Report(result) && phase == Done
      ensures result.None? ==>
        insertedIds == SetDifference(indexes, remoteIndexes.entries)
        && removedIds == SetDifference(remoteIndexes.entries, indexes)
      ensures result.None? && insertedIds == [] && removedIds == [] ==> step == Report(None) && phase == Done
      ensures result.None? && (insertedIds != [] || removedIds != []) ==>
        step == Issue(Writes(Ids(insertedIds), true) + Writes(Ids(removedIds), false)) && phase == Trying
    {
      if result.Some? {
        step := Report(result);
        phase, handlerCalls := Done, handlerCalls + 1;
        return;
      }
      TakeDiff();
      if insertedIds == [] && removedIds == [] {
        step := Report(None);
        phase, handlerCalls := Done, handlerCalls + 1;
        return;
      }
      var inserts := IssueAll(Ids(insertedIds), true);
      var removes := IssueAll(Ids(removedIds), false);
      step := Issue(inserts + removes);
      phase := Trying;
    }

    /** The std::set_difference calls of main_functor, appending to the still empty
        inserted and removed lists. */
    method TakeDiff()
      requires insertedIds == [] && removedIds == []
      modifies this`insertedIds, this`removedIds
      ensures DiffTaken()
      ensures insertedIds == SetDifference(indexes, remoteIndexes.entries)
      ensures removedIds == SetDifference(remoteIndexes.entries, indexes)
    {
      insertedIds := insertedIds + SetDifference(indexes, remoteIndexes.entries);
      removedIds := removedIds + SetDifference(remoteIndexes.entries, indexes);
    }

    /** try_functor::check_finish: only the completion that brings `finished` to the
        number of CASes issued decides (Conclude); every other one waits. */
    method TryCheckFinish() returns (step: Step)
      requires phase == Trying && TryInvariant() && DiffTaken() && Wanted() && handlerCalls == 0
      requires finished <= |insertedIds| + |removedIds|
      modifies this`finished, this`phase, this`insertsDone, this`removesDone, this`handlerCalls
      ensures Valid()
      ensures handlerCalls == old(handlerCalls) + (if step.Report? then 1 else 0)
      ensures old(finished) != |insertedIds| + |removedIds| ==>
        step == Wait && finished == old(finished) && phase == Trying
        && insertsDone == old(insertsDone) && removesDone == old(removesDone)
      ensures old(finished) == |insertedIds| + |removedIds| ==> finished == 0 && Concluded(step)
      ensures (step.Report? && step.error.None?) <==>
        (old(finished) == |insertedIds| + |removedIds| && failures == 0)
    {
      if finished != |insertedIds| + |removedIds| {
        return Wait;
      }
      step := Conclude();
    }

    /** How the try phase ends once every CAS has completed: success when every CAS
        succeeded, the held exception when none did, and otherwise the compensations,
        an erase per successful insert and then an insert per successful erase. */
    ghost predicate Concluded(step: Step)
      reads this
    {
      if |successInsertedIds| == |insertedIds| && |successRemovedIds| == |removedIds| then
        step == Report(None) && phase == Done
      else if successInsertedIds == [] && successRemovedIds == [] then
        step == Report(exception) && exception.Some? && phase == Done
      else
        step == Issue(Writes(successInsertedIds, false) + Writes(successRemovedIds, true))
        && phase == RollingBack
    }

    /** The deciding part of try_functor::check_finish: reset `finished`, then report
        or roll back. */
    method Conclude() returns (step: Step)
      requires phase == Trying && TryInvariant() && DiffTaken() && Wanted() && handlerCalls == 0
      requires finished == |insertedIds| + |removedIds|
      modifies this`finished, this`phase, this`insertsDone, this`removesDone, this`handlerCalls
      ensures Valid()
      ensures handlerCalls == old(handlerCalls) + (if step.Report? then 1 else 0)
      ensures finished == 0 && Concluded(step)
      ensures (step.Report? && step.error.None?) <==> failures == 0
    {
      assert insertsDone == |insertedIds| && removesDone == |removedIds|;
      finished := 0;
      if |successInsertedIds| == |insertedIds| && |successRemovedIds| == |removedIds| {
        step := Report(None);
        phase, handlerCalls := Done, handlerCalls + 1;
      } else if successInsertedIds == [] && successRemovedIds == [] {
        step := Report(exception);
        phase, handlerCalls := Done, handlerCalls + 1;
      } else {
        step := RollBack();
      }
    }

    /** The rollback branch of try_functor::check_finish: an erase per successful
        insert, then an insert per successful erase, each at that id's location. */
    method RollBack() returns (step: Step)
      requires phase == Trying && DiffTaken() && Wanted() && handlerCalls == 0 && finished == 0
      requires failures > 0 && exception.Some?
      requires |successInsertedIds| + |successRemovedIds| > 0
      modifies this`phase, this`insertsDone, this`removesDone
      ensures Valid() && phase == RollingBack && finished == 0
      ensures step == Issue(Writes(successInsertedIds, false) + Writes(successRemovedIds, true))
    {
      var removes := IssueAll(successInsertedIds, false);
      var inserts := IssueAll(successRemovedIds, true);
      step := Issue(removes + inserts);
      phase := RollingBack;
      insertsDone, removesDone := 0, 0;
    }

    /** The bookkeeping half of try_functor::operator()(write_result) for the CAS at
        `id` with flag `insert`: count the completion; a failure overwrites the held
        exception (on_fail), a success records the id among the successful inserts or
        erases. */
    method TryCount(insert: bool, id: RawId, result: Option<Error>)
      requires TryInvariant() && finished < |insertedIds| + |removedIds|
      requires if insert then insertsDone < |insertedIds| && id in Ids(insertedIds)
               else removesDone < |removedIds| && id in Ids(removedIds)
      modifies this`finished, this`exception, this`successInsertedIds, this`successRemovedIds,
        this`insertsDone, this`removesDone, this`failures
      ensures TryInvariant()
      ensures finished == old(finished) + 1 && finished <= |insertedIds| + |removedIds|
      ensures failures == old(failures) + (if result.Some? then 1 else 0)
      ensures insertsDone == old(insertsDone) + (if insert then 1 else 0)
      ensures removesDone == old(removesDone) + (if insert then 0 else 1)
      ensures result.Some? ==>
        exception == result
        && successInsertedIds == old(successInsertedIds) && successRemovedIds == old(successRemovedIds)
      ensures result.None? ==>
        exception == old(exception)
        && successInsertedIds == old(successInsertedIds) + (if insert then [id] else [])
        && successRemovedIds == old(successRemovedIds) + (if insert then [] else [id])
    {
      finished := finished + 1;
      if insert {
        insertsDone := insertsDone + 1;
      } else {
        removesDone := removesDone + 1;
      }
      if result.Some? {
        exception := result;
        failures := failures + 1;
      } else if insert {
        successInsertedIds := successInsertedIds + [id];
      } else {
        successRemovedIds := successRemovedIds + [id];
      }
    }

    /** try_functor::operator()(write_result): count the completion (TryCount), then
        check_finish decides. */
    method TryDone(insert: bool, id: RawId, result: Option<Error>) returns (step: Step)
      requires Valid() && phase == Trying
      requires if insert then insertsDone < |insertedIds| && id in Ids(insertedIds)
               else removesDone < |removedIds| && id in Ids(removedIds)
      modifies this`finished, this`exception, this`successInsertedIds, this`successRemovedIds, this`phase,
        this`insertsDone, this`removesDone, this`failures, this`handlerCalls
      ensures Valid()
      ensures handlerCalls == old(handlerCalls) + (if step.Report? then 1 else 0)
      ensures result.Some? ==>
        exception == result
        && successInsertedIds == old(successInsertedIds) && successRemovedIds == old(successRemovedIds)
      ensures result.None? ==>
        exception == old(exception)
        && successInsertedIds == old(successInsertedIds) + (if insert then [id] else [])
        && successRemovedIds == old(successRemovedIds) + (if insert then [] else [id])
      ensures old(finished) + 1 < |insertedIds| + |removedIds| ==>
        step == Wait && finished == old(finished) + 1 && phase == Trying
        && insertsDone == old(insertsDone) + (if insert then 1 else 0)
        && removesDone == old(removesDone) + (if insert then 0 else 1)
      ensures old(finished) + 1 == |insertedIds| + |removedIds| ==> finished == 0 && Concluded(step)
      ensures (step.Report? && step.error.None?) <==>
        (old(finished) + 1 == |insertedIds| + |removedIds| && failures == 0)
    {
      TryCount(insert, id, result);
      step := TryCheckFinish();
    }

    /** revert_functor::operator()(write_result): count the completion; a failure
        overwrites the held exception; the completion that brings `finished` to the
        number of compensations calls the handler with whatever exception is then held. */
    method RevertDone(insert: bool, id: RawId, result: Option<Error>) returns (step: Step)
      requires Valid() && phase == RollingBack
      requires if insert then insertsDone < |successRemovedIds| && id in successRemovedIds
               else removesDone < |successInsertedIds| && id in successInsertedIds
      modifies this`finished, this`exception, this`phase, this`insertsDone, this`removesDone, this`handlerCalls
      ensures Valid()
      ensures handlerCalls == old(handlerCalls) + (if step.Report? then 1 else 0)
      ensures finished == old(finished) + 1
      ensures exception == (if result.Some? then result else old(exception))
      ensures step == (if finished == |successInsertedIds| + |successRemovedIds| then Report(exception) else Wait)
      ensures step.Report? ==> step.error.Some? && phase == Done
      ensures step == Wait ==>
        phase == RollingBack
        && insertsDone == old(insertsDone) + (if insert then 1 else 0)
        && removesDone == old(removesDone) + (if insert then 0 else 1)
    {
      finished := finished + 1;
      if insert {
        insertsDone := insertsDone + 1;
      } else {
        removesDone := removesDone + 1;
      }
      if result.Some? {
        exception := result;
      }
      if finished != |successInsertedIds| + |successRemovedIds| {
        return Wait;
      }
      step := Report(exception);
      phase, handlerCalls := Done, handlerCalls + 1;
    }
  }
  /** A batch that changes one index each way, whose insert fails and whose erase
      succeeds: the first completion waits and the second rolls the erase back with
      an insert at the same location. */
  method PartialFailure(scope: UpdateScope, err: Error) returns (first: Step, second: Step)
    requires scope.Valid() && scope.phase == Trying && scope.finished == 0
    requires |scope.insertedIds| == 1 && |scope.removedIds| == 1
    modifies scope`finished, scope`exception, scope`successInsertedIds, scope`successRemovedIds, scope`phase,
      scope`insertsDone, scope`removesDone, scope`failures, scope`handlerCalls
    ensures first == Wait && second == Issue([Cas(scope.removedIds[0].index, true)])
    ensures scope.Valid() && scope.phase == RollingBack && scope.exception == Some(err)
    ensures scope.successInsertedIds == [] && scope.successRemovedIds == [scope.removedIds[0].index]
  {
    var inserted, removed := scope.insertedIds[0].index, scope.removedIds[0].index;
    assert Ids(scope.insertedIds) == [inserted] && Ids(scope.removedIds) == [removed];
    first := scope.TryDone(true, inserted, Some(err));
    second := scope.TryDone(false, removed, None);
    assert Writes([removed], true) == [Cas(removed, true)];
  }

  /** The rollback of PartialFailure: when the compensating insert succeeds, the
      handler is called once, with the failed insert's error. */
  method PartialFailureReported(scope: UpdateScope, err: Error) returns (third: Step)
    requires scope.Valid() && scope.phase == RollingBack && scope.exception == Some(err)
    requires scope.successInsertedIds == [] && |scope.successRemovedIds| == 1
    modifies scope`finished, scope`exception, scope`phase, scope`insertsDone, scope`removesDone, scope`handlerCalls
    ensures third == Report(Some(err)) && scope.phase == Done && scope.handlerCalls == 1
  {
    third := scope.RevertDone(true, scope.successRemovedIds[0], None);
  }
}
