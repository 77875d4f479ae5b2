/** The msgpack converters for dnet_raw_id, data_pointer, index_entry and dnet_indexes.
    Byte-level packing lives in the msgpack library and is not modelled: a record is
    mapped to and from msgpack's object tree. */
module Codec {
  import opened Wrappers
  import opened Entries

  /** The msgpack object tree, reduced to the kinds the converters tell apart
      (positive and negative integers are one Int kind here). */
  datatype Object = Nil | Boolean(b: bool) | Int(i: int) | Raw(bytes: seq<Byte>) | Array(elems: seq<Object>)

  /** A dnet_indexes record: the entries and the list of friend ids. */
  datatype Record = Record(entries: seq<Entry>, friends: seq<RawId>)

  /** The bytes of a data_pointer as msgpack::unpack sees them: no bytes at all,
      the packing of an object, or bytes it cannot unpack. */
  datatype Blob = Empty | Packed(obj: Object) | Malformed

  /** The only record version there is. */
  const VERSION: int := 1

  // ---------------------------------------------------------------------------
  // Packing (operator<<)

  function EncodeEntry(e: Entry): Object
  {
    Array([Raw(e.index), Raw(e.data)])
  }

  function EncodeEntries(s: seq<Entry>): (r: seq<Object>)
    ensures |r| == |s|
  {
    if s == [] then [] else [EncodeEntry(s[0])] + EncodeEntries(s[1..])
  }

  function EncodeIds(s: seq<RawId>): (r: seq<Object>)
    ensures |r| == |s|
  {
    if s == [] then [] else [Raw(s[0])] + EncodeIds(s[1..])
  }

  /** [1, entries, friends]. */
  function EncodeRecord(r: Record): Object
  {
    Array([Int(VERSION), Array(EncodeEntries(r.entries)), Array(EncodeIds(r.friends))])
  }

  // ---------------------------------------------------------------------------
  // Conversion (operator>>); every failure is msgpack::type_error

  /** A dnet_raw_id must be raw and exactly ID_SIZE bytes long. */
  function DecodeId(o: Object): Result<RawId>
  {
    if o.Raw? && |o.bytes| == ID_SIZE then Ok(o.bytes) else Err(TypeError)
  }

  /** A data_pointer must be raw; an empty raw gives an empty data_pointer. */
  function DecodeData(o: Object): Result<seq<Byte>>
  {
    if o.Raw? then Ok(if |o.bytes| == 0 then [] else o.bytes) else Err(TypeError)
  }

  /** An index_entry must be a 2-element array [id, payload]. */
  function DecodeEntry(o: Object): Result<Entry>
  {
    if !o.Array? || |o.elems| != 2 then Err(TypeError)
    else
      match DecodeId(o.elems[0])
      case Err(e) => Err(e)
      case Ok(id) =>
        match DecodeData(o.elems[1])
        case Err(e) => Err(e)
        case Ok(data) => Ok(Entry(id, data))
  }

  /** The elements of a std::vector<index_entry>, converted in order. */
  function DecodeEntries(os: seq<Object>): (r: Result<seq<Entry>>)
    ensures r.Ok? ==> |r.value| == |os|
  {
    if os == [] then Ok([])
    else
      match DecodeEntry(os[0])
      case Err(e) => Err(e)
      case Ok(head) =>
        match DecodeEntries(os[1..])
        case Err(e) => Err(e)
        case Ok(tail) => Ok([head] + tail)
  }

  /** The elements of a std::vector<dnet_raw_id>, converted in order. */
  function DecodeIds(os: seq<Object>): (r: Result<seq<RawId>>)
    ensures r.Ok? ==> |r.value| == |os|
  {
    if os == [] then Ok([])
    else
      match DecodeId(os[0])
      case Err(e) => Err(e)
      case Ok(head) =>
        match DecodeIds(os[1..])
        case Err(e) => Err(e)
        case Ok(tail) => Ok([head] + tail)
  }

  /** The uint16_t version: an integer that fits in 16 unsigned bits. */
  function DecodeVersion(o: Object): Result<int>
  {
    if o.Int? && 0 <= o.i < 0x1_0000 then Ok(o.i) else Err(TypeError)
  }

  /** dnet_indexes: a non-empty array whose first element is the version; version 1
      needs exactly three elements, [1, entries, friends]; any other version fails. */
  function DecodeRecord(o: Object): Result<Record>
  {
    if !o.Array? || |o.elems| < 1 then Err(TypeError)
    else
      match DecodeVersion(o.elems[0])
      case Err(e) => Err(e)
      case Ok(version) =>
        if version != VERSION then Err(TypeError)
        else if |o.elems| != 3 then Err(TypeError)
        else if !o.elems[1].Array? then Err(TypeError)
        else
          match DecodeEntries(o.elems[1].elems)
          case Err(e) => Err(e)
          case Ok(entries) =>
            if !o.elems[2].Array? then Err(TypeError)
            else
              match DecodeIds(o.elems[2].elems)
              case Err(e) => Err(e)
              case Ok(friends) => Ok(Record(entries, friends))
  }

  /** indexes_unpack: unpack the bytes, then convert. Empty or unparsable bytes fail
      in msgpack::unpack. */
  function Unpack(b: Blob): Result<Record>
  {
    match b
    case Packed(o) => DecodeRecord(o)
    case _ => Err(UnpackError)
  }

  // ---------------------------------------------------------------------------
  // Round trip

  lemma {:induction false} EntriesRoundTrip(s: seq<Entry>)
    ensures DecodeEntries(EncodeEntries(s)) == Ok(s)
  {
    if s != [] {
      EntriesRoundTrip(s[1..]);
      assert EncodeEntries(s)[1..] == EncodeEntries(s[1..]);
      assert [s[0]] + s[1..] == s;
    }
  }

  lemma {:induction false} IdsRoundTrip(s: seq<RawId>)
    ensures DecodeIds(EncodeIds(s)) == Ok(s)
  {
    if s != [] {
      IdsRoundTrip(s[1..]);
      assert EncodeIds(s)[1..] == EncodeIds(s[1..]);
      assert [s[0]] + s[1..] == s;
    }
  }

  /** Decoding a packed record gives back its entries and friends. */
  lemma RecordRoundTrip(r: Record)
    ensures DecodeRecord(EncodeRecord(r)) == Ok(r)
    ensures Unpack(Packed(EncodeRecord(r))) == Ok(r)
  {
    EntriesRoundTrip(r.entries);
    IdsRoundTrip(r.friends);
  }

  lemma EntryCanonical(o: Object)
    requires DecodeEntry(o).Ok?
    ensures EncodeEntry(DecodeEntry(o).value) == o
  {
    assert o.elems == [o.elems[0], o.elems[1]];
  }

  lemma {:induction false} EntriesCanonical(os: seq<Object>)
    requires DecodeEntries(os).Ok?
    ensures EncodeEntries(DecodeEntries(os).value) == os
  {
    if os != [] {
      var head, tail := DecodeEntry(os[0]).value, DecodeEntries(os[1..]).value;
      assert DecodeEntries(os).value == [head] + tail;
      EntryCanonical(os[0]);
      EntriesCanonical(os[1..]);
      assert ([head] + tail)[1..] == tail;
      assert os == [os[0]] + os[1..];
    }
  }

  lemma {:induction false} IdsCanonical(os: seq<Object>)
    requires DecodeIds(os).Ok?
    ensures EncodeIds(DecodeIds(os).value) == os
  {
    if os != [] {
      IdsCanonical(os[1..]);
      assert DecodeIds(os).value[1..] == DecodeIds(os[1..]).value;
      assert os == [os[0]] + os[1..];
    }
  }

  /** Only packed records decode: whatever decodes is the packing of what it decodes to. */
  lemma RecordCanonical(o: Object)
    requires DecodeRecord(o).Ok?
    ensures EncodeRecord(DecodeRecord(o).value) == o
  {
    EntriesCanonical(o.elems[1].elems);
    IdsCanonical(o.elems[2].elems);
    assert o.elems == [o.elems[0], o.elems[1], o.elems[2]];
  }

  /** Decoding succeeds exactly on the packings of records. */
  lemma DecodeSucceedsIffPacked(o: Object)
    ensures DecodeRecord(o).Ok? <==> exists r :: EncodeRecord(r) == o
  {
    if DecodeRecord(o).Ok? {
      RecordCanonical(o);
    }
    if r :| EncodeRecord(r) == o {
      RecordRoundTrip(r);
    }
  }

  // ---------------------------------------------------------------------------
  // Rejections

  /** Each malformed shape of the envelope is rejected with a type error. */
  lemma DecodeRejectsEnvelope(o: Object)
    ensures !o.Array? ==> DecodeRecord(o) == Err(TypeError)
    ensures o == Array([]) ==> DecodeRecord(o) == Err(TypeError)
    ensures o.Array? && |o.elems| >= 1 && o.elems[0].Int? && o.elems[0].i != VERSION
      ==> DecodeRecord(o) == Err(TypeError)
    ensures o.Array? && |o.elems| >= 1 && !o.elems[0].Int? ==> DecodeRecord(o) == Err(TypeError)
    ensures o.Array? && |o.elems| >= 1 && o.elems[0] == Int(VERSION) && |o.elems| != 3
      ==> DecodeRecord(o) == Err(TypeError)
  {
  }

  /** An entry is accepted exactly when it is [raw of ID_SIZE bytes, raw]. */
  lemma DecodeEntryMeaning(o: Object)
    ensures DecodeEntry(o).Ok? <==>
      o.Array? && |o.elems| == 2 && o.elems[0].Raw? && |o.elems[0].bytes| == ID_SIZE && o.elems[1].Raw?
    ensures DecodeEntry(o).Err? ==> DecodeEntry(o).error == TypeError
  {
  }

  /** One malformed entry anywhere in the list makes the whole record fail. */
  lemma {:induction false} DecodeEntriesRejects(os: seq<Object>, k: nat)
    requires k < |os| && DecodeEntry(os[k]).Err?
    ensures DecodeEntries(os) == Err(TypeError)
  {
    if k > 0 && DecodeEntry(os[0]).Ok? {
      DecodeEntriesRejects(os[1..], k - 1);
    }
  }

  /** One malformed friend id anywhere in the list makes the whole record fail. */
  lemma {:induction false} DecodeIdsRejects(os: seq<Object>, k: nat)
    requires k < |os| && DecodeId(os[k]).Err?
    ensures DecodeIds(os) == Err(TypeError)
  {
    if k > 0 && DecodeId(os[0]).Ok? {
      DecodeIdsRejects(os[1..], k - 1);
    }
  }

  /** A version-1 envelope of the right size fails when one of its entries is malformed. */
  lemma DecodeRejectsEntry(o: Object, k: nat)
    requires o.Array? && |o.elems| == 3 && o.elems[0] == Int(VERSION) && o.elems[1].Array?
    requires k < |o.elems[1].elems| && DecodeEntry(o.elems[1].elems[k]).Err?
    ensures DecodeRecord(o) == Err(TypeError)
  {
    DecodeEntriesRejects(o.elems[1].elems, k);
  }
}
