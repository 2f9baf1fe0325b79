/**
 * The read-only store over decoded records: the records keyed by type, and
 * the complete and shortened local names derived from them once, when the
 * store is built.
 */
module AdRecordStores {
  import opened Wrappers
  import opened AdRecords
  import SparseArrays
  import ScanRecordParser
  import ScanRecordFacts

  /** `SparseArray.get`: the record stored under a key, or null. */
  function Get(records: map<int, AdRecord>, key: int): (r: Option<AdRecord>)
    ensures r.Some? <==> key in records
    ensures r.Some? ==> r.value == records[key]
  {
    if key in records then Some(records[key]) else None
  }

  /**
   * The static `getRecordDataAsString(AdRecord)`: a record's payload as text,
   * and "" for a null record. Text is kept as the payload's bytes.
   */
  function DataAsString(nameRecord: Option<AdRecord>): (text: seq<Byte>)
    ensures nameRecord.None? ==> text == []
    ensures nameRecord.Some? ==> text == nameRecord.value.data
  {
    match nameRecord
    case None => []
    case Some(r) => r.data
  }

  /** The fields of a store: the sparse array of records and the two derived names. */
  datatype Store = Store(records: map<int, AdRecord>, localNameComplete: seq<Byte>, localNameShort: seq<Byte>)
  {
    /** The names are the text of the local-name records the store holds. */
    predicate NamesAgree() {
      && localNameComplete == DataAsString(Get(records, CompleteLocalNameType))
      && localNameShort == DataAsString(Get(records, ShortLocalNameType))
    }
  }

  /** A store as built: its names were derived from its own records and are never recomputed. */
  type AdRecordStore = st: Store | st.NamesAgree() witness Store(map[], [], [])

  /**
   * The constructor from a sparse array: keeps the records and derives each
   * local name from the record of its type, or "" when there is none.
   */
  function New(adRecords: map<int, AdRecord>): (st: AdRecordStore)
    ensures st.records == adRecords
    ensures CompleteLocalNameType in adRecords ==> st.localNameComplete == adRecords[CompleteLocalNameType].data
    ensures CompleteLocalNameType !in adRecords ==> st.localNameComplete == []
    ensures ShortLocalNameType in adRecords ==> st.localNameShort == adRecords[ShortLocalNameType].data
    ensures ShortLocalNameType !in adRecords ==> st.localNameShort == []
  {
    Store(adRecords,
          DataAsString(Get(adRecords, CompleteLocalNameType)),
          DataAsString(Get(adRecords, ShortLocalNameType)))
  }

  /** `getRecord`: the record of a type, or null when the store has none. */
  function GetRecord(st: AdRecordStore, record: int): (r: Option<AdRecord>)
    ensures r.Some? <==> record in st.records
    ensures r.Some? ==> r.value == st.records[record]
  {
    Get(st.records, record)
  }

  /** `isRecordPresent`: whether the sparse array has the key; true exactly when `getRecord` is not null. */
  function IsRecordPresent(st: AdRecordStore, record: int): (present: bool)
    ensures present <==> GetRecord(st, record).Some?
  {
    record in st.records
  }

  /** `getRecordDataAsString(int)`: the payload of the record of a type, "" when it is absent. */
  function RecordDataAsString(st: AdRecordStore, record: int): (text: seq<Byte>)
    ensures !IsRecordPresent(st, record) ==> text == []
    ensures IsRecordPresent(st, record) ==> text == GetRecord(st, record).value.data
  {
    DataAsString(GetRecord(st, record))
  }

  /** `getLocalNameComplete`: the text of the complete-local-name record, "" when there is none. */
  function LocalNameComplete(st: AdRecordStore): (name: seq<Byte>)
    ensures name == RecordDataAsString(st, CompleteLocalNameType)
  {
    st.localNameComplete
  }

  /** `getLocalNameShort`: the text of the shortened-local-name record, "" when there is none. */
  function LocalNameShort(st: AdRecordStore): (name: seq<Byte>)
    ensures name == RecordDataAsString(st, ShortLocalNameType)
  {
    st.localNameShort
  }

  /**
   * `getRecordsAsCollection`: every stored record once, in the order of
   * their types; the list cannot be changed through the result.
   */
  method RecordsAsCollection(st: AdRecordStore) returns (all: seq<AdRecord>)
    ensures |all| == |st.records|
    ensures forall i :: 0 <= i < |all| ==> all[i] == st.records[SparseArrays.SortedKeys(st.records.Keys)[i]]
  {
    var list := SparseArrays.AsList(Some(st.records));
    return list.value;
  }

  /**
   * A store built from a decoded scan record holds each record under its own
   * type, and each local name is "" exactly when the input has no record of
   * its type or that record has an empty payload.
   */
  lemma DecodedStore(s: seq<Byte>, m: map<int, AdRecord>)
    requires ScanRecordParser.Decode(s) == Ok(m)
    ensures forall t :: IsRecordPresent(New(m), t) ==> GetRecord(New(m), t).value.adType == t && 1 <= t <= 255
    ensures LocalNameComplete(New(m)) == [] <==>
      (!IsRecordPresent(New(m), CompleteLocalNameType) || m[CompleteLocalNameType].length == 1)
    ensures LocalNameShort(New(m)) == [] <==>
      (!IsRecordPresent(New(m), ShortLocalNameType) || m[ShortLocalNameType].length == 1)
  {
    ScanRecordFacts.DecodedRecords(s, m);
    forall t | t in m ensures |m[t].data| == m[t].length - 1 {
      var at: nat :| ScanRecordParser.RecordAt(s, at, m[t]);
    }
  }

  /**
   * End to end: the complete local name of a store built from a decoded scan
   * record is the payload of the last type-0x09 structure of the input (and
   * likewise the short name for the last type-0x08 structure).
   */
  lemma DecodedNames(s: seq<Byte>, m: map<int, AdRecord>, j: nat)
    requires ScanRecordParser.Decode(s) == Ok(m)
    requires ScanRecordFacts.Structures(s, 0).Ok? && j < |ScanRecordFacts.Structures(s, 0).value|
    requires forall i :: j < i < |ScanRecordFacts.Structures(s, 0).value| ==>
      ScanRecordFacts.Structures(s, 0).value[i].record.adType != ScanRecordFacts.Structures(s, 0).value[j].record.adType
    ensures ScanRecordFacts.Structures(s, 0).value[j].record.adType == CompleteLocalNameType ==>
      LocalNameComplete(New(m)) == ScanRecordFacts.Structures(s, 0).value[j].record.data
    ensures ScanRecordFacts.Structures(s, 0).value[j].record.adType == ShortLocalNameType ==>
      LocalNameShort(New(m)) == ScanRecordFacts.Structures(s, 0).value[j].record.data
  {
    ScanRecordFacts.DecodeLastWriteWins(s, m, j);
  }

  /** The stores built from decoding the worked examples: a complete name "AB", and a short name "C" alone. */
  lemma StoreExamples()
    ensures var st := New(ScanRecordParser.Decode([0x03, 0x09, 0x41, 0x42, 0x00]).value);
      LocalNameComplete(st) == [0x41, 0x42] && LocalNameShort(st) == []
    ensures var st := New(ScanRecordParser.Decode([0x02, 0x08, 0x43, 0x00]).value);
      LocalNameShort(st) == [0x43] && LocalNameComplete(st) == [] && RecordDataAsString(st, 0x09) == []
  {
  }
}
