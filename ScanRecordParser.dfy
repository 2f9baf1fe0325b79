/**
 * The decoder of a BLE scan record: a walk over length/type/payload
 * structures (the AD structures of the Bluetooth Core Specification,
 * Vol 3, Part C, section 11) that collects the records into a sparse array
 * keyed by type.
 */
module ScanRecordParser {
  import opened Wrappers
  import opened AdRecords

  /** The two exceptions the decoder can throw. */
  datatype ParseError =
    | ArrayIndexOutOfBounds(index: int)
    | IllegalArgument(from: int, to: int)

  /** `n` zero bytes, the padding `Arrays.copyOfRange` adds past the end of its source. */
  function Zeros(n: nat): (z: seq<Byte>)
    ensures |z| == n
    ensures forall i :: 0 <= i < n ==> z[i] == 0
  {
    if n == 0 then [] else [0] + Zeros(n - 1)
  }

  /**
   * `Arrays.copyOfRange(s, from, to)`: fails when `from > to`, then when
   * `from` lies outside `0..|s|`; otherwise a copy of exactly `to - from`
   * bytes, zero-filled where the range runs past the end of `s`.
   */
  function CopyOfRange(s: seq<Byte>, from: int, to: int): (r: Result<seq<Byte>, ParseError>)
    ensures r.Err? <==> from > to || from < 0 || from > |s|
    ensures from > to ==> r == Err(IllegalArgument(from, to))
    ensures r.Ok? ==> |r.value| == to - from
    ensures r.Ok? ==> forall i :: 0 <= i < |r.value| ==> r.value[i] == (if from + i < |s| then s[from + i] else 0)
  {
    if from > to then Err(IllegalArgument(from, to))
    else if from < 0 || from > |s| then Err(ArrayIndexOutOfBounds(from))
    else
      var end := if to <= |s| then to else |s|;
      Ok(s[from..end] + Zeros(to - end))
  }

  /**
   * What a record built at the length byte `at` of `s` looks like: its length
   * is that byte (1..127), its type the next byte (1..255), and its payload the
   * `length - 1` bytes after the type byte, zero where they lie past the end.
   */
  ghost predicate RecordAt(s: seq<Byte>, at: nat, rec: AdRecord) {
    && at + 1 < |s|
    && rec.length == Signed(s[at]) && 1 <= rec.length <= 127
    && rec.adType == s[at + 1] as int && 1 <= rec.adType <= 255
    && |rec.data| == rec.length - 1
    && forall i :: 0 <= i < |rec.data| ==> rec.data[i] == (if at + 2 + i < |s| then s[at + 2 + i] else 0)
  }

  /** The outcome of one pass of the decoding loop. */
  datatype Step =
    | Stop
    | Fail(error: ParseError)
    | Store(record: AdRecord, next: int)

  /** One pass of the loop, entered with the cursor on the length byte at `index`. */
  function StepAt(s: seq<Byte>, index: nat): (r: Step)
    requires index < |s|
    ensures r.Stop? <==> s[index] == 0 || (index + 1 < |s| && s[index + 1] == 0)
    ensures r.Fail? <==> s[index] != 0 && (index + 1 == |s| || (s[index + 1] != 0 && s[index] >= 0x80))
    ensures r.Fail? && index + 1 == |s| ==> r.error == ArrayIndexOutOfBounds(|s|)
    ensures r.Fail? && index + 1 < |s| ==> r.error == IllegalArgument(index + 2, index + 1 + Signed(s[index]))
    ensures r.Store? ==> RecordAt(s, index, r.record) && r.next == index + 1 + r.record.length
  {
    var length := Signed(s[index]);
    if length == 0 then Stop
    else if index + 1 >= |s| then Fail(ArrayIndexOutOfBounds(index + 1))
    else
      var adType := s[index + 1] as int;
      if adType == 0 then Stop
      else match CopyOfRange(s, index + 2, index + 1 + length)
        case Err(e) => Fail(e)
        case Ok(data) => Store(AdRecord(length, adType, data), index + 1 + length)
  }

  /** The loop from the length byte at `index` on, with `records` decoded so far. */
  function Walk(s: seq<Byte>, index: nat, records: map<int, AdRecord>): Result<map<int, AdRecord>, ParseError>
    decreases |s| - index
  {
    if index >= |s| then Ok(records)
    else match StepAt(s, index)
      case Stop => Ok(records)
      case Fail(e) => Err(e)
      case Store(rec, next) => Walk(s, next, records[rec.adType := rec])
  }

  /** The records a whole scan record decodes to, or the exception decoding it throws. */
  function Decode(scanRecord: seq<Byte>): Result<map<int, AdRecord>, ParseError> {
    Walk(scanRecord, 0, map[])
  }

  /** `parseScanRecordAsSparseArray`: the decoding loop itself. */
  method ParseScanRecordAsSparseArray(scanRecord: array<Byte>) returns (r: Result<map<int, AdRecord>, ParseError>)
    ensures r == Decode(scanRecord[..])
  {
    var records: map<int, AdRecord> := map[];
    var index := 0;
    while index < scanRecord.Length
      invariant 0 <= index
      invariant Walk(scanRecord[..], index, records) == Decode(scanRecord[..])
      decreases scanRecord.Length - index
    {
      ghost var start := index;
      var length := Signed(scanRecord[index]);
      index := index + 1;
      // a zero length byte ends the records
      if length == 0 {
        break;
      }
      if index >= scanRecord.Length {
        return Err(ArrayIndexOutOfBounds(index));
      }
      var adType := scanRecord[index] as int;
      // type 0 is not a valid type and ends the records as well
      if adType == 0 {
        break;
      }
      var data := CopyOfRange(scanRecord[..], index + 1, index + length);
      if data.Err? {
        return Err(data.error);
      }
      records := records[adType := AdRecord(length, adType, data.value)];
      index := index + length;
    }
    return Ok(records);
  }
}
