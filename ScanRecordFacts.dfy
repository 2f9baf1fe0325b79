/**
 * What the decoder guarantees: the records it produces as a sequence of AD
 * structures laid end to end, last-write-wins storage by type, where it stops,
 * and exactly which inputs make it throw.
 */
module ScanRecordFacts {
  import opened Wrappers
  import opened AdRecords
  import opened ScanRecordParser

  /** A record together with the index of the length byte it was read from. */
  datatype Located = Located(at: nat, record: AdRecord)

  /** The records the loop builds from `index` on, in the order it builds them. */
  function Structures(s: seq<Byte>, index: nat): Result<seq<Located>, ParseError>
    decreases |s| - index
  {
    if index >= |s| then Ok([])
    else match StepAt(s, index)
      case Stop => Ok([])
      case Fail(e) => Err(e)
      case Store(rec, next) =>
        match Structures(s, next)
        case Err(e) => Err(e)
        case Ok(rest) => Ok([Located(index, rec)] + rest)
  }

  /** `records` after putting each located record under its type, first to last. */
  function Apply(records: map<int, AdRecord>, located: seq<Located>): map<int, AdRecord>
    decreases |located|
  {
    if located == [] then records
    else Apply(records[located[0].record.adType := located[0].record], located[1..])
  }

  /** The types of a sequence of records. */
  function Types(located: seq<Located>): set<int> {
    set l | l in located :: l.record.adType
  }

  /** The loop's accumulating map is the fold of its structure sequence. */
  lemma {:induction false} WalkIsFold(s: seq<Byte>, index: nat, records: map<int, AdRecord>)
    ensures Walk(s, index, records) ==
      match Structures(s, index)
      case Ok(located) => Ok(Apply(records, located))
      case Err(e) => Err(e)
    decreases |s| - index
  {
    if index < |s| {
      match StepAt(s, index)
      case Stop =>
      case Fail(e) =>
      case Store(rec, next) =>
        WalkIsFold(s, next, records[rec.adType := rec]);
        match Structures(s, next)
        case Err(e) =>
        case Ok(rest) =>
          assert ([Located(index, rec)] + rest)[1..] == rest;
    }
  }

  /**
   * The structures lie end to end from `index`: the first starts there, each
   * next one starts `1 + length` after the previous (so the cursor always moves
   * forward), and each is a well-formed record read at its own position.
   */
  lemma {:induction false} StructuresShape(s: seq<Byte>, index: nat, located: seq<Located>)
    requires Structures(s, index) == Ok(located)
    ensures |located| > 0 ==> located[0].at == index
    ensures forall j :: 0 < j < |located| ==> located[j].at == located[j - 1].at + 1 + located[j - 1].record.length
    ensures forall j :: 0 <= j < |located| ==> index <= located[j].at < |s| - 1 && RecordAt(s, located[j].at, located[j].record)
    decreases |s| - index
  {
    if index < |s| {
      match StepAt(s, index)
      case Stop =>
      case Fail(e) =>
      case Store(rec, next) =>
        var rest := located[1..];
        assert Structures(s, next) == Ok(rest);
        StructuresShape(s, next, rest);
    }
  }

  /** Folding a concatenation is folding its parts one after the other. */
  lemma {:induction false} ApplyConcat(records: map<int, AdRecord>, a: seq<Located>, b: seq<Located>)
    ensures Apply(records, a + b) == Apply(Apply(records, a), b)
    decreases |a|
  {
    if a != [] {
      var next := records[a[0].record.adType := a[0].record];
      assert a + b != [] && (a + b)[0] == a[0] && (a + b)[1..] == a[1..] + b;
      assert Apply(records, a + b) == Apply(next, a[1..] + b);
      ApplyConcat(next, a[1..], b);
    } else {
      assert a + b == b;
    }
  }

  /** The fold holds exactly the keys already present plus the types it put. */
  lemma {:induction false} ApplyKeys(records: map<int, AdRecord>, located: seq<Located>)
    ensures Apply(records, located).Keys == records.Keys + Types(located)
    decreases |located|
  {
    if located != [] {
      ApplyKeys(records[located[0].record.adType := located[0].record], located[1..]);
      assert Types(located) == {located[0].record.adType} + Types(located[1..]) by {
        assert forall l :: l in located <==> l == located[0] || l in located[1..];
      }
    }
  }

  /** Records put later never touch a key they do not carry. */
  lemma {:induction false} ApplyUntouched(records: map<int, AdRecord>, located: seq<Located>, k: int)
    requires k in records
    requires forall j :: 0 <= j < |located| ==> located[j].record.adType != k
    ensures k in Apply(records, located) && Apply(records, located)[k] == records[k]
    decreases |located|
  {
    if located != [] {
      ApplyUntouched(records[located[0].record.adType := located[0].record], located[1..], k);
    }
  }

  /**
   * Last write wins: a record put under its type is what the fold holds for
   * that type when none of the records after it share the type.
   */
  lemma LastWriteWins(records: map<int, AdRecord>, before: seq<Located>, l: Located, after: seq<Located>)
    requires forall j :: 0 <= j < |after| ==> after[j].record.adType != l.record.adType
    ensures l.record.adType in Apply(records, before + [l] + after)
    ensures Apply(records, before + [l] + after)[l.record.adType] == l.record
  {
    ApplyConcat(records, before + [l], after);
    ApplyConcat(records, before, [l]);
    var m := Apply(records, before);
    assert Apply(m, [l]) == Apply(m[l.record.adType := l.record], []);
    ApplyUntouched(Apply(records, before + [l]), after, l.record.adType);
  }

  /** Every value the fold adds is one of the located records, stored under its own type. */
  lemma {:induction false} ApplyValues(records: map<int, AdRecord>, located: seq<Located>, k: int)
    requires k in Apply(records, located)
    ensures (k in records && Apply(records, located)[k] == records[k])
         || exists j :: 0 <= j < |located| && located[j].record == Apply(records, located)[k] && located[j].record.adType == k
    decreases |located|
  {
    if located != [] {
      var head := located[0];
      var next := records[head.record.adType := head.record];
      ApplyValues(next, located[1..], k);
      var r := Apply(records, located);
      if k in next && r[k] == next[k] {
        if k == head.record.adType {
          assert located[0].record == r[k];
        }
      } else {
        var j :| 0 <= j < |located[1..]| && located[1..][j].record == r[k] && located[1..][j].record.adType == k;
        assert located[j + 1].record == r[k];
      }
    }
  }

  /** Decoding an empty scan record, or one whose first length byte is 0, gives no records. */
  lemma DecodeEmpty(tail: seq<Byte>)
    ensures Decode([]) == Ok(map[])
    ensures Decode([0] + tail) == Ok(map[])
  {
  }

  /**
   * A nonzero length byte followed by type 0 ends decoding: the records
   * decoded before it are the result, and no byte after it is ever read.
   */
  lemma TypeZeroStops(s: seq<Byte>, index: nat, records: map<int, AdRecord>)
    requires index + 1 < |s| && s[index] != 0 && s[index + 1] == 0
    ensures forall tail :: Walk(s + tail, index, records) == Ok(records)
  {
  }

  /**
   * The walk from `index` ends on a terminator (a zero length byte or a zero
   * type byte) inside `s`, every record before it lying wholly inside `s`.
   */
  ghost predicate EndsWithin(s: seq<Byte>, index: nat)
    decreases |s| - index
  {
    && index < |s|
    && match StepAt(s, index)
       case Stop => true
       case Fail(_) => false
       case Store(_, next) => next <= |s| && EndsWithin(s, next)
  }

  /** Copying a range that lies inside `s` does not see what follows `s`. */
  lemma CopyIgnoresTail(s: seq<Byte>, tail: seq<Byte>, from: int, to: int)
    requires 0 <= from <= to <= |s|
    ensures CopyOfRange(s + tail, from, to) == CopyOfRange(s, from, to)
  {
    assert (s + tail)[from..to] == s[from..to];
  }

  /** Nothing after the terminator is read: bytes appended after it change nothing. */
  lemma {:induction false} SuffixNeverRead(s: seq<Byte>, tail: seq<Byte>, index: nat, records: map<int, AdRecord>)
    requires EndsWithin(s, index)
    ensures Walk(s + tail, index, records) == Walk(s, index, records)
    decreases |s| - index
  {
    var t := s + tail;
    assert t[index] == s[index];
    if index + 1 < |s| {
      assert t[index + 1] == s[index + 1];
    }
    match StepAt(s, index)
    case Stop =>
    case Fail(_) =>
    case Store(rec, next) =>
      var length := Signed(s[index]);
      CopyIgnoresTail(s, tail, index + 2, index + 1 + length);
      assert StepAt(t, index) == StepAt(s, index);
      SuffixNeverRead(s, tail, next, records[rec.adType := rec]);
  }

  /** A length byte that makes the loop throw when the walk reaches it. */
  ghost predicate BadLengthByte(s: seq<Byte>, i: int) {
    && 0 <= i < |s|
    && s[i] != 0
    && (i + 1 == |s| || (s[i] >= 0x80 && s[i + 1] != 0))
  }

  /**
   * Exactly two kinds of input throw: a nonzero length byte in the last position
   * (the type read is out of bounds), and a negative length byte followed by a
   * nonzero type (the copy range is reversed). The error names that byte.
   */
  lemma {:induction false} WalkErrors(s: seq<Byte>, index: nat, records: map<int, AdRecord>, e: ParseError)
    requires Walk(s, index, records) == Err(e)
    ensures e.ArrayIndexOutOfBounds? ==> e.index == |s| && BadLengthByte(s, |s| - 1)
    ensures e.IllegalArgument? ==>
      && index + 2 <= e.from <= |s| && BadLengthByte(s, e.from - 2) && s[e.from - 2] >= 0x80
      && e.to == e.from - 1 + Signed(s[e.from - 2]) && e.to < e.from
    decreases |s| - index
  {
    match StepAt(s, index)
    case Stop =>
    case Fail(_) =>
    case Store(rec, next) =>
      WalkErrors(s, next, records[rec.adType := rec], e);
  }

  /** The walk from `index` reads a length byte at `i`: `index` itself, or one of the records it stores leads there. */
  ghost predicate Visits(s: seq<Byte>, index: nat, i: nat)
    decreases |s| - index
  {
    && index < |s|
    && (i == index ||
        match StepAt(s, index)
        case Store(_, next) => Visits(s, next, i)
        case _ => false)
  }

  /**
   * Decoding throws exactly when the walk reads a bad length byte: a nonzero
   * last byte, or a negative length followed by a nonzero type. Bytes that
   * look bad inside a payload are never read as lengths and do no harm.
   */
  lemma {:induction false} WalkFailsExactly(s: seq<Byte>, index: nat, records: map<int, AdRecord>)
    ensures Walk(s, index, records).Err? <==> exists i: nat :: Visits(s, index, i) && BadLengthByte(s, i)
    decreases |s| - index
  {
    if index >= |s| {
      assert forall i: nat :: !Visits(s, index, i);
    } else {
      match StepAt(s, index)
      case Stop =>
        assert forall i: nat :: Visits(s, index, i) ==> i == index;
      case Fail(_) =>
        assert Visits(s, index, index) && BadLengthByte(s, index);
      case Store(rec, next) =>
        WalkFailsExactly(s, next, records[rec.adType := rec]);
        assert !BadLengthByte(s, index);
        assert forall i: nat :: Visits(s, index, i) <==> i == index || Visits(s, next, i);
    }
  }

  /** A UTF-8 name "é": its payload byte 0xC3 looks like a bad length byte but is never read as one. */
  lemma PayloadByteNotALength()
    ensures Decode([0x03, 0x09, 0xC3, 0xA9, 0x00]) == Ok(map[0x09 := AdRecord(3, 0x09, [0xC3, 0xA9])])
    ensures BadLengthByte([0x03, 0x09, 0xC3, 0xA9, 0x00], 2)
  {
    var s: seq<Byte> := [0x03, 0x09, 0xC3, 0xA9, 0x00];
    var rec := AdRecord(3, 0x09, [0xC3, 0xA9]);
    assert s[2..4] == [0xC3, 0xA9] && Zeros(0) == [];
    assert CopyOfRange(s, 2, 4).value == [0xC3, 0xA9];
    assert StepAt(s, 0) == Store(rec, 4);
    assert Walk(s, 4, map[0x09 := rec]) == Ok(map[0x09 := rec]);
  }

  /**
   * The decoded map, seen through the structures: its keys are exactly the
   * types that occur, each record is stored under its own type, and it is a
   * well-formed record read at some length byte of the input.
   */
  lemma DecodedRecords(s: seq<Byte>, m: map<int, AdRecord>)
    requires Decode(s) == Ok(m)
    ensures Structures(s, 0).Ok? && m == Apply(map[], Structures(s, 0).value)
    ensures m.Keys == Types(Structures(s, 0).value)
    ensures forall k :: k in m ==> m[k].adType == k && 1 <= k <= 255
    ensures forall k :: k in m ==> exists at: nat :: RecordAt(s, at, m[k])
  {
    WalkIsFold(s, 0, map[]);
    var located := Structures(s, 0).value;
    StructuresShape(s, 0, located);
    ApplyKeys(map[], located);
    forall k | k in m ensures m[k].adType == k && 1 <= k <= 255 && exists at: nat :: RecordAt(s, at, m[k]) {
      ApplyValues(map[], located, k);
      var j :| 0 <= j < |located| && located[j].record == m[k] && located[j].record.adType == k;
      assert RecordAt(s, located[j].at, m[k]);
    }
  }

  /**
   * Last write wins in the decoded map: the record stored under a type is the
   * last structure of the input with that type.
   */
  lemma DecodeLastWriteWins(s: seq<Byte>, m: map<int, AdRecord>, j: nat)
    requires Decode(s) == Ok(m)
    requires Structures(s, 0).Ok? && j < |Structures(s, 0).value|
    requires forall i :: j < i < |Structures(s, 0).value| ==>
      Structures(s, 0).value[i].record.adType != Structures(s, 0).value[j].record.adType
    ensures Structures(s, 0).value[j].record.adType in m
    ensures m[Structures(s, 0).value[j].record.adType] == Structures(s, 0).value[j].record
  {
    var located := Structures(s, 0).value;
    DecodedRecords(s, m);
    var after := located[j + 1..];
    assert located == located[..j] + [located[j]] + after;
    LastWriteWins(map[], located[..j], located[j], after);
  }

  /** A complete local name: one record of type 0x09 with payload "AB". */
  lemma CompleteNameExample()
    ensures Decode([0x03, 0x09, 0x41, 0x42, 0x00]) == Ok(map[0x09 := AdRecord(3, 0x09, [0x41, 0x42])])
  {
    var s: seq<Byte> := [0x03, 0x09, 0x41, 0x42, 0x00];
    var rec := AdRecord(3, 0x09, [0x41, 0x42]);
    assert s[2..4] == [0x41, 0x42] && Zeros(0) == [];
    assert CopyOfRange(s, 2, 4).value == [0x41, 0x42];
    assert StepAt(s, 0) == Store(rec, 4);
    assert Walk(s, 4, map[0x09 := rec]) == Ok(map[0x09 := rec]);
  }

  /** A shortened local name: one record of type 0x08 with payload "C". */
  lemma ShortNameExample()
    ensures Decode([0x02, 0x08, 0x43, 0x00]) == Ok(map[0x08 := AdRecord(2, 0x08, [0x43])])
  {
    var s: seq<Byte> := [0x02, 0x08, 0x43, 0x00];
    var rec := AdRecord(2, 0x08, [0x43]);
    assert s[2..3] == [0x43] && Zeros(0) == [];
    assert CopyOfRange(s, 2, 3).value == [0x43];
    assert StepAt(s, 0) == Store(rec, 3);
    assert Walk(s, 3, map[0x08 := rec]) == Ok(map[0x08 := rec]);
  }

  /** A declared length that overruns the buffer yields a zero-filled payload, not an error. */
  lemma OverrunExample()
    ensures Decode([0x05, 0x09, 0x41]) == Ok(map[0x09 := AdRecord(5, 0x09, [0x41, 0x00, 0x00, 0x00])])
  {
    var s: seq<Byte> := [0x05, 0x09, 0x41];
    var rec := AdRecord(5, 0x09, [0x41, 0x00, 0x00, 0x00]);
    assert s[2..3] == [0x41] && Zeros(3) == [0x00, 0x00, 0x00];
    assert CopyOfRange(s, 2, 6).value == [0x41, 0x00, 0x00, 0x00];
    assert StepAt(s, 0) == Store(rec, 6);
  }

  /** Two records of one type: the later replaces the earlier. */
  lemma DuplicateTypeExample()
    ensures Decode([0x02, 0x09, 0x41, 0x02, 0x09, 0x42]) == Ok(map[0x09 := AdRecord(2, 0x09, [0x42])])
  {
    var s: seq<Byte> := [0x02, 0x09, 0x41, 0x02, 0x09, 0x42];
    var first := AdRecord(2, 0x09, [0x41]);
    var second := AdRecord(2, 0x09, [0x42]);
    assert s[2..3] == [0x41] && Zeros(0) == [];
    assert CopyOfRange(s, 2, 3).value == [0x41];
    assert s[5..6] == [0x42] && Zeros(0) == [];
    assert CopyOfRange(s, 5, 6).value == [0x42];
    assert StepAt(s, 0) == Store(first, 3);
    assert StepAt(s, 3) == Store(second, 6);
    assert map[0x09 := first][0x09 := second] == map[0x09 := second];
  }

  /** The two failures: a nonzero last length byte, and a negative length before a nonzero type. */
  lemma ErrorExamples()
    ensures Decode([0x02, 0x09, 0x41, 0x02]) == Err(ArrayIndexOutOfBounds(4))
    ensures Decode([0xFF, 0x09, 0x41]) == Err(IllegalArgument(2, 0))
    ensures Decode([0xFF, 0x00, 0x41]) == Ok(map[])
  {
    var s: seq<Byte> := [0x02, 0x09, 0x41, 0x02];
    assert s[2..3] == [0x41] && Zeros(0) == [];
    assert CopyOfRange(s, 2, 3).value == [0x41];
    assert StepAt(s, 0) == Store(AdRecord(2, 0x09, [0x41]), 3);
  }
}
