# BLE advertising-data record store

This project models the scan-record decoder of the SiFli OTA app and the
read-only record store built from its output. A BLE scan record is a run of
AD structures (Bluetooth Core Specification, Vol 3, Part C, section 11). Each
structure is a length byte, a type byte and `length - 1` payload bytes.
`parseScanRecordAsSparseArray` walks these structures and collects them into
a sparse array keyed by type. The last record of a type wins. `AdRecordStore`
wraps that array. When it is built, it derives two names from it: the complete
local name (type 0x09) and the shortened local name (type 0x08). Both type codes
are from the Bluetooth Core Specification Supplement, Part A, section 1.2.
The store then offers lookups over the records.

Modules:

- `Wrappers`: `Option` stands for a Java reference that may be null. `Result`
  stands for a value or the exception that was thrown instead.
- `AdRecords`: a scan-record byte (`Byte`, 0..255), its signed Java value
  (`Signed`), the `AdRecord` value `(length, adType, data)` and the two
  local-name type codes.
- `ScanRecordParser`: `Arrays.copyOfRange` (`CopyOfRange`), one pass of the
  loop (`StepAt`), the loop as a function (`Walk`, `Decode`), and the loop
  itself as a method over an array (`ParseScanRecordAsSparseArray`). The
  method is proved equal to `Decode`.
- `ScanRecordFacts`: the decoder's guarantees. `Structures` lists the
  records in the order the loop reads them. `Apply` stores that list into a
  map. The lemmas cover the layout of the structures, last-write-wins, where
  decoding stops and which inputs throw.
- `SparseArrays`: the key order of a sparse array (`SortedKeys`) and
  `asList` (`AsList`).
- `AdRecordStores`: the store. `AdRecordStore` is the subset of `Store`
  values whose names agree with their records. This agreement is the
  invariant the constructor sets up and nothing later changes.

Behaviour of the code that a reader might not expect:

- A declared length that runs past the end of the buffer is not an error.
  `Arrays.copyOfRange` zero-fills the payload to exactly `length - 1` bytes.
- The length byte is a signed Java `byte`. A length byte of 0x80..0xFF
  is negative. It throws `IllegalArgumentException` (from > to) in
  `copyOfRange`, but only when a nonzero type byte follows it. A negative
  length followed by type 0 ends decoding normally, because the type-0
  check comes before the copy.
- A nonzero length byte in the last position throws
  `ArrayIndexOutOfBoundsException` when the type byte is read. Both
  exceptions are modelled as `Err` results. No other non-null input throws.
- The store keeps the caller's sparse array without copying it.

## Model

| member | source | states |
|---|---|---|
| AdRecords.Signed | app/src/main/java/com/sifli/sifliapp/modules/devicescan/model/AdRecordStore.java:163 | A length byte is read as a signed Java byte. The value is in -128..127 and agrees with the unsigned bits modulo 256. It is negative exactly for 0x80..0xFF and zero only for 0x00. |
| ScanRecordParser.CopyOfRange | app/src/main/java/com/sifli/sifliapp/modules/devicescan/model/AdRecordStore.java:172 | `copyOfRange` fails exactly when from > to (IllegalArgument, checked first) or from is outside 0..\|s\|. Otherwise it returns exactly to - from bytes. Byte i is s[from+i] where that index is in bounds, and 0 past the end. |
| ScanRecordParser.StepAt | app/src/main/java/com/sifli/sifliapp/modules/devicescan/model/AdRecordStore.java:163-177 | One loop pass at a length byte. It stops exactly on a zero length byte or a zero type byte. It fails exactly on a nonzero last length byte (index out of bounds at \|s\|) or on a negative length before a nonzero type (IllegalArgument). Otherwise it stores a well-formed record read at that position and moves the cursor to index + 1 + length. |
| ScanRecordParser.ParseScanRecordAsSparseArray | app/src/main/java/com/sifli/sifliapp/modules/devicescan/model/AdRecordStore.java:158-181 | The decoding loop over the byte array returns exactly `Decode` of the array's contents: the same map or the same exception. It always terminates. |
| ScanRecordFacts.WalkIsFold | app/src/main/java/com/sifli/sifliapp/modules/devicescan/model/AdRecordStore.java:161-178 | The loop's map (or exception) equals putting the structure list into the map in order, first to last. |
| ScanRecordFacts.StructuresShape | app/src/main/java/com/sifli/sifliapp/modules/devicescan/model/AdRecordStore.java:161-178 | The structures lie end to end. The first starts at the cursor. Each next one starts 1 + length after the previous, with length >= 1, so the cursor always moves forward. Each record is well-formed at its own position: length 1..127, type 1..255 from the next byte, and a payload of length - 1 bytes, zero-filled past the end. |
| ScanRecordFacts.ApplyKeys | app/src/main/java/com/sifli/sifliapp/modules/devicescan/model/AdRecordStore.java:174 | Storing records by type yields exactly the earlier keys plus the types stored. No other key ever appears. |
| ScanRecordFacts.LastWriteWins | app/src/main/java/com/sifli/sifliapp/modules/devicescan/model/AdRecordStore.java:174 | A record stored under its type is what the map holds for that type when no later record has the same type. |
| ScanRecordFacts.ApplyValues | app/src/main/java/com/sifli/sifliapp/modules/devicescan/model/AdRecordStore.java:174 | Every value in the resulting map was either already there or is one of the stored records, kept under its own type. |
| ScanRecordFacts.DecodedRecords | app/src/main/java/com/sifli/sifliapp/modules/devicescan/model/AdRecordStore.java:163-174 | A successful decode equals the structure list stored into an empty map. Its keys are exactly the types that occur in the input. Each key k is in 1..255 and holds a record of type k that is well-formed at some length byte of the input. |
| ScanRecordFacts.DecodeLastWriteWins | app/src/main/java/com/sifli/sifliapp/modules/devicescan/model/AdRecordStore.java:174 | In a decoded map, the record under a type is the last structure of the input with that type. |
| ScanRecordFacts.DecodeEmpty | app/src/main/java/com/sifli/sifliapp/modules/devicescan/model/AdRecordStore.java:159-165 | An empty input, or one whose first byte is 0 whatever follows, decodes to an empty map. |
| ScanRecordFacts.TypeZeroStops | app/src/main/java/com/sifli/sifliapp/modules/devicescan/model/AdRecordStore.java:167-170 | A nonzero length byte followed by type 0 ends decoding. The records decoded so far are the result, whatever bytes follow. |
| ScanRecordFacts.SuffixNeverRead | app/src/main/java/com/sifli/sifliapp/modules/devicescan/model/AdRecordStore.java:161-178 | Suppose the walk reaches a terminator inside the input, with every record before it lying wholly inside the input. Then bytes appended after the input do not change the result. |
| ScanRecordFacts.WalkErrors | app/src/main/java/com/sifli/sifliapp/modules/devicescan/model/AdRecordStore.java:163-172 | Every exception names a bad length byte. Either it is ArrayIndexOutOfBounds at \|s\| and the last byte is a nonzero length, or it is IllegalArgument(from, to) with to < from, whose length byte at from - 2 is 0x80..0xFF and is followed by a nonzero type. |
| ScanRecordFacts.WalkFailsExactly | app/src/main/java/com/sifli/sifliapp/modules/devicescan/model/AdRecordStore.java:162-172 | Decoding throws exactly when the walk reads a bad length byte: a nonzero length byte in the last position, or a length byte 0x80..0xFF followed by a nonzero type. A byte that only looks bad inside a payload is never read as a length, and other inputs do not throw. |
| ScanRecordFacts.PayloadByteNotALength | app/src/main/java/com/sifli/sifliapp/modules/devicescan/model/AdRecordStore.java:163-174 | [03 09 C3 A9 00] (a UTF-8 name) decodes without error to one type-0x09 record with payload C3 A9, although its payload byte C3 would be a bad length byte. |
| ScanRecordFacts.CompleteNameExample | app/src/main/java/com/sifli/sifliapp/modules/devicescan/model/AdRecordStore.java:158-181 | [03 09 41 42 00] decodes to one record of type 0x09 with payload "AB". |
| ScanRecordFacts.ShortNameExample | app/src/main/java/com/sifli/sifliapp/modules/devicescan/model/AdRecordStore.java:158-181 | [02 08 43 00] decodes to one record of type 0x08 with payload "C". |
| ScanRecordFacts.OverrunExample | app/src/main/java/com/sifli/sifliapp/modules/devicescan/model/AdRecordStore.java:172 | [05 09 41] decodes to a type-0x09 record of length 5 whose payload "A" is zero-filled to four bytes. |
| ScanRecordFacts.DuplicateTypeExample | app/src/main/java/com/sifli/sifliapp/modules/devicescan/model/AdRecordStore.java:174 | Two type-0x09 records decode to the later one only. |
| ScanRecordFacts.ErrorExamples | app/src/main/java/com/sifli/sifliapp/modules/devicescan/model/AdRecordStore.java:163-172 | A trailing nonzero length byte throws ArrayIndexOutOfBounds(4). Length 0xFF before type 0x09 throws IllegalArgument(2, 0). Length 0xFF before type 0 ends decoding with no records. |
| SparseArrays.SortedKeys | app/src/main/java/com/sifli/sifliapp/modules/devicescan/model/AdRecordStore.java:145-146 | The positions of a sparse array list each key once, in strictly increasing order. There are as many positions as keys. |
| SparseArrays.AsList | app/src/main/java/com/sifli/sifliapp/modules/devicescan/model/AdRecordStore.java:142-149 | A null sparse array gives null. Otherwise the list has one entry per key, and entry i is the value stored under the i-th key. |
| SparseArrays.AsListCovers | app/src/main/java/com/sifli/sifliapp/modules/devicescan/model/AdRecordStore.java:142-149 | Every value of the sparse array appears in the list, at the position of its key. |
| AdRecordStores.Get | app/src/main/java/com/sifli/sifliapp/modules/devicescan/model/AdRecordStore.java:83 | `SparseArray.get` returns a record exactly when the key is present, and that record is the one stored under the key. |
| AdRecordStores.DataAsString | app/src/main/java/com/sifli/sifliapp/modules/devicescan/model/AdRecordStore.java:151-156 | A null record gives "". Any other record gives its payload bytes. |
| AdRecordStores.New | app/src/main/java/com/sifli/sifliapp/modules/devicescan/model/AdRecordStore.java:43-47 | The constructor keeps the records. Each local name is the payload of the 0x09 or 0x08 record, or "" when there is none. |
| AdRecordStores.GetRecord | app/src/main/java/com/sifli/sifliapp/modules/devicescan/model/AdRecordStore.java:82-84 | Returns the record of a type exactly when the store holds that type, and it is the stored one. |
| AdRecordStores.IsRecordPresent | app/src/main/java/com/sifli/sifliapp/modules/devicescan/model/AdRecordStore.java:111-113 | True exactly when `getRecord` of the same type is not null. |
| AdRecordStores.RecordDataAsString | app/src/main/java/com/sifli/sifliapp/modules/devicescan/model/AdRecordStore.java:92-94 | "" when the type is absent, otherwise the payload of its record. |
| AdRecordStores.LocalNameComplete | app/src/main/java/com/sifli/sifliapp/modules/devicescan/model/AdRecordStore.java:63-65 | The stored complete name equals the text of the store's 0x09 record ("" if absent). It was fixed at construction and agrees with the records. |
| AdRecordStores.LocalNameShort | app/src/main/java/com/sifli/sifliapp/modules/devicescan/model/AdRecordStore.java:72-74 | The stored short name equals the text of the store's 0x08 record ("" if absent). |
| AdRecordStores.RecordsAsCollection | app/src/main/java/com/sifli/sifliapp/modules/devicescan/model/AdRecordStore.java:101-103 | Every stored record once, as many as the store has keys, in increasing order of type. |
| AdRecordStores.DecodedStore | app/src/main/java/com/sifli/sifliapp/modules/devicescan/model/AdRecordStore.java:43-47 | A store built from a decoded scan record holds each record under its own type, 1..255. Each local name is "" exactly when its record is absent or has an empty payload. |
| AdRecordStores.DecodedNames | app/src/main/java/com/sifli/sifliapp/modules/devicescan/model/AdRecordStore.java:43-47 | For a store built from a decoded scan record, the complete local name is the payload of the last type-0x09 structure of the input, and the short local name that of the last type-0x08 structure. |
| AdRecordStores.StoreExamples | app/src/main/java/com/sifli/sifliapp/modules/devicescan/model/AdRecordStore.java:43-47 | Decoding [03 09 41 42 00] gives complete name "AB" and short name "". Decoding [02 08 43 00] gives short name "C" and complete name "". |

## Left out

- Android serialization: the `Parcel` constructor, `CREATOR`, `writeToParcel` and `describeContents` (lines 15-36, 53-56, 127-133). They are the platform's marshalling mechanism, which this model does not contain. The model covers stores built by the map constructor. A store read back from a parcel that `writeToParcel` wrote satisfies the same invariant only if AdRecord's own parcel round trip is exact, and AdRecord.java is not part of this model. A store read from any other parcel may have null names (`Bundle.getString` of a missing key), or names that disagree with its records; `AdRecordStore` cannot represent such a store.
- `toString` (lines 119-121): diagnostic text only.
- `Collections.unmodifiableCollection` (line 102): a Dafny sequence is immutable, so the wrapper is implicit.
- Charset decoding in `new String(byte[])` (line 155): it uses the platform default charset. A payload "as string" is modelled as its bytes.
- `SparseArray` internals: the sparse array is a finite map. Only its observable key order is kept, through `SortedKeys`.
- `AdRecord`: AdRecord.java is not part of this model. It is modelled as a datatype `(length, adType, data)`. The type codes 0x09 and 0x08 are from the Bluetooth Core Specification Supplement.
- Aliasing (line 44): the store keeps the caller's sparse array by reference. The model treats the map as a value.
- ParseScanRecordAsSparseArray: a null scan record (line 162 would throw NullPointerException) is not modelled; the model's array is never null.
- A null sparse array passed to the constructor (line 45 would throw NullPointerException): the model's map is never null.
- A sparse array that holds a null value under a key: `isRecordPresent` and `getRecord` disagree only then. The decoder never stores one, and the model's map has no null values.
- ParseScanRecordAsSparseArray: 32-bit `int` overflow of `index + length` is not modelled. It could only happen for an array within 128 bytes of the largest Java array size.
