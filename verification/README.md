# CXIChunk in Dafny

A model of H2O's sparse integer chunk, `water.fvec.CXIChunk`. A chunk holds one
column slice of `len` rows. It stores only the non-zero rows, in one byte
buffer:

- bytes 0..3: the chunk length;
- byte 4: the row-id width `idsz`, which is 2 below 65535 rows and 4 from there on;
- byte 5: the value width `elsz`, one of 0, 1, 2, 4 or 8;
- from byte `OFF` = 6 on: the records, each a row id followed by a value.

Rows that are not stored read as 0. A stored value equal to the width's NA
pattern reads as missing.

The model covers:

- the layout planner and the encoder (the two constructors);
- the record accessors `getId`, `getOff` and `getIValue`;
- `findOffset`, with its one-slot cache `_lastOff`, its probe of the next
  record and its binary search;
- the row accessors `at8_impl`, `atd_impl` and `isNA_impl`;
- `inflate_impl`, `skipCnt` and `nonzeros`;
- the rejecting setters;
- `write` and `read`;
- the `Value` cursor and the `values()` iterator.

Java's fixed-width integers are modelled on unbounded integers:

- `int32` and `int64` are subset types.
- Every narrowing cast and every 64-bit product is an explicit two's-complement
  wrap (`JavaTypes.Wrap`).
- A Java exception is a `Thrown` outcome of a `Result`.

The chunk is an immutable datatype that includes the cache. Every operation
that moves the cache returns the updated chunk, and its contract says that
nothing but the cache changed.

Modules, one per file:

| module | file | content |
|---|---|---|
| `JavaTypes` | java_types.dfy | Java integer ranges, narrowing, exceptions |
| `ByteOrder` | byte_order.dfy | `UDP`'s little-endian field reads and writes |
| `Sentinels` | sentinels.dfy | the `NAS` table and the width's log |
| `Chunks` | chunk.dfy | layout, planner, record accessors |
| `Encoder` | encoder.dfy | the six-argument constructor and its round trip |
| `Lookup` | lookup.dfy | `findOffset` |
| `Access` | access.dfy | `at8`/`atd`/`isNA`, `skipCnt`, `inflate`, setters |
| `Serial` | serial.dfy | `write`/`read` |
| `Iteration` | iteration.dfy | `Value`, `values()`, `nonzeros` |

The ordered lookups have reference definitions of their own:

- `Lookup.Floor`: the greatest stored id at or below a row index, found by a
  scan from the end.
- `Access.SkipCntOf`: the distance to the first stored row above a row
  index; for a row below every stored row, the distance to the second
  stored row, as the code measures it.

The cached, binary-searching `findOffset` is proved equal to its reference
when the stored ids increase; `skipCnt` is proved equal to its reference
when the stored ids increase and all lie below `len`.

All source paths below are relative to the repository root.

## Model

| member | source | states |
|---|---|---|
| JavaTypes.Wrap | src/main/java/water/fvec/CXIChunk.java:58-66 | a Java narrowing cast to k bytes gives the unique value in the signed k-byte range that is congruent to the input modulo 256^k |
| JavaTypes.WrapUnique | src/main/java/water/fvec/CXIChunk.java:58-66 | any in-range value congruent to the input is the narrowed value, so the narrowing is the two's-complement cast and nothing else |
| JavaTypes.WrapWrap | src/main/java/water/fvec/CXIChunk.java:55-66 | narrowing to 8 bytes and then to fewer is the same as narrowing directly, so the 64-bit product's overflow is invisible at narrower widths |
| ByteOrder.LeValueOfBytes | src/main/java/water/fvec/CXIChunk.java:37 | the k little-endian bytes written for a value read back, unsigned, as that value modulo 256^k |
| ByteOrder.GetPut | src/main/java/water/fvec/CXIChunk.java:50-52 | a k-byte field written with `set2`/`set4`/`set8` reads back with `get` as the value narrowed to k bytes, and exactly as the value when it fits |
| ByteOrder.PutFrame | src/main/java/water/fvec/CXIChunk.java:62-69 | writing a field leaves every byte outside that field unchanged |
| Sentinels.NaAt | src/main/java/water/fvec/CXIChunk.java:23 | looking up the NA table succeeds exactly for indices 0, 1 and 2, giving one of the three patterns; any other index throws `ArrayIndexOutOfBoundsException` |
| Sentinels.Log2Floor | src/main/java/water/fvec/CXIChunk.java:28-33 | the shifting loop computes the floor of log2 of the width: 2^r <= x < 2^(r+1) for a positive width, and 0 for widths up to 1 |
| Sentinels.SentinelLookup | src/main/java/water/fvec/CXIChunk.java:97 | for widths 2, 4 and 8, `NAS[_elsz_log-1]` is the minimum signed value of that width; for widths 0 and 1 the index is -1 and the lookup throws |
| Chunks.IdWidth | src/main/java/water/fvec/CXIChunk.java:35 | 4-byte ids are chosen exactly from 65535 rows on; 2-byte ids only when every row index below `len` fits below 65535 |
| Chunks.IdWidthBoundary | src/main/java/water/fvec/CXIChunk.java:35 | the switch lies exactly between 65534 rows (2-byte ids) and 65535 rows (4-byte ids) |
| Chunks.HeaderBytes | src/main/java/water/fvec/CXIChunk.java:36-40 | the planned buffer has room for the records, its header reads back as the length and the two widths, and its record area is all zero |
| Chunks.LengthField | src/main/java/water/fvec/CXIChunk.java:37 | the length written with `set4` at offset 0 reads back with `get4` as the same `int` |
| Chunks.Plan | src/main/java/water/fvec/CXIChunk.java:25-42 | the planned chunk is well formed, with exactly `nzs` zeroed record slots, the given length and value width, and the cache on the first record |
| Chunks.SparseLen | src/main/java/water/fvec/CXIChunk.java:79 | the header plus `sparseLen` records fills the buffer exactly, with no remainder |
| Chunks.Off | src/main/java/water/fvec/CXIChunk.java:141 | a record offset lies after the header, and a stored record fits inside the buffer |
| Chunks.GetId | src/main/java/water/fvec/CXIChunk.java:135-139 | a 2-byte id reads as the unsigned 16-bit value of its bytes; a 4-byte id reads as a signed `int` |
| Chunks.Masked16 | src/main/java/water/fvec/CXIChunk.java:137 | `get2(..) & 0xFFFF` is the unsigned 16-bit reading of the two bytes, in [0, 65536) |
| Chunks.GetIValue | src/main/java/water/fvec/CXIChunk.java:143-151 | the value read succeeds exactly for a non-zero width, giving a signed value of that width; width 0 throws the unimplemented error |
| Chunks.CacheIndex | src/main/java/water/fvec/CXIChunk.java:20 | a valid cache offset is the offset of a stored record, or the first record slot when nothing is stored |
| Chunks.DecodeAt | src/main/java/water/fvec/CXIChunk.java:96-97 | the value at an offset is NA exactly when it equals the width's minimum value, and is the integer read otherwise; width 0 fails as unimplemented, and width 1 fails on the table index -1 |
| Chunks.Decode | src/main/java/water/fvec/CXIChunk.java:125-126 | the same as `DecodeAt`, for the value of record k |
| Chunks.Recached | src/main/java/water/fvec/CXIChunk.java:170-183 | moving the cache changes no record: the record count, offsets, ids and decoded values stay the same |
| Chunks.RecachedRecord | src/main/java/water/fvec/CXIChunk.java:170-183 | moving the cache leaves the id and the decoded value at every record offset unchanged |
| Encoder.RecordBytes | src/main/java/water/fvec/CXIChunk.java:49-73 | the record for entry i fails only for an NA entry at width 1 (table index -1); otherwise it is `idsz + elsz` bytes long |
| Encoder.AllRecords | src/main/java/water/fvec/CXIChunk.java:48-74 | the loop produces one record per entry, all of the same length |
| Encoder.FillContents | src/main/java/water/fvec/CXIChunk.java:46-48 | writing the records from slot i on leaves the bytes before slot i unchanged and puts each record in its own slot |
| Encoder.Build | src/main/java/water/fvec/CXIChunk.java:44-76 | the filled chunk is well formed, with `nz` records, the planned widths and length, and record k in slot k |
| Encoder.Encode | src/main/java/water/fvec/CXIChunk.java:44-76 | construction succeeds exactly when no NA entry meets width 1, where it throws `ArrayIndexOutOfBoundsException`; on success the chunk is well formed, with `nz` records, the given length and width, and the cache on the first record |
| Encoder.EncodedSlot | src/main/java/water/fvec/CXIChunk.java:46-48 | after construction, record k occupies the k-th slot of the buffer |
| Encoder.RecordFields | src/main/java/water/fvec/CXIChunk.java:49-70 | a record is the little-endian bytes of the id (cast to `short` for 2-byte ids), followed by those of the value narrowed to the value width |
| Encoder.IdReadBack | src/main/java/water/fvec/CXIChunk.java:49-52 | an id written by the constructor reads back through `getId` modulo 65536 for 2-byte ids, and unchanged for 4-byte ids |
| Encoder.ValueReadBack | src/main/java/water/fvec/CXIChunk.java:143-151 | a value written by the constructor reads back through `getIValue` narrowed to the value width |
| Encoder.EncodedId | src/main/java/water/fvec/CXIChunk.java:49-52 | the id of record k of the constructed chunk is `ids[k]`, modulo 65536 for 2-byte ids |
| Encoder.NarrowedValue | src/main/java/water/fvec/CXIChunk.java:55-69 | the value the constructor stores, once narrowed and read back, is the mantissa times 10^exponent narrowed to the width, or the width's minimum for the NA exponent |
| Encoder.EncodedValue | src/main/java/water/fvec/CXIChunk.java:55-70 | `getIValue` of record k of the constructed chunk is that expected value |
| Encoder.EncodedIds | src/main/java/water/fvec/CXIChunk.java:49-52 | for ids in [0, len) the constructed chunk's stored ids are exactly the given ids |
| Encoder.IdInRange | src/main/java/water/fvec/CXIChunk.java:35 | a row index below `len` fits the id width chosen for `len` unchanged |
| Encoder.EncodedSorted | src/main/java/water/fvec/CXIChunk.java:44-52 | increasing ids in [0, len) give a chunk whose stored ids increase |
| Encoder.EncodedDecode | src/main/java/water/fvec/CXIChunk.java:55 | round trip: at a width with an NA pattern, record k decodes as NA for the NA exponent, and otherwise as the expected integer (NA when that integer hits the pattern) |
| Lookup.Floor | src/main/java/water/fvec/CXIChunk.java:153-185 | reference answer of the lookup: the last position whose id is at most the row index, or 0 when none is, with every later id above the row index |
| Lookup.FloorUnique | src/main/java/water/fvec/CXIChunk.java:176-181 | the floor conditions single out one position |
| Lookup.FloorOfNeighbours | src/main/java/water/fvec/CXIChunk.java:176-181 | for increasing ids, a position with id at most the row index and the next id above it is the floor: the exit condition of the binary search |
| Lookup.FloorHit | src/main/java/water/fvec/CXIChunk.java:95 | for increasing ids, the floor record holds the row index if and only if the row index is stored, and it is then that row's position, so `getId(off) != idx` exactly detects a sparse zero |
| Lookup.FloorNext | src/main/java/water/fvec/CXIChunk.java:208-209 | for increasing ids starting at or below the row, the record after the floor is the first one above the row |
| Lookup.CacheAt | src/main/java/water/fvec/CXIChunk.java:183 | storing any record offset in `_lastOff` keeps the cache valid |
| Lookup.NextInside | src/main/java/water/fvec/CXIChunk.java:165-166 | `nextOff < mem.length` holds exactly when the cached record has a successor, and `nextOff` is that successor's offset |
| Lookup.Search | src/main/java/water/fvec/CXIChunk.java:176-184 | the binary search ends on a stored record, and for increasing ids on the floor of the row index |
| Lookup.CacheProbe | src/main/java/water/fvec/CXIChunk.java:159-174 | a cache hit is the cached record or the next one, and for increasing ids it is the floor of the row index |
| Lookup.ProbeNext | src/main/java/water/fvec/CXIChunk.java:163-174 | for a row above the cached id, a hit is the cached record or the next one, and for increasing ids it is the floor |
| Lookup.FindOffset | src/main/java/water/fvec/CXIChunk.java:154-185 | throws `IndexOutOfBoundsException` for a row index at or above `len`, returns 0 for an empty chunk, and otherwise returns a record offset and caches it; for increasing ids that offset is the floor record's, and only the cache changes |
| Lookup.SameRecords | src/main/java/water/fvec/CXIChunk.java:159 | two chunks that differ only in their cache hold the same records, ids and offsets |
| Lookup.FindOffsetTwice | src/main/java/water/fvec/CXIChunk.java:154-185 | cache transparency: for increasing ids, two chunks that differ only in the cache give the same `findOffset` answer |
| Access.RowAtFloor | src/main/java/water/fvec/CXIChunk.java:94-95 | at the floor record, a different id means the row is a sparse zero, and the row index means the row is that record's value |
| Access.EmptyMiss | src/main/java/water/fvec/CXIChunk.java:158 | with nothing stored, the offset 0 that `findOffset` returns reads as an id different from every row index below `len`, so the row reads as a sparse zero |
| Access.ReadRow | src/main/java/water/fvec/CXIChunk.java:94-96 | the shared start of the row accessors: throws for a row index at or above `len`, and for increasing ids gives the row's cell: a sparse zero when the row is not stored, the decoded stored value when it is |
| Access.At8 | src/main/java/water/fvec/CXIChunk.java:93-99 | `at8_impl`: 0 for a sparse zero, the stored integer, or `IllegalArgumentException` for a stored NA |
| Access.AtD | src/main/java/water/fvec/CXIChunk.java:100-105 | `atd_impl`: 0 for a sparse zero, NaN for a stored NA, the stored integer otherwise |
| Access.IsNA | src/main/java/water/fvec/CXIChunk.java:107-111 | `isNA_impl`: true only for a stored NA |
| Access.AccessorsAgree | src/main/java/water/fvec/CXIChunk.java:93-111 | the three accessors agree on every row: `isNA` is true exactly when `at8` throws `IllegalArgumentException` and exactly when `atd` is NaN; `at8` succeeds exactly when `atd` is a number, and then with the same number |
| Access.GapFromFloor | src/main/java/water/fvec/CXIChunk.java:208-210 | for increasing ids, the reference gap is the distance from the row to the id after its floor, or 0 at the last record |
| Access.GapAfter | src/main/java/water/fvec/CXIChunk.java:208-210 | the gap after record k is the next id minus the row, or 0 when k is the last record |
| Access.SkipLookup | src/main/java/water/fvec/CXIChunk.java:205-207 | the lookup of `skipCnt` fails exactly when nothing is stored or when the row is out of range and not the cached id; otherwise it gives a record, and for increasing ids below `len` the floor of the row |
| Access.SkipFailures | src/main/java/water/fvec/CXIChunk.java:204-207 | the reference answer throws `ArrayIndexOutOfBoundsException` for an empty chunk and `IndexOutOfBoundsException` for a row at or above `len` |
| Access.CachedFloor | src/main/java/water/fvec/CXIChunk.java:206-207 | when the cached record holds the row, skipping `findOffset` loses nothing: that record is the row's floor |
| Access.SkipAnswer | src/main/java/water/fvec/CXIChunk.java:208-210 | at the floor record, the code's gap narrowed to `int` is the reference answer |
| Access.SkipCnt | src/main/java/water/fvec/CXIChunk.java:204-211 | `skipCnt` throws on an empty chunk, changes only the cache, and for increasing ids below `len` equals the reference answer |
| Access.Inflate | src/main/java/water/fvec/CXIChunk.java:115-132 | inflation succeeds exactly when nothing is stored or the width has an NA pattern; then it copies the length, the record count and the ids, and gives each stored value as (value, 0), or as (`Long.MAX_VALUE`, `Integer.MIN_VALUE`) for NA |
| Access.InflateEncoded | src/main/java/water/fvec/CXIChunk.java:115-132 | round trip with the constructor: inflating a constructed chunk gives back the given ids, and for each entry its expected value, or the NA pair |
| Access.SetImpl | src/main/java/water/fvec/CXIChunk.java:88-91 | every in-place setter refuses and leaves the chunk unchanged |
| Serial.Write | src/main/java/water/fvec/CXIChunk.java:187 | the bytes written are the whole buffer |
| Serial.Read | src/main/java/water/fvec/CXIChunk.java:188-202 | reading fails exactly for a buffer shorter than the header; otherwise it adopts the buffer and keeps the receiving instance's cache as it was |
| Serial.SmallByte | src/main/java/water/fvec/CXIChunk.java:192-193 | a header byte below 128 reads back as itself through Java's signed `byte` |
| Serial.ReadWrite | src/main/java/water/fvec/CXIChunk.java:187-202 | round trip: a fresh instance reading what a well-formed chunk writes becomes the same chunk, with the cache on the first record (the field's initial value) |
| Serial.ReadOwnBytes | src/main/java/water/fvec/CXIChunk.java:187-202 | reading a chunk's own bytes back into the same instance restores it exactly, cache included |
| Serial.EncodedReadWrite | src/main/java/water/fvec/CXIChunk.java:187-202 | a constructed chunk survives `write` then `read` into a fresh instance unchanged |
| Serial.ReadLayout | src/main/java/water/fvec/CXIChunk.java:191-193 | a received buffer read into a fresh instance is a well-formed chunk exactly when its id width matches its length, its value width is legal, and a whole number of records follows the header |
| Iteration.EncodedRowInChunk | src/main/java/water/fvec/CXIChunk.java:214 | on a chunk the constructor built from row ids below its length, `rowInChunk` on record k is the k-th id the constructor was given |
| Iteration.AsLongAsWritten | src/main/java/water/fvec/CXIChunk.java:215-219 | `asLong` as written: a success returns the stored value |
| Iteration.AsLong | src/main/java/water/fvec/CXIChunk.java:215-219 | `asLong` with the NA pattern looked up at `_elsz_log-1`: a success returns the stored value |
| Iteration.AsDouble | src/main/java/water/fvec/CXIChunk.java:220-223 | a numeric `asDouble` is the stored value |
| Iteration.IsNa | src/main/java/water/fvec/CXIChunk.java:224-227 | `isNa` is true only for the width's minimum value |
| Iteration.ValueAccessors | src/main/java/water/fvec/CXIChunk.java:215-227 | at record k, `asLong`, `asDouble` and `isNa` agree with `at8`, `atd` and `isNA` on the row stored there |
| Iteration.AsLongAsWrittenAgrees | src/main/java/water/fvec/CXIChunk.java:217 | at every width except 8, `NAS[(_elsz>>>1)-1]` is the same entry as `NAS[_elsz_log-1]` |
| Iteration.AsLongAsWrittenWidth8 | src/main/java/water/fvec/CXIChunk.java:217 | at width 8, `asLong` as written always throws `ArrayIndexOutOfBoundsException` (index 3), whereas the intended lookup returns the value or reports NA |
| Iteration.HasNextAt | src/main/java/water/fvec/CXIChunk.java:233 | `hasNext` at the cursor on record j is false exactly at the last record |
| Iteration.Walk | src/main/java/water/fvec/CXIChunk.java:230-240 | iterating from the cursor on record j yields the offsets of all the later records, in order |
| Iteration.ValuesAsWritten | src/main/java/water/fvec/CXIChunk.java:230-240 | `values()` as written, starting at `OFF`, yields one offset fewer than there are records |
| Iteration.Values | src/main/java/water/fvec/CXIChunk.java:230-240 | `values()` starting one record before `OFF` yields one offset per record |
| Iteration.ValuesAsWrittenSkipsFirst | src/main/java/water/fvec/CXIChunk.java:213 | as written, `values()` yields records 1 to n-1, and never the offset of record 0 |
| Iteration.ValuesAsWrittenEmpty | src/main/java/water/fvec/CXIChunk.java:233 | as written, on an empty chunk `hasNext` holds after any number of steps, and the first `next` already points past the buffer |
| Iteration.ValuesVisitAll | src/main/java/water/fvec/CXIChunk.java:230-240 | the corrected iteration yields every record's offset in order, then `hasNext` is false |
| Iteration.ValuesRead | src/main/java/water/fvec/CXIChunk.java:214-219 | each value the corrected iteration yields reads the i-th stored id and the i-th row's `at8` |
| Iteration.OffIncreasing | src/main/java/water/fvec/CXIChunk.java:141 | record offsets increase with the record index |
| Iteration.StridedId | src/main/java/water/fvec/CXIChunk.java:84 | the i-th entry `nonzeros` reads is an unsigned 16-bit value |
| Iteration.NonzerosAsWritten | src/main/java/water/fvec/CXIChunk.java:80-86 | `nonzeros` as written: throws exactly when the array is shorter than the record count (after filling what fits); otherwise fills the prefix with the strided readings, returns the count and leaves the rest of the array alone |
| Iteration.Nonzeros | src/main/java/water/fvec/CXIChunk.java:80-86 | `nonzeros` reading each record's id: the same failure and frame, with the prefix equal to the stored ids |
| Iteration.AsWrittenIdsNarrow | src/main/java/water/fvec/CXIChunk.java:83-84 | with 2-byte ids the as-written readings are exactly the stored ids |
| Iteration.AsWrittenIdsWide | src/main/java/water/fvec/CXIChunk.java:83-84 | with 4-byte ids and no values, the second reading is the high half of the first id, 0 for a first id below 65536, and not the second id |
| Iteration.AsWrittenIdsExample | src/main/java/water/fvec/CXIChunk.java:83-84 | a chunk of 100000 rows storing rows 1 and 70000 without values reports [1, 0] as its non-zero rows |

## Left out

- `UDP`, `MemoryManager`, `AutoBuffer`, `DParseTask`, `H2O`, the `Chunk` superclass and the `C2Chunk`/`C4Chunk`/`C8Chunk` classes are not part of this model. The model takes each `_NA` constant as the minimum signed value of its width.
- `UDP`'s field reads and writes are taken as little-endian and bounds-checked, so a read past the buffer throws `ArrayIndexOutOfBoundsException`.
- `UDP.get2`, `get4` and `get8` are taken to sign-extend, returning a signed `short`, `int` and `long` (`ByteOrder.Get`). The `& 0xFFFF` on line 137 and the `long` results on line 146 imply this.
- `DParseTask.pow10i` is taken as the exact power of ten. The 64-bit product with it is wrapped explicitly.
- `atd_impl` returns a `double`. The model gives NaN or the exact integer, and leaves out rounding of integers beyond 2^53.
- Java `int` overflow of buffer offsets and sizes is not modelled. Buffers are taken to be shorter than 2^31 bytes.
- A failing `malloc1` is not modelled either.
- Concurrency is not modelled: the `transient` fields and the unsynchronised cache.
- `read` also sets `_start = -1`. That field belongs to the `Chunk` superclass, which is not part of this model.
- `isSparse` and `hasFloat` are constants and have no members.
- `set_impl(double)`, `set_impl(float)` and `setNA_impl` are modelled as updates without payloads, because the payload is never used.
- Of the iterator protocol, `remove()` (which always throws) is left out. The shared mutable `Value` object is modelled as the sequence of offsets it visits.
- `inflate_impl` works on a `NewChunk`. The model keeps only the five fields it writes.
- Partial state left behind by an exception is not modelled, because a `Thrown` outcome carries no chunk:
  - `inflate_impl` assigns `nc._len2`, `nc._len`, the three arrays and `nc._id[0]` (lines 117-124) before it throws at widths 0 and 1.
  - `read` assigns `_mem` (line 189) before a buffer too short for the header throws.
- Serial.Read: `read` never assigns `_lastOff`, so the model takes the receiving instance's cache as a parameter and keeps it. The round-trip lemmas `Serial.ReadWrite`, `Serial.EncodedReadWrite` and `Serial.ReadLayout` are stated for a freshly created instance, whose cache is the field's initial value `OFF` (line 20). A reused instance whose old cache is not a record offset of the new buffer is outside `Layout`.
- Encoder.Encode: the assertions on the value width (line 34) and on the exponents (line 54) are preconditions. The arrays are required to hold at least `nz` entries, because the code indexes them without checks.
- Lookup.FindOffset: it requires a cache on a record offset of the buffer, which `Layout` guarantees. It states the floor answer only when the stored ids increase. For other ids it states only the failure, the empty case and that the answer is a cached record offset.
- Access.ReadRow: it requires a well-formed chunk (`Layout`). It states the row's value only when the stored ids increase; for other ids it states only the failure for rows at or above `len` and that only the cache changes.
- Access.At8: the same requirement and the same restriction as `Access.ReadRow`.
- Access.AtD: the same requirement and the same restriction as `Access.ReadRow`.
- Access.IsNA: the same requirement and the same restriction as `Access.ReadRow`.
- Access.SkipCnt: it requires a well-formed chunk (`Layout`). It states the reference answer only when the stored ids increase and lie below `len`. Otherwise it states only the empty-chunk failure and that only the cache changes.
- Access.Inflate: it requires a well-formed chunk (`Layout`).
- Iteration.RowInChunk: it requires a well-formed chunk and a cursor on a whole record inside the buffer (`Iteration.OnRecord`).
- Iteration.AsLongAsWritten: it has the same requirement as `Iteration.RowInChunk`. Its own contract states one direction, and the full behaviour is stated through `Iteration.AsLongAsWrittenAgrees` and `Iteration.AsLongAsWrittenWidth8`.
- Iteration.AsLong: it has the same requirement as `Iteration.RowInChunk`. Its own contract states one direction, and the full behaviour is stated through `Iteration.ValueAccessors`.
- Iteration.AsDouble: it has the same requirement and the same one-directional contract as `Iteration.AsLong`.
- Iteration.IsNa: it has the same requirement and the same one-directional contract as `Iteration.AsLong`.
- The `Layout` requirement above covers every chunk that `read` can produce without a mismatch between header and buffer. A corrupt received buffer, one whose header disagrees with its length, is not modelled beyond `Serial.ReadLayout`, which characterises exactly when a received buffer is well formed.

## Behaviour kept as written

- A width of 1 has no NA pattern: `NAS[_elsz_log-1]` indexes -1. Every read of a value through the NA test throws `ArrayIndexOutOfBoundsException`. So does construction of an NA entry.
- `findOffset` on an empty chunk returns 0, the offset of the length field. The id read there is the length, which differs from every valid row index (`Access.EmptyMiss`).
- `skipCnt` for a row below every stored row measures the distance to the second stored row, not the first. The floor of such a row is the first record, and `skipCnt` counts from the record after it. `Access.SkipCntOf` states this explicitly.
- `skipCnt` on an empty chunk reads an id past the end of the buffer and throws.
- `skipCnt` calls `findOffset` only when the row is not the cached id. So a cached id at or above `len`, possible only with ids out of range, does not throw.

## Findings

| source | as written | input that shows it | evidently intended | confidence | as-written member | corrected member |
|---|---|---|---|---|---|---|
| src/main/java/water/fvec/CXIChunk.java:213 | the cursor starts at `OFF` and `next()` advances before returning, so record 0 is never yielded; `hasNext` compares against `mem.length - inc`, which is never reached when nothing is stored | any chunk with one record (nothing is yielded) or with none (`hasNext` holds forever) | start the cursor one record before `OFF`, so every record is yielded once, in order | not executed | Iteration.ValuesAsWritten, with Iteration.ValuesAsWrittenSkipsFirst and Iteration.ValuesAsWrittenEmpty | Iteration.Values, with Iteration.ValuesVisitAll and Iteration.ValuesRead |
| src/main/java/water/fvec/CXIChunk.java:217 | `asLong` looks up the NA pattern at `(_elsz >>> 1) - 1`, which is index 3 at width 8, past the three-entry table (widths 2 and 4 give the same index as `_elsz_log - 1`) | any chunk with value width 8 | look up the pattern at `_elsz_log - 1`, as `at8_impl` does | not executed | Iteration.AsLongAsWritten, with Iteration.AsLongAsWrittenWidth8 | Iteration.AsLong, with Iteration.ValueAccessors |
| src/main/java/water/fvec/CXIChunk.java:83-84 | `nonzeros` steps by `elsz + 2` and reads two bytes per record, whatever the id width | `len` = 100000 (4-byte ids), no values, stored rows 1 and 70000: the result is [1, 0] | step by `idsz + elsz` and read each record with `getId` | not executed | Iteration.NonzerosAsWritten, with Iteration.AsWrittenIdsExample and Iteration.AsWrittenIdsWide | Iteration.Nonzeros, with Iteration.AsWrittenIdsNarrow |
