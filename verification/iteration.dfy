/** Walking the stored records: the `Value` cursor and its accessors, the
    `values()` iterator that moves it, and `nonzeros`, which lists the
    stored row ids. Each of the three is modelled as written and, where the
    written code misses its evident purpose, next to a corrected version
    that the remaining lemmas use. */
module Iteration {
  import opened JavaTypes
  import opened ByteOrder
  import opened Sentinels
  import opened Chunks
  import opened Access
  import Encoder

  /** The cursor sits on a whole record inside the buffer. */
  predicate OnRecord(c: Chunk, off: int) {
    Layout(c) && OFF <= off && off + Inc(c) <= |c.mem|
  }

  /** `Value.rowInChunk()`: the row id at the cursor; on the k-th record it
      is the k-th stored id. */
  function RowInChunk(c: Chunk, off: nat): (r: int)
    requires OnRecord(c, off)
    ensures forall k :: 0 <= k < SparseLen(c) && off == Off(c, k) ==> r == Ids(c)[k]
  {
    GetId(c, off)
  }

  /** On a chunk built by the constructor from row ids below its length, the
      cursor on record k reports the k-th id the constructor was given. */
  lemma EncodedRowInChunk(ls: seq<int64>, xs: seq<int32>, ids: seq<int32>, len: int32, nz: nat, elsz: int, c: Chunk, k: nat)
    requires Encoder.Arguments(ls, xs, ids, nz, elsz) && Encoder.Encode(ls, xs, ids, len, nz, elsz) == Ok(c)
    requires forall i :: 0 <= i < nz ==> 0 <= ids[i] < len
    requires k < nz
    ensures k < SparseLen(c) && OnRecord(c, Off(c, k))
    ensures RowInChunk(c, Off(c, k)) == ids[k]
  {
    Encoder.EncodedIds(ls, xs, ids, len, nz, elsz, c);
    assert Ids(c)[k] == ids[k];
  }

  /** `Value.asLong()` as written: it looks the NA pattern up at index
      `(elsz >>> 1) - 1`, which for width 8 is 3, past the end of the
      three-entry table. */
  function AsLongAsWritten(c: Chunk, off: nat): (r: Result<int>)
    requires OnRecord(c, off)
    ensures r.Ok? ==> GetIValue(c, off) == r
  {
    var v :- GetIValue(c, off);
    var na :- NaAt(c.elsz / 2 - 1);
    if v == na then Thrown(IllegalArgument) else Ok(v)
  }

  /** `Value.asLong()` with the table indexed by the width's log, as every
      other accessor of the chunk does. */
  function AsLong(c: Chunk, off: nat): (r: Result<int>)
    requires OnRecord(c, off)
    ensures r.Ok? ==> GetIValue(c, off) == r
  {
    var v :- GetIValue(c, off);
    var na :- NaSentinel(c);
    if v == na then Thrown(IllegalArgument) else Ok(v)
  }

  /** `Value.asDouble()`: NaN for the NA pattern, else the integer. */
  function AsDouble(c: Chunk, off: nat): (r: Result<Real>)
    requires OnRecord(c, off)
    ensures r.Ok? && r.value.Num? ==> GetIValue(c, off) == Ok(r.value.v)
  {
    var v :- GetIValue(c, off);
    var na :- NaSentinel(c);
    if v == na then Ok(NaN) else Ok(Num(v))
  }

  /** `Value.isNa()`. */
  function IsNa(c: Chunk, off: nat): (r: Result<bool>)
    requires OnRecord(c, off)
    ensures r == Ok(true) ==> c.elsz >= 1 && GetIValue(c, off) == Ok(-Half(c.elsz))
  {
    var v :- GetIValue(c, off);
    var na :- NaSentinel(c);
    SentinelLookup(c.elsz);
    Ok(v == na)
  }

  /** On the k-th record the cursor's accessors read exactly what the
      row accessors `at8`, `atd` and `isNA` read for that record's row. */
  lemma ValueAccessors(c: Chunk, k: nat)
    requires Layout(c) && k < SparseLen(c)
    ensures OnRecord(c, Off(c, k))
    ensures AsLong(c, Off(c, k)) == At8Of(CellAt(c, k))
    ensures AsDouble(c, Off(c, k)) == AtDOf(CellAt(c, k))
    ensures IsNa(c, Off(c, k)) == IsNAOf(CellAt(c, k))
  {
  }

  /** For widths other than 8 the written index picks the right entry (or
      fails the same way), so the written `asLong` is the corrected one. */
  lemma AsLongAsWrittenAgrees(c: Chunk, off: nat)
    requires OnRecord(c, off) && c.elsz != 8
    ensures AsLongAsWritten(c, off) == AsLong(c, off)
  {
    SentinelLookup(c.elsz);
  }

  /** For width 8 the written `asLong` always throws
      `ArrayIndexOutOfBoundsException`, while the corrected one returns the
      value, or reports the NA pattern. */
  lemma AsLongAsWrittenWidth8(c: Chunk, off: nat)
    requires OnRecord(c, off) && c.elsz == 8
    ensures AsLongAsWritten(c, off) == Thrown(ArrayIndexOutOfBounds)
    ensures AsLong(c, off) == Ok(GetIValue(c, off).value) || AsLong(c, off) == Thrown(IllegalArgument)
  {
    SentinelLookup(c.elsz);
  }

  /** `hasNext()`: the cursor has not reached the last record. */
  predicate HasNext(c: Chunk, off: int)
    requires Shape(c)
  {
    off != |c.mem| - Inc(c)
  }

  /** `next()`: moves the cursor one record on and hands it out. */
  function Next(c: Chunk, off: int): (r: int)
    requires Shape(c)
    ensures r - off == Inc(c)
  {
    off + Inc(c)
  }

  /** The cursor offset of the j-th record, for j from -1 (one record
      before the first) on. */
  function CursorAt(c: Chunk, j: int): (r: int)
    requires Shape(c) && j >= -1
    ensures j >= 0 ==> r == Off(c, j)
  {
    OFF + Inc(c) * j
  }

  /** The test of `hasNext()` at a record slot is a test of its index. */
  lemma HasNextAt(c: Chunk, j: int)
    requires Shape(c) && -1 <= j
    ensures HasNext(c, CursorAt(c, j)) <==> j != SparseLen(c) - 1
  {
    var n: int := SparseLen(c);
    assert |c.mem| - Inc(c) == OFF + Inc(c) * (n - 1);
    if CursorAt(c, j) == |c.mem| - Inc(c) {
      MultipleInRange(Inc(c), j - (n - 1));
    }
  }

  /** The offsets `next()` hands out, in order, until `hasNext()` turns
      false, for a cursor starting at record slot j at or before the last
      record: one offset per later record. */
  function Walk(c: Chunk, j: int): (r: seq<int>)
    requires Shape(c) && -1 <= j < SparseLen(c)
    ensures |r| == SparseLen(c) - 1 - j
    ensures forall i :: 0 <= i < |r| ==> r[i] == Off(c, j + 1 + i)
    decreases SparseLen(c) - j
  {
    HasNextAt(c, j);
    var off := CursorAt(c, j);
    assert Next(c, off) == CursorAt(c, j + 1);
    if !HasNext(c, off) then []
    else [Next(c, off)] + Walk(c, j + 1)
  }

  /** `values()` as written: the cursor starts on the first record (offset
      `OFF`), so the first `next()` already moves past it. Only defined
      with records stored; see `ValuesAsWrittenEmpty` for none. */
  function ValuesAsWritten(c: Chunk): (r: seq<int>)
    requires Shape(c) && SparseLen(c) > 0
    ensures |r| == SparseLen(c) - 1
  {
    Walk(c, 0)
  }

  /** `values()` with the cursor starting one record before the first, so
      that each `next()` lands on the record it hands out. */
  function Values(c: Chunk): (r: seq<int>)
    requires Shape(c)
    ensures |r| == SparseLen(c)
  {
    Walk(c, -1)
  }

  /** The written iterator never hands out the first record: it yields the
      offsets of records 1 to n - 1 only. */
  lemma ValuesAsWrittenSkipsFirst(c: Chunk)
    requires Shape(c) && SparseLen(c) > 0
    ensures ValuesAsWritten(c) == seq(SparseLen(c) - 1, i requires 0 <= i < SparseLen(c) - 1 => Off(c, i + 1))
    ensures Off(c, 0) !in ValuesAsWritten(c)
  {
    var r := ValuesAsWritten(c);
    forall i | 0 <= i < |r|
      ensures r[i] != Off(c, 0)
    {
      OffIncreasing(c, 0, i + 1);
    }
  }

  /** With no records the written iterator never stops: `hasNext()` holds
      at the start and at every offset `next()` moves on to, and the first
      offset handed out already lies past the buffer. */
  lemma ValuesAsWrittenEmpty(c: Chunk, steps: nat)
    requires Shape(c) && SparseLen(c) == 0
    ensures HasNext(c, CursorAt(c, steps))
    ensures Next(c, OFF) + c.idsz > |c.mem|
  {
    HasNextAt(c, steps);
  }

  /** The corrected iterator hands out every record, in storage order, and
      stops after the last one (at once when there is none). */
  lemma ValuesVisitAll(c: Chunk)
    requires Shape(c)
    ensures Values(c) == seq(SparseLen(c), i requires 0 <= i < SparseLen(c) => Off(c, i))
    ensures !HasNext(c, CursorAt(c, SparseLen(c) - 1))
  {
    HasNextAt(c, SparseLen(c) - 1);
  }

  /** Walking with the corrected iterator reads the stored ids in order, and
      each value as the row accessors read it. */
  lemma ValuesRead(c: Chunk)
    requires Layout(c)
    ensures forall i :: 0 <= i < SparseLen(c) ==>
              OnRecord(c, Values(c)[i]) && RowInChunk(c, Values(c)[i]) == Ids(c)[i]
    ensures forall i :: 0 <= i < SparseLen(c) ==>
              OnRecord(c, Values(c)[i]) && AsLong(c, Values(c)[i]) == At8Of(CellAt(c, i))
  {
    forall i | 0 <= i < SparseLen(c)
      ensures OnRecord(c, Values(c)[i])
      ensures RowInChunk(c, Values(c)[i]) == Ids(c)[i]
      ensures AsLong(c, Values(c)[i]) == At8Of(CellAt(c, i))
    {
      ValueAccessors(c, i);
    }
  }

  /** Later records lie at higher offsets. */
  lemma OffIncreasing(c: Chunk, a: nat, b: nat)
    requires Shape(c) && a < b
    ensures Off(c, a) < Off(c, b)
  {
    MulBelow(Inc(c), a, b);
  }

  /** The read position of `nonzeros`'s i-th step as written: a stride of
      `elsz + 2`, right only for 2-byte ids, never past the buffer. */
  function StridedId(c: Chunk, i: nat): (r: int)
    requires Shape(c) && i < SparseLen(c)
    ensures 0 <= r < 0x1_0000
  {
    var stride := c.elsz + 2;
    MulBelow(Inc(c), i, SparseLen(c));
    MulOrdered(i, stride, Inc(c));
    assert stride * i <= Inc(c) * i;
    Masked16(c.mem, OFF + stride * i)
  }

  /** What the written `nonzeros` stores, entry by entry. */
  function AsWrittenIds(c: Chunk): (s: seq<int>)
    requires Shape(c)
    ensures |s| == SparseLen(c)
    ensures forall i :: 0 <= i < |s| ==> s[i] == StridedId(c, i)
  {
    seq(SparseLen(c), i requires 0 <= i < SparseLen(c) => StridedId(c, i))
  }

  /** `nonzeros(arr)` as written: fills arr[0..n) with the strided 16-bit
      reads and returns n; an array shorter than n takes the first |arr|
      entries and then throws `ArrayIndexOutOfBoundsException`. */
  method NonzerosAsWritten(c: Chunk, arr: seq<int32>) returns (r: Result<int>, arr': seq<int32>)
    requires Shape(c)
    ensures |arr'| == |arr|
    ensures r.Thrown? <==> |arr| < SparseLen(c)
    ensures r.Thrown? ==> r.exc == ArrayIndexOutOfBounds && arr' == AsWrittenIds(c)[..|arr|]
    ensures r.Ok? ==> r.value == SparseLen(c)
    ensures r.Ok? ==> arr'[..SparseLen(c)] == AsWrittenIds(c) && arr'[SparseLen(c)..] == arr[SparseLen(c)..]
  {
    var n := SparseLen(c);
    ghost var ids := AsWrittenIds(c);
    arr' := arr;
    var i := 0;
    while i < n
      invariant 0 <= i <= n && i <= |arr|
      invariant |arr'| == |arr|
      invariant arr'[..i] == ids[..i] && arr'[i..] == arr[i..]
    {
      if i >= |arr| {
        return Thrown(ArrayIndexOutOfBounds), arr';
      }
      arr' := arr'[i := StridedId(c, i)];
      i := i + 1;
    }
    return Ok(n), arr';
  }

  /** `nonzeros(arr)` with the record stride and `getId`: arr[0..n) receives
      the stored row ids; a short array throws after its last entry. */
  method Nonzeros(c: Chunk, arr: seq<int32>) returns (r: Result<int>, arr': seq<int32>)
    requires Shape(c)
    ensures |arr'| == |arr|
    ensures r.Thrown? <==> |arr| < SparseLen(c)
    ensures r.Thrown? ==> r.exc == ArrayIndexOutOfBounds && arr' == Ids(c)[..|arr|]
    ensures r.Ok? ==> r.value == SparseLen(c)
    ensures r.Ok? ==> arr'[..SparseLen(c)] == Ids(c) && arr'[SparseLen(c)..] == arr[SparseLen(c)..]
  {
    var n := SparseLen(c);
    ghost var ids := Ids(c);
    arr' := arr;
    var i := 0;
    while i < n
      invariant 0 <= i <= n && i <= |arr|
      invariant |arr'| == |arr|
      invariant arr'[..i] == ids[..i] && arr'[i..] == arr[i..]
    {
      if i >= |arr| {
        return Thrown(ArrayIndexOutOfBounds), arr';
      }
      arr' := arr'[i := GetId(c, Off(c, i))];
      i := i + 1;
    }
    return Ok(n), arr';
  }

  /** With 2-byte ids the written stride is the record size, so the written
      `nonzeros` lists the stored ids. */
  lemma AsWrittenIdsNarrow(c: Chunk)
    requires Shape(c) && c.idsz == 2
    ensures AsWrittenIds(c) == Ids(c)
  {
  }

  /** With 4-byte ids and no value bytes the written stride is half a
      record, so its second read is the upper half of the first id: for a
      first id below 65536 that is 0, whatever the second id is. */
  lemma AsWrittenIdsWide(c: Chunk)
    requires Shape(c) && c.idsz == 4 && c.elsz == 0 && SparseLen(c) >= 2
    requires 0 <= IdAt(c, 0) < 0x1_0000
    ensures AsWrittenIds(c)[0] == Ids(c)[0] && AsWrittenIds(c)[1] == 0
  {
    var m := c.mem;
    var s := m[6..10];
    assert Off(c, 0) == 6;
    assert Pow256(3) == 0x100_0000;
    assert IdAt(c, 0) == Signed(LeValue(s), 4);
    LeValueSplit(s, 2);
    assert s[..2] == m[6..8] && s[2..] == m[8..10];
    assert LeValue(s[2..]) == 0;
    assert StridedId(c, 1) == GetUnsigned(m, 8, 2);
  }

  /** A chunk of 100000 rows without value bytes holding rows 1 and 70000
      (as the constructor builds it from ids [1, 70000]): the written
      `nonzeros` reports rows 1 and 0. */
  lemma AsWrittenIdsExample(c: Chunk)
    requires Layout(c) && c.len == 100000 && c.elsz == 0
    requires Ids(c) == [1, 70000]
    ensures AsWrittenIds(c) == [1, 0] != Ids(c)
  {
    assert c.idsz == IdWidth(100000) == 4;
    assert IdAt(c, 0) == Ids(c)[0];
    AsWrittenIdsWide(c);
  }
}
