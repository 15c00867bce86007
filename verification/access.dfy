/** The row accessors (`at8_impl`, `atd_impl`, `isNA_impl`), `skipCnt`,
    `inflate_impl` and the refusing mutators. Each accessor is specified by a
    reference reading of the chunk that does not mention the lookup cache:
    a row is a sparse zero when no record holds its id, and otherwise what
    the record holding it decodes to. */
module Access {
  import opened JavaTypes
  import opened ByteOrder
  import opened Sentinels
  import opened Chunks
  import opened Lookup
  import Encoder

  /** What a row of the chunk holds. */
  datatype Cell = Zero | Value(s: Stored)

  /** The reference reading of row `idx`: out of range fails, an id no record
      holds is a sparse zero, and a stored id reads as its record decodes
      (which fails at value widths 0 and 1). */
  function RowOf(c: Chunk, idx: int): Result<Cell>
    requires Layout(c)
  {
    if idx >= c.len then Thrown(IndexOutOfBounds)
    else if idx !in Ids(c) then Ok(Zero)
    else CellAt(c, IndexOf(Ids(c), idx))
  }

  /** The reading of the k-th record. */
  function CellAt(c: Chunk, k: nat): Result<Cell>
    requires Layout(c) && k < SparseLen(c)
  {
    var s :- Decode(c, k);
    Ok(Value(s))
  }

  /** For increasing ids, the floor record of `idx` decides the reading: a
      sparse zero unless it holds `idx` itself. */
  lemma RowAtFloor(c: Chunk, idx: int, k: nat)
    requires Layout(c) && Sorted(c) && idx < c.len && SparseLen(c) > 0
    requires k == Floor(Ids(c), idx)
    ensures IdAt(c, k) != idx ==> RowOf(c, idx) == Ok(Zero)
    ensures IdAt(c, k) == idx ==> RowOf(c, idx) == CellAt(c, k)
  {
    assert Ids(c)[k] == IdAt(c, k);
    FloorHit(Ids(c), idx);
  }

  /** With no records, the id `findOffset`'s answer 0 points at is the low
      part of the length in the header, which is never an index below the
      length: the callers' `getId(off) != idx` test rejects it. */
  lemma {:induction false} EmptyMiss(c: Chunk, idx: int)
    requires Layout(c) && idx < c.len
    ensures GetId(c, 0) != idx
  {
    if c.idsz == 2 && c.len >= 0 {
      var whole := c.mem[0..4];
      assert Signed(LeValue(whole), 4) == c.len;
      LeValueSplit(whole, 2);
      assert whole[..2] == c.mem[0..2];
      assert Pow256(2) == 0x1_0000;
    }
  }

  /** Lines shared by `at8_impl`, `atd_impl` and `isNA_impl`: find the
      offset, compare its id with `idx` (a sparse zero when they differ),
      then read the value and compare it with the NA pattern. The chunk that
      comes back differs at most in its cache. When the stored ids increase,
      the outcome is the reference reading of the row. */
  method ReadRow(c: Chunk, idx: int32) returns (r: Result<Cell>, c': Chunk)
    requires Layout(c)
    ensures c' == c.(lastOff := c'.lastOff) && Layout(c')
    ensures idx >= c.len ==> r == Thrown(IndexOutOfBounds)
    ensures Sorted(c) ==> r == RowOf(c, idx)
  {
    var found;
    found, c' := FindOffset(c, idx);
    if found.Thrown? {
      return Thrown(found.exc), c';
    }
    var off := found.value;
    ghost var k := CacheIndex(c');
    Recached(c, c', k);
    ghost var stored := SparseLen(c) > 0;
    if !stored {
      // the answer 0 points into the header
      assert off == 0 && c' == c;
      EmptyMiss(c, idx);
      assert GetId(c', off) != idx;
    } else {
      assert k < SparseLen(c) && off == Off(c, k);
      if Sorted(c) {
        RowAtFloor(c, idx, k);
      }
    }
    if GetId(c', off) != idx {
      return Ok(Zero), c';
    }
    assert stored;
    var s :- DecodeAt(c', off);
    return Ok(Value(s)), c';
  }

  /** `at8_impl`: a sparse zero reads 0 and a missing value throws. */
  function At8Of(row: Result<Cell>): Result<int> {
    match row
    case Thrown(e) => Thrown(e)
    case Ok(Zero) => Ok(0)
    case Ok(Value(NA)) => Thrown(IllegalArgument)
    case Ok(Value(Int(v))) => Ok(v)
  }

  /** `atd_impl`'s `double`, for an integer chunk: NaN or an integer. */
  datatype Real = NaN | Num(v: int)

  /** `atd_impl`: a sparse zero reads 0 and a missing value reads NaN. */
  function AtDOf(row: Result<Cell>): Result<Real> {
    match row
    case Thrown(e) => Thrown(e)
    case Ok(Zero) => Ok(Num(0))
    case Ok(Value(NA)) => Ok(NaN)
    case Ok(Value(Int(v))) => Ok(Num(v))
  }

  /** `isNA_impl`: only a stored NA pattern is missing. */
  function IsNAOf(row: Result<Cell>): Result<bool> {
    match row
    case Thrown(e) => Thrown(e)
    case Ok(Zero) => Ok(false)
    case Ok(Value(s)) => Ok(s == NA)
  }

  /** `at8_impl(idx)`. For increasing ids: out of range throws, a sparse zero
      is 0, a stored NA throws `IllegalArgumentException`, a stored value is
      returned, and widths 0 and 1 fail on any stored row. */
  method At8(c: Chunk, idx: int32) returns (r: Result<int>, c': Chunk)
    requires Layout(c)
    ensures c' == c.(lastOff := c'.lastOff) && Layout(c')
    ensures idx >= c.len ==> r == Thrown(IndexOutOfBounds)
    ensures Sorted(c) ==> r == At8Of(RowOf(c, idx))
  {
    var row;
    row, c' := ReadRow(c, idx);
    r := At8Of(row);
  }

  /** `atd_impl(idx)`: as `at8_impl`, except that a stored NA reads NaN. */
  method AtD(c: Chunk, idx: int32) returns (r: Result<Real>, c': Chunk)
    requires Layout(c)
    ensures c' == c.(lastOff := c'.lastOff) && Layout(c')
    ensures idx >= c.len ==> r == Thrown(IndexOutOfBounds)
    ensures Sorted(c) ==> r == AtDOf(RowOf(c, idx))
  {
    var row;
    row, c' := ReadRow(c, idx);
    r := AtDOf(row);
  }

  /** `isNA_impl(idx)`: true exactly for a stored NA pattern. */
  method IsNA(c: Chunk, idx: int32) returns (r: Result<bool>, c': Chunk)
    requires Layout(c)
    ensures c' == c.(lastOff := c'.lastOff) && Layout(c')
    ensures idx >= c.len ==> r == Thrown(IndexOutOfBounds)
    ensures Sorted(c) ==> r == IsNAOf(RowOf(c, idx))
  {
    var row;
    row, c' := ReadRow(c, idx);
    r := IsNAOf(row);
  }

  /** The three accessors agree on every row: `isNA` holds exactly where
      `at8` throws `IllegalArgumentException` and `atd` reads NaN, and
      elsewhere `at8` and `atd` report the same integer. */
  lemma AccessorsAgree(c: Chunk, idx: int)
    requires Layout(c)
    ensures var row := RowOf(c, idx);
            IsNAOf(row) == Ok(true) <==> At8Of(row) == Thrown(IllegalArgument)
    ensures var row := RowOf(c, idx);
            IsNAOf(row) == Ok(true) <==> AtDOf(row) == Ok(NaN)
    ensures var row := RowOf(c, idx);
            At8Of(row).Ok? <==> AtDOf(row).Ok? && AtDOf(row).value.Num?
    ensures var row := RowOf(c, idx);
            At8Of(row).Ok? ==> AtDOf(row) == Ok(Num(At8Of(row).value))
  {
  }

  /** All stored row ids are below the chunk length, as the encoder's
      callers supply them. */
  predicate IdsBelowLen(c: Chunk)
    requires Shape(c)
  {
    forall k :: 0 <= k < |Ids(c)| ==> Ids(c)[k] < c.len
  }

  /** The reference answer of `skipCnt(rid)`: the distance from `rid` to the
      first stored row above it, or 0 when none is; with no records the
      cached offset points past the buffer. For a `rid` below every stored
      row the first stored row is passed over and the distance is to the
      second one. */
  function SkipCntOf(c: Chunk, rid: int): Result<int>
    requires Shape(c)
  {
    if SparseLen(c) == 0 then Thrown(ArrayIndexOutOfBounds)
    else if rid >= c.len then Thrown(IndexOutOfBounds)
    else Ok(Wrap(GapFrom(Ids(c), rid), 4))
  }

  /** The distance part of `SkipCntOf` over the stored ids, before the
      narrowing to 32 bits. */
  function GapFrom(ids: seq<int>, rid: int): int
    requires |ids| > 0
  {
    var j := if rid < ids[0] then 1 else FirstAbove(ids, rid);
    if j < |ids| then ids[j] - rid else 0
  }

  /** For increasing ids the distance is taken from the record after the
      floor record of `rid`. */
  lemma GapFromFloor(ids: seq<int>, rid: int)
    requires StrictlyIncreasing(ids) && |ids| > 0
    ensures var k := Floor(ids, rid);
            GapFrom(ids, rid) == if k + 1 < |ids| then ids[k + 1] - rid else 0
  {
    if rid >= ids[0] {
      FloorNext(ids, rid);
    }
  }

  /** Lines 208-210 of `skipCnt` at record k, before the subtraction is
      narrowed to 32 bits: the distance from `rid` to the id of the next
      record, or 0 at the last record. */
  function GapAfter(c: Chunk, k: nat, rid: int): (r: int)
    requires Shape(c) && k < SparseLen(c)
    ensures r == if k + 1 < SparseLen(c) then IdAt(c, k + 1) - rid else 0
  {
    var off := Off(c, k);
    NextInside(c, k);
    if off < |c.mem| - c.idsz - c.elsz then GetId(c, off + c.idsz + c.elsz) - rid else 0
  }

  /** `skipCnt(rid)`: looks the row up unless it is the cached record's id,
      then measures the gap to the next record. The chunk that comes back
      differs at most in its cache. */
  method SkipCnt(c: Chunk, rid: int32) returns (r: Result<int>, c': Chunk)
    requires Layout(c)
    ensures c' == c.(lastOff := c'.lastOff) && Layout(c')
    ensures SparseLen(c) == 0 ==> r == Thrown(ArrayIndexOutOfBounds)
    ensures Sorted(c) && IdsBelowLen(c) ==> r == SkipCntOf(c, rid)
  {
    SkipFailures(c, rid);
    var found;
    found, c' := SkipLookup(c, rid);
    if found.Thrown? {
      return Thrown(found.exc), c';
    }
    var k := found.value;
    // the subtraction is Java int arithmetic; Wrap(0, 4) is 0
    r := Ok(Wrap(GapAfter(c, k, rid), 4));
    if Sorted(c) && IdsBelowLen(c) {
      SkipAnswer(c, rid, k);
    }
  }

  /** Lines 205-207 of `skipCnt`: the cached record when it holds `rid`,
      otherwise the record `findOffset` settles on, as a record index. The
      read of the cached id fails when there are no records (the cache then
      points at the end of the buffer), and the lookup fails for `rid` out
      of range. */
  method SkipLookup(c: Chunk, rid: int32) returns (r: Result<nat>, c': Chunk)
    requires Layout(c)
    ensures c' == c.(lastOff := c'.lastOff) && Layout(c')
    ensures r.Thrown? <==> SparseLen(c) == 0 || (rid >= c.len && rid != IdAt(c, CacheIndex(c)))
    ensures r.Thrown? ==> r.exc == if SparseLen(c) == 0 then ArrayIndexOutOfBounds else IndexOutOfBounds
    ensures r.Ok? ==> r.value < SparseLen(c)
    ensures r.Ok? && Sorted(c) && IdsBelowLen(c) ==> r.value == Floor(Ids(c), rid) && rid < c.len
  {
    c' := c;
    var k := CacheIndex(c);
    if c.lastOff + c.idsz > |c.mem| {
      // no records: the cache sits at the end of the buffer
      assert SparseLen(c) == 0;
      return Thrown(ArrayIndexOutOfBounds), c';
    }
    var currentId := GetId(c, c.lastOff);
    assert currentId == IdAt(c, k);
    if rid != currentId {
      var found;
      found, c' := FindOffset(c, rid);
      if found.Thrown? {
        return Thrown(found.exc), c';
      }
      k := CacheIndex(c');
      Recached(c, c', k);
      if Sorted(c) {
        OffInjective(c, k, Floor(Ids(c), rid));
      }
    } else if Sorted(c) && IdsBelowLen(c) {
      CachedFloor(c, k, rid);
    }
    return Ok(k), c';
  }

  /** `skipCnt`'s two failures: no records, and a lookup out of range. */
  lemma SkipFailures(c: Chunk, rid: int)
    requires Shape(c)
    ensures SparseLen(c) == 0 ==> SkipCntOf(c, rid) == Thrown(ArrayIndexOutOfBounds)
    ensures SparseLen(c) > 0 && rid >= c.len ==> SkipCntOf(c, rid) == Thrown(IndexOutOfBounds)
  {
  }

  /** Distinct records lie at distinct offsets. */
  lemma OffInjective(c: Chunk, a: nat, b: nat)
    requires Shape(c) && Off(c, a) == Off(c, b)
    ensures a == b
  {
    assert Inc(c) * (a - b) == 0;
    MultipleInRange(Inc(c), a - b);
  }

  /** A stored id is its own floor, and lies below the length. */
  lemma CachedFloor(c: Chunk, k: nat, rid: int)
    requires Sorted(c) && IdsBelowLen(c) && k < SparseLen(c) && IdAt(c, k) == rid
    ensures Floor(Ids(c), rid) == k && rid < c.len
  {
    assert Ids(c)[k] == rid;
    FloorHit(Ids(c), rid);
  }

  /** The record after the floor record of `rid` is the first one above it,
      except below the first record, where the floor is record 0. */
  lemma SkipAnswer(c: Chunk, rid: int, k: nat)
    requires Sorted(c) && k < SparseLen(c) && rid < c.len
    requires k == Floor(Ids(c), rid)
    ensures SkipCntOf(c, rid) == Ok(Wrap(GapAfter(c, k, rid), 4))
  {
    var ids := Ids(c);
    GapFromFloor(ids, rid);
    assert k + 1 < |ids| ==> ids[k + 1] == IdAt(c, k + 1);
    var g := GapFrom(ids, rid);
    assert g == GapAfter(c, k, rid);
    assert SkipCntOf(c, rid) == Ok(Wrap(g, 4));
  }

  /** The arrays `inflate_impl` fills in the receiving `NewChunk`: the row
      count `len2`, the stored count, and per stored record its id, its
      mantissa and its exponent. */
  datatype Inflated = Inflated(len2: int, len: nat, id: seq<int>, ls: seq<int>, xs: seq<int>)

  /** The mantissa and exponent `inflate_impl` records for a decoded value:
      `Long.MAX_VALUE` and `Integer.MIN_VALUE` for NA, the value and the
      zero the fresh exponent array holds otherwise. */
  function Entry(s: Stored): (int, int) {
    match s
    case NA => (MAX_LONG, MIN_INT)
    case Int(v) => (v, 0)
  }

  /** `inflate_impl`: every record, in order, as (id, mantissa, exponent).
      It fails on the first record when the width has no value or no NA
      pattern, so it succeeds exactly for an empty chunk or widths 2, 4, 8. */
  function Inflate(c: Chunk): (r: Result<Inflated>)
    requires Layout(c)
    ensures r.Ok? <==> SparseLen(c) == 0 || HasSentinel(c.elsz)
    ensures r.Thrown? ==> r == Thrown(Decode(c, 0).exc)
    ensures r.Ok? ==> && r.value.len2 == c.len && r.value.len == SparseLen(c)
                      && r.value.id == Ids(c)
                      && |r.value.ls| == |r.value.xs| == SparseLen(c)
    ensures r.Ok? ==> forall k :: 0 <= k < SparseLen(c) ==>
                        Decode(c, k).Ok? && (r.value.ls[k], r.value.xs[k]) == Entry(Decode(c, k).value)
  {
    var n := SparseLen(c);
    if n > 0 && !HasSentinel(c.elsz) then Thrown(Decode(c, 0).exc)
    else
      var values := seq(n, k requires 0 <= k < n => Decode(c, k).value);
      Ok(Inflated(c.len, n, Ids(c),
                  seq(n, k requires 0 <= k < n => Entry(values[k]).0),
                  seq(n, k requires 0 <= k < n => Entry(values[k]).1)))
  }

  /** Round trip of the constructor and `inflate_impl`: a chunk built from
      ids below its length and widths 2, 4 or 8 inflates to those ids, in
      order, and per entry to the value the constructor stored (the NA pair
      where that value is the NA pattern). */
  lemma InflateEncoded(ls: seq<int64>, xs: seq<int32>, ids: seq<int32>, len: int32, nz: nat, elsz: int, c: Chunk)
    requires Encoder.Arguments(ls, xs, ids, nz, elsz) && Encoder.Encode(ls, xs, ids, len, nz, elsz) == Ok(c)
    requires forall k :: 0 <= k < nz ==> 0 <= ids[k] < len
    requires HasSentinel(elsz)
    ensures Inflate(c).Ok? && Inflate(c).value.id == ids[..nz]
    ensures forall k :: 0 <= k < nz ==>
              var e := Encoder.Expected(ls[k], xs[k], elsz);
              (Inflate(c).value.ls[k], Inflate(c).value.xs[k]) == if e == -Half(elsz) then (MAX_LONG, MIN_INT) else (e, 0)
  {
    Encoder.EncodedIds(ls, xs, ids, len, nz, elsz, c);
    var r := Inflate(c).value;
    assert r.id == ids[..nz];
    forall k | 0 <= k < nz
      ensures var e := Encoder.Expected(ls[k], xs[k], elsz);
              (r.ls[k], r.xs[k]) == if e == -Half(elsz) then (MAX_LONG, MIN_INT) else (e, 0)
    {
      Encoder.EncodedDecode(ls, xs, ids, len, nz, elsz, c, k);
    }
  }

  /** What a caller asks a mutator to store. */
  datatype Update = SetLong(l: int64) | SetDouble | SetFloat | SetNA

  /** `set_impl` (all three overloads) and `setNA_impl`: the sparse chunk
      refuses every write, returning false and leaving the chunk as it was,
      so the caller inflates it first. */
  function SetImpl(c: Chunk, idx: int32, u: Update): (r: (bool, Chunk))
    ensures !r.0 && r.1 == c
  {
    (false, c)
  }
}
