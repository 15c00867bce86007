/** The sparse integer chunk: its buffer layout, the layout planner (the
    three-argument constructor) and the record accessors `getId`, `getOff`
    and `getIValue`.

    Buffer layout: bytes 0..3 hold the chunk length, byte 4 the row-id width,
    byte 5 the value width, and from byte 6 on follow the records, each a row
    id of `idsz` bytes followed by a value of `elsz` bytes. */
module Chunks {
  import opened JavaTypes
  import opened ByteOrder
  import opened Sentinels

  /** Offset of the first record: the header size. */
  const OFF: nat := 6

  /** The chunk object. `lastOff` is the lookup cache: the offset of the
      record found last. */
  datatype Chunk = Chunk(mem: seq<byte>, len: int32, idsz: int, elsz: int, elszLog: int, lastOff: int)

  /** One stored value: the NA pattern of the chunk's width, or an integer. */
  datatype Stored = NA | Int(v: int)

  /** The row-id width chosen for a chunk of `len` rows. With 2-byte ids the
      largest row id, len - 1, is below 0xFFFF and fits an unsigned 16-bit
      field. */
  function IdWidth(len: int): (r: int)
    ensures r == 2 || r == 4
    ensures r == 2 ==> len - 1 < Pow256(2) - 1
    ensures r == 4 <==> len >= Pow256(2) - 1
  {
    if len >= 65535 then 4 else 2
  }

  /** A value width the constructor accepts. */
  predicate ValueWidth(w: int) {
    w == 0 || w == 1 || w == 2 || w == 4 || w == 8
  }

  /** Widths are legal and the buffer is the header followed by whole records. */
  predicate Shape(c: Chunk) {
    && (c.idsz == 2 || c.idsz == 4)
    && ValueWidth(c.elsz)
    && |c.mem| >= OFF
    && (|c.mem| - OFF) % (c.idsz + c.elsz) == 0
  }

  /** Size in bytes of one record. */
  function Inc(c: Chunk): (r: int)
    requires Shape(c)
    ensures 2 <= r <= 12
  {
    c.idsz + c.elsz
  }

  /** `sparseLen()`: the number of stored records, derived from the buffer
      length. The buffer is exactly the header plus that many records. */
  function SparseLen(c: Chunk): (n: nat)
    requires Shape(c)
    ensures OFF + Inc(c) * n == |c.mem|
  {
    (|c.mem| - OFF) / Inc(c)
  }

  /** `getOff(k)`: the offset of the k-th record. For a stored record the
      whole record lies inside the buffer. */
  function Off(c: Chunk, k: nat): (r: nat)
    requires Shape(c)
    ensures r >= OFF
    ensures k < SparseLen(c) ==> r + Inc(c) <= |c.mem|
  {
    MulBelow(Inc(c), k, SparseLen(c));
    OFF + Inc(c) * k
  }

  /** `getId(off)`: the row id stored at `off`; 2-byte ids are read unsigned
      (the `& 0xFFFF` mask) and 4-byte ids signed. */
  function GetId(c: Chunk, off: nat): (r: int)
    requires Shape(c) && off + c.idsz <= |c.mem|
    ensures c.idsz == 2 ==> r == GetUnsigned(c.mem, off, 2)
    ensures c.idsz == 4 ==> -Half(4) <= r < Half(4)
    ensures MIN_INT <= r <= MAX_INT
  {
    assert Pow256(3) == 0x100_0000;
    if c.idsz == 2 then Masked16(c.mem, off) else Get(c.mem, off, 4)
  }

  /** `UDP.get2(buf, off) & 0xFFFF`: the sign-extended 16-bit read masked
      back to its unsigned value. */
  function Masked16(buf: seq<byte>, off: nat): (r: int)
    requires off + 2 <= |buf|
    ensures r == GetUnsigned(buf, off, 2)
    ensures 0 <= r < 0x1_0000
  {
    var s := Get(buf, off, 2);
    ModAddMultiple(GetUnsigned(buf, off, 2), Pow256(2), -1);
    s % 0x1_0000
  }

  /** The row id of the k-th stored record. */
  function IdAt(c: Chunk, k: nat): int
    requires Shape(c) && k < SparseLen(c)
  {
    GetId(c, Off(c, k))
  }

  /** The stored row ids in storage order. */
  function Ids(c: Chunk): (s: seq<int>)
    requires Shape(c)
    ensures |s| == SparseLen(c)
    ensures forall k :: 0 <= k < |s| ==> s[k] == IdAt(c, k)
  {
    seq(SparseLen(c), k requires 0 <= k < SparseLen(c) => IdAt(c, k))
  }

  predicate StrictlyIncreasing(s: seq<int>) {
    forall j, k :: 0 <= j < k < |s| ==> s[j] < s[k]
  }

  /** The record order that lookup relies on. */
  predicate Sorted(c: Chunk) {
    Shape(c) && StrictlyIncreasing(Ids(c))
  }

  /** `getIValue(off)`: the value of the record at `off`, sign-extended from
      its width (a Java `byte` for width 1); width 0 has no value to read. */
  function GetIValue(c: Chunk, off: nat): (r: Result<int>)
    requires Shape(c) && off + Inc(c) <= |c.mem|
    ensures r.Ok? <==> c.elsz != 0
    ensures r.Thrown? ==> r.exc == Unimplemented
    ensures r.Ok? ==> -Half(c.elsz) <= r.value < Half(c.elsz)
  {
    if c.elsz == 1 || c.elsz == 2 || c.elsz == 4 || c.elsz == 8 then
      Ok(Get(c.mem, off + c.idsz, c.elsz))
    else
      Thrown(Unimplemented)
  }

  /** `NAS[_elsz_log - 1]`: the NA pattern the accessors compare against. */
  function NaSentinel(c: Chunk): Result<int> {
    NaAt(c.elszLog - 1)
  }

  /** The header records the length and both widths, and the cached widths
      agree with it. */
  predicate HeaderOk(c: Chunk) {
    && |c.mem| >= OFF
    && Get(c.mem, 0, 4) == c.len
    && c.mem[4] == c.idsz
    && c.mem[5] == c.elsz
    && c.idsz == IdWidth(c.len)
    && c.elszLog == Log2Floor(c.elsz)
  }

  /** The cache holds the offset of a stored record, or the first record
      offset when there is none. */
  predicate CacheOk(c: Chunk) {
    && Shape(c)
    && OFF <= c.lastOff
    && (c.lastOff - OFF) % Inc(c) == 0
    && (c.lastOff == OFF || c.lastOff < |c.mem|)
  }

  /** Every invariant a constructed or deserialised chunk keeps. */
  predicate Layout(c: Chunk) {
    Shape(c) && HeaderOk(c) && CacheOk(c)
  }

  /** Moving the cache to another valid entry keeps every invariant, and
      every record where it was. */
  lemma Recached(c: Chunk, c': Chunk, k: nat)
    requires Layout(c) && c' == c.(lastOff := c'.lastOff) && CacheOk(c')
    ensures Layout(c') && SparseLen(c') == SparseLen(c) && Inc(c') == Inc(c)
    ensures Off(c', k) == Off(c, k)
    ensures k < SparseLen(c) ==> IdAt(c', k) == IdAt(c, k) && DecodeAt(c', Off(c, k)) == Decode(c, k)
  {
    assert c'.mem == c.mem && c'.idsz == c.idsz && c'.elsz == c.elsz;
    assert c'.len == c.len && c'.elszLog == c.elszLog;
    if k < SparseLen(c) {
      RecachedRecord(c, c', Off(c, k));
    }
  }

  /** The record at `off` reads the same whatever the cache holds. */
  lemma RecachedRecord(c: Chunk, c': Chunk, off: nat)
    requires Layout(c) && Layout(c') && c' == c.(lastOff := c'.lastOff)
    requires off + Inc(c) <= |c.mem|
    ensures GetId(c', off) == GetId(c, off) && DecodeAt(c', off) == DecodeAt(c, off)
  {
    assert GetIValue(c', off) == GetIValue(c, off) && NaSentinel(c') == NaSentinel(c);
  }

  /** The record index the cache points at. */
  function CacheIndex(c: Chunk): (k: nat)
    requires CacheOk(c)
    ensures Off(c, k) == c.lastOff
    ensures SparseLen(c) > 0 ==> k < SparseLen(c)
  {
    var d := c.lastOff - OFF;
    var k := d / Inc(c);
    DivModUnique(d, Inc(c), k, 0);
    MulOrdered(Inc(c), SparseLen(c), k);
    k
  }

  /** Decodes the record at `off` as the accessors do: read the value, look
      up the NA pattern, compare. Widths 0 and 1 fail (no value to read, no
      table entry); for widths 2, 4 and 8 the record is NA exactly when it
      holds the minimum signed value of its width. */
  function DecodeAt(c: Chunk, off: nat): (r: Result<Stored>)
    requires Layout(c) && off + Inc(c) <= |c.mem|
    ensures r.Ok? <==> HasSentinel(c.elsz)
    ensures c.elsz == 0 ==> r == Thrown(Unimplemented)
    ensures c.elsz == 1 ==> r == Thrown(ArrayIndexOutOfBounds)
    ensures r.Ok? ==> (r.value == NA <==> GetIValue(c, off) == Ok(-Half(c.elsz)))
    ensures r.Ok? && r.value.Int? ==> GetIValue(c, off) == Ok(r.value.v)
  {
    SentinelLookup(c.elsz);
    var v :- GetIValue(c, off);
    var na :- NaSentinel(c);
    if v == na then Ok(NA) else Ok(Int(v))
  }

  /** The k-th record decoded. */
  function Decode(c: Chunk, k: nat): (r: Result<Stored>)
    requires Layout(c) && k < SparseLen(c)
    ensures r.Ok? <==> HasSentinel(c.elsz)
    ensures c.elsz == 0 ==> r == Thrown(Unimplemented)
    ensures c.elsz == 1 ==> r == Thrown(ArrayIndexOutOfBounds)
    ensures r.Ok? ==> (r.value == NA <==> GetIValue(c, Off(c, k)) == Ok(-Half(c.elsz)))
    ensures r.Ok? && r.value.Int? ==> GetIValue(c, Off(c, k)) == Ok(r.value.v)
  {
    DecodeAt(c, Off(c, k))
  }

  /** The three-argument constructor: chooses the row-id width, allocates a
      zeroed buffer for `nzs` records and writes the header. The result has
      exactly `nzs` record slots, all zero, and its header reads back as
      `len` and the two widths. */
  function Plan(len: int32, nzs: nat, esz: int): (c: Chunk)
    requires ValueWidth(esz)
    ensures Layout(c)
    ensures c.len == len && c.elsz == esz && c.lastOff == OFF
    ensures SparseLen(c) == nzs
    ensures forall t :: OFF <= t < |c.mem| ==> c.mem[t] == 0
  {
    var idsz := IdWidth(len);
    var inc := idsz + esz;
    var size := inc * nzs;
    var mem := HeaderBytes(len, idsz, esz, size);
    var c := Chunk(mem, len, idsz, esz, Log2Floor(esz), OFF);
    assert |mem| - OFF == size;
    DivModUnique(size, inc, nzs, 0);
    assert Shape(c) && Inc(c) == inc;
    assert HeaderOk(c) && CacheOk(c);
    c
  }

  /** The planner's buffer: `size` zero bytes after a header holding `len`
      and the two widths. */
  function HeaderBytes(len: int32, idsz: byte, esz: byte, size: nat): (mem: seq<byte>)
    ensures |mem| == size + OFF
    ensures Get(mem, 0, 4) == len && mem[4] == idsz && mem[5] == esz
    ensures forall t :: OFF <= t < |mem| ==> mem[t] == 0
  {
    var mem: seq<byte> := LeBytes(len, 4) + [idsz, esz] + seq(size, _ => 0);
    assert mem[0..4] == LeBytes(len, 4);
    LengthField(mem, len);
    mem
  }

  /** A 4-byte field holding the little-endian bytes of an `int` reads back
      as that `int`. */
  lemma LengthField(mem: seq<byte>, len: int32)
    requires |mem| >= 4 && mem[0..4] == LeBytes(len, 4)
    ensures Get(mem, 0, 4) == len
  {
    assert Pow256(3) == 0x100_0000;
    ReadBack(mem, 0, len, 4);
    WrapIdentity(len, 4);
  }

  /** Scaling a strict bound by a non-negative factor. */
  lemma MulBelow(d: int, k: int, n: int)
    requires d >= 0
    ensures k < n ==> d * k + d <= d * n
  {
    if k < n {
      MulMonotone(d, k + 1, n);
      assert d * (k + 1) == d * k + d;
    }
  }

  /** Scaling a bound by a non-negative factor. */
  lemma MulOrdered(d: int, a: int, b: int)
    requires d >= 0
    ensures a <= b ==> d * a <= d * b
  {
    if a <= b {
      MulMonotone(d, a, b);
    }
  }

  /** The width boundary of the row-id field: 65534 rows fit 2-byte ids,
      65535 rows get 4-byte ids. */
  lemma IdWidthBoundary()
    ensures IdWidth(65534) == 2
    ensures IdWidth(65535) == 4
  {
  }
}
