/** The encoder: the six-argument constructor, which packs sorted
    (row id, mantissa, exponent) entries into the record area laid out by
    the planner. */
module Encoder {
  import opened JavaTypes
  import opened ByteOrder
  import opened Sentinels
  import opened Chunks

  /** The constructor's assertion on exponents: non-negative, or the NA marker
      `Integer.MIN_VALUE`. */
  predicate ExponentsOk(xs: seq<int32>, nz: nat) {
    forall i :: 0 <= i < nz && i < |xs| ==> xs[i] == MIN_INT || xs[i] >= 0
  }

  /** What the caller hands the constructor: row ids for `nz` entries, and
      mantissas and exponents for them when values are stored. */
  predicate Arguments(ls: seq<int64>, xs: seq<int32>, ids: seq<int32>, nz: nat, elsz: int) {
    && nz <= |ids|
    && ValueWidth(elsz)
    && (elsz != 0 ==> nz <= |xs| && nz <= |ls| && ExponentsOk(xs, nz))
  }

  /** The `long` the constructor stores for entry i: the NA pattern looked up
      in the sentinel table, or mantissa * 10^exponent in 64-bit arithmetic. */
  function LongValue(l: int64, x: int32, elszLog: int): (r: Result<int>)
    requires x == MIN_INT || x >= 0
  {
    if x == MIN_INT then NaAt(elszLog - 1) else Ok(Wrap(l * Pow10(x as nat), 8))
  }

  /** The id as the constructor writes it: cast to `short` for 2-byte ids. */
  function IdField(id: int32, idsz: int): int {
    if idsz == 2 then Wrap(id, 2) else id as int
  }

  /** The bytes of record i: the row id (cast to `short` for 2-byte ids), then,
      unless values are absent, the value narrowed to the value width. The
      only failure is an NA entry at value width 1, whose table index is -1. */
  function RecordBytes(ls: seq<int64>, xs: seq<int32>, ids: seq<int32>, nz: nat,
                       idsz: int, elsz: int, i: nat): (r: Result<seq<byte>>)
    requires Arguments(ls, xs, ids, nz, elsz) && i < nz
    requires idsz == 2 || idsz == 4
    ensures r.Ok? <==> !(elsz == 1 && xs[i] == MIN_INT)
    ensures r.Thrown? ==> r.exc == ArrayIndexOutOfBounds
    ensures r.Ok? ==> |r.value| == idsz + elsz
  {
    SentinelLookup(elsz);
    var idBytes := LeBytes(IdField(ids[i], idsz), idsz);
    if elsz == 0 then Ok(idBytes)
    else
      var lval :- LongValue(ls[i], xs[i], Log2Floor(elsz));
      Ok(idBytes + LeBytes(Wrap(lval, elsz), elsz))
  }

  /** The record slot k of a buffer with records of `inc` bytes. */
  function Slot(mem: seq<byte>, inc: nat, nz: nat, k: nat): seq<byte>
    requires k < nz && |mem| == OFF + inc * nz
  {
    MulBelow(inc, k, nz);
    mem[OFF + inc * k..OFF + inc * k + inc]
  }

  /** Records that all have the width `inc`. */
  predicate Uniform(recs: seq<seq<byte>>, inc: nat) {
    forall j :: 0 <= j < |recs| ==> |recs[j]| == inc
  }

  /** The constructor's loop from entry i on: writes record i at the cursor
      and advances the cursor by one record width, until all are written. */
  function Fill(mem: seq<byte>, recs: seq<seq<byte>>, inc: nat, i: nat): (r: seq<byte>)
    requires Uniform(recs, inc) && i <= |recs|
    requires |mem| == OFF + inc * |recs|
    ensures |r| == |mem|
    decreases |recs| - i
  {
    if i == |recs| then mem
    else
      MulBelow(inc, i, |recs|);
      Fill(Splice(mem, OFF + inc * i, recs[i]), recs, inc, i + 1)
  }

  /** The loop leaves the bytes before record i alone and puts each remaining
      record in its slot. */
  lemma {:induction false} FillContents(mem: seq<byte>, recs: seq<seq<byte>>, inc: nat, i: nat)
    requires Uniform(recs, inc) && i <= |recs|
    requires |mem| == OFF + inc * |recs|
    ensures forall t :: 0 <= t < |mem| && t < OFF + inc * i ==> Fill(mem, recs, inc, i)[t] == mem[t]
    ensures forall j :: i <= j < |recs| ==> Slot(Fill(mem, recs, inc, i), inc, |recs|, j) == recs[j]
    decreases |recs| - i
  {
    if i < |recs| {
      MulBelow(inc, i, |recs|);
      var o := OFF + inc * i;
      assert OFF + inc * (i + 1) == o + inc;
      var mem' := Splice(mem, o, recs[i]);
      FillContents(mem', recs, inc, i + 1);
      var out := Fill(mem, recs, inc, i);
      assert out == Fill(mem', recs, inc, i + 1);
      forall t | 0 <= t < |mem| && t < o
        ensures out[t] == mem[t]
      {
        assert out[t] == mem'[t];
      }
      assert forall t :: o <= t < o + inc ==> out[t] == mem'[t];
      assert out[o..o + inc] == mem'[o..o + inc];
    }
  }

  /** The encoder fails exactly when an NA entry meets value width 1. */
  predicate Encodable(xs: seq<int32>, nz: nat, elsz: int) {
    !(elsz == 1 && exists i :: 0 <= i < nz && i < |xs| && xs[i] == MIN_INT)
  }

  /** Rewriting only the record area keeps the layout invariants. */
  lemma SameHeader(c: Chunk, mem: seq<byte>)
    requires Layout(c) && |mem| == |c.mem|
    requires forall t :: 0 <= t < OFF + Inc(c) * 0 ==> mem[t] == c.mem[t]
    ensures Layout(c.(mem := mem)) && SparseLen(c.(mem := mem)) == SparseLen(c)
    ensures Inc(c.(mem := mem)) == Inc(c)
  {
    var c' := c.(mem := mem);
    assert mem[0..4] == c.mem[0..4];
    assert mem[4] == c.mem[4] && mem[5] == c.mem[5];
    assert Shape(c') && Inc(c') == Inc(c);
  }

  /** The bytes of every record, in entry order. */
  function AllRecords(ls: seq<int64>, xs: seq<int32>, ids: seq<int32>, nz: nat,
                      idsz: int, elsz: int): (recs: seq<seq<byte>>)
    requires Arguments(ls, xs, ids, nz, elsz) && Encodable(xs, nz, elsz)
    requires idsz == 2 || idsz == 4
    ensures |recs| == nz && Uniform(recs, idsz + elsz)
    ensures forall j :: 0 <= j < nz ==> RecordBytes(ls, xs, ids, nz, idsz, elsz, j) == Ok(recs[j])
  {
    assert forall j :: 0 <= j < nz ==> RecordBytes(ls, xs, ids, nz, idsz, elsz, j).Ok?;
    seq(nz, j requires 0 <= j < nz => RecordBytes(ls, xs, ids, nz, idsz, elsz, j).value)
  }

  /** The constructor's work once the entries are known to be encodable:
      plan the layout, then write the `nz` records in order. The cursor ends
      at the buffer end, the header keeps `len` and the widths, and slot k
      holds record k. */
  function Build(ls: seq<int64>, xs: seq<int32>, ids: seq<int32>, len: int32, nz: nat, elsz: int): (c: Chunk)
    requires Arguments(ls, xs, ids, nz, elsz) && Encodable(xs, nz, elsz)
    ensures Layout(c) && SparseLen(c) == nz && c.idsz == IdWidth(len)
    ensures c.len == len && c.elsz == elsz && c.lastOff == OFF
    ensures forall k :: 0 <= k < nz ==>
              Slot(c.mem, Inc(c), nz, k) == AllRecords(ls, xs, ids, nz, c.idsz, elsz)[k]
  {
    var p := Plan(len, nz, elsz);
    var inc := Inc(p);
    var recs := AllRecords(ls, xs, ids, nz, p.idsz, elsz);
    assert |p.mem| == OFF + inc * |recs|;
    var mem := Fill(p.mem, recs, inc, 0);
    FillContents(p.mem, recs, inc, 0);
    SameHeader(p, mem);
    p.(mem := mem)
  }

  /** The six-argument constructor. It fails only for an NA entry at value
      width 1 (the constructor then throws before returning a chunk, so no
      partial buffer escapes); on success the buffer holds exactly `nz`
      records after the header and the header records `len` and the widths. */
  function Encode(ls: seq<int64>, xs: seq<int32>, ids: seq<int32>, len: int32, nz: nat, elementSz: int): (r: Result<Chunk>)
    requires Arguments(ls, xs, ids, nz, elementSz)
    ensures r.Ok? <==> Encodable(xs, nz, elementSz)
    ensures r.Thrown? ==> r.exc == ArrayIndexOutOfBounds
    ensures r.Ok? ==> && Layout(r.value) && SparseLen(r.value) == nz
                      && r.value.len == len && r.value.elsz == elementSz && r.value.lastOff == OFF
  {
    if !Encodable(xs, nz, elementSz) then Thrown(ArrayIndexOutOfBounds)
    else Ok(Build(ls, xs, ids, len, nz, elementSz))
  }

  /** The value the decoder should find for an entry: the width's NA pattern
      (the minimum signed value) for the NA exponent, otherwise
      mantissa * 10^exponent truncated to the value width. */
  function Expected(l: int, x: int32, elsz: int): int
    requires elsz >= 1 && (x == MIN_INT || x >= 0)
  {
    if x == MIN_INT then -Half(elsz) else Wrap(l * Pow10(x as nat), elsz)
  }

  /** After encoding, record k occupies slot k of the buffer. */
  lemma EncodedSlot(ls: seq<int64>, xs: seq<int32>, ids: seq<int32>, len: int32, nz: nat, elsz: int, c: Chunk, k: nat)
    requires Arguments(ls, xs, ids, nz, elsz) && Encode(ls, xs, ids, len, nz, elsz) == Ok(c) && k < nz
    ensures Encodable(xs, nz, elsz) && c.idsz == IdWidth(len) && k < SparseLen(c)
    ensures c.mem[Off(c, k)..Off(c, k) + Inc(c)] == AllRecords(ls, xs, ids, nz, c.idsz, elsz)[k]
  {
    assert c == Build(ls, xs, ids, len, nz, elsz);
    SlotAt(c, nz, k);
  }

  /** Slot k of a chunk's buffer is its k-th record. */
  lemma SlotAt(c: Chunk, nz: nat, k: nat)
    requires Shape(c) && SparseLen(c) == nz && k < nz
    ensures Slot(c.mem, Inc(c), nz, k) == c.mem[Off(c, k)..Off(c, k) + Inc(c)]
  {
  }

  /** The two fields of an encoded record: the id bytes, then the value
      bytes. */
  lemma RecordFields(ls: seq<int64>, xs: seq<int32>, ids: seq<int32>, nz: nat, idsz: int, elsz: int, i: nat)
    requires Arguments(ls, xs, ids, nz, elsz) && Encodable(xs, nz, elsz) && i < nz
    requires idsz == 2 || idsz == 4
    ensures AllRecords(ls, xs, ids, nz, idsz, elsz)[i][..idsz] == LeBytes(IdField(ids[i], idsz), idsz)
    ensures elsz != 0 ==> && LongValue(ls[i], xs[i], Log2Floor(elsz)).Ok?
                          && AllRecords(ls, xs, ids, nz, idsz, elsz)[i][idsz..]
                             == LeBytes(Wrap(LongValue(ls[i], xs[i], Log2Floor(elsz)).value, elsz), elsz)
  {
    var rec := RecordBytes(ls, xs, ids, nz, idsz, elsz, i);
    assert rec == Ok(AllRecords(ls, xs, ids, nz, idsz, elsz)[i]);
  }

  /** Reading the id field of a record written for row id `id`. */
  lemma IdReadBack(c: Chunk, k: nat, rec: seq<byte>, id: int32)
    requires Shape(c) && k < SparseLen(c)
    requires c.mem[Off(c, k)..Off(c, k) + Inc(c)] == rec
    requires rec[..c.idsz] == LeBytes(IdField(id, c.idsz), c.idsz)
    ensures IdAt(c, k) == if c.idsz == 2 then id % 0x1_0000 else id as int
  {
    var o, idv := Off(c, k), IdField(id, c.idsz);
    SubSlice(c.mem, o, o + Inc(c), 0, c.idsz);
    ReadBack(c.mem, o, idv, c.idsz);
    if c.idsz == 2 {
      ModCongruent(Wrap(id, 2), id, Pow256(2));
    } else {
      assert Pow256(3) == 0x100_0000;
      WrapIdentity(id, 4);
    }
  }

  /** Reading the value field of a record whose value bytes encode `v`. */
  lemma ValueReadBack(c: Chunk, k: nat, rec: seq<byte>, v: int)
    requires Shape(c) && k < SparseLen(c) && c.elsz != 0
    requires c.mem[Off(c, k)..Off(c, k) + Inc(c)] == rec
    requires rec[c.idsz..] == LeBytes(v, c.elsz)
    ensures GetIValue(c, Off(c, k)) == Ok(Wrap(v, c.elsz))
  {
    var o, w := Off(c, k), c.elsz;
    var m := o + c.idsz;
    SubSlice(c.mem, o, o + Inc(c), c.idsz, Inc(c));
    assert rec[c.idsz..] == rec[c.idsz..Inc(c)];
    assert c.mem[m..m + w] == LeBytes(v, w);
    ReadBack(c.mem, m, v, w);
    assert GetIValue(c, o) == Ok(Get(c.mem, m, w));
  }

  /** Encode/decode round trip of a row id: `getId(getOff(k))` yields the id
      given to the constructor, modulo 2^16 when ids are 2 bytes wide. */
  lemma EncodedId(ls: seq<int64>, xs: seq<int32>, ids: seq<int32>, len: int32, nz: nat, elsz: int, c: Chunk, k: nat)
    requires Arguments(ls, xs, ids, nz, elsz) && Encode(ls, xs, ids, len, nz, elsz) == Ok(c) && k < nz
    ensures k < SparseLen(c)
    ensures IdAt(c, k) == if c.idsz == 2 then ids[k] % 0x1_0000 else ids[k] as int
  {
    EncodedSlot(ls, xs, ids, len, nz, elsz, c, k);
    RecordFields(ls, xs, ids, nz, c.idsz, elsz, k);
    IdReadBack(c, k, AllRecords(ls, xs, ids, nz, c.idsz, elsz)[k], ids[k]);
  }

  /** Narrowing the stored `long` to the value width gives the expected value:
      the sentinel is already narrow, and the 64-bit wrap of the product is
      absorbed by the narrower cast. */
  lemma NarrowedValue(l: int64, x: int32, elsz: int)
    requires ValueWidth(elsz) && elsz != 0 && (x == MIN_INT || x >= 0)
    requires LongValue(l, x, Log2Floor(elsz)).Ok?
    ensures Wrap(Wrap(LongValue(l, x, Log2Floor(elsz)).value, elsz), elsz) == Expected(l, x, elsz)
  {
    var lval := LongValue(l, x, Log2Floor(elsz)).value;
    WrapWrap(lval, elsz, elsz);
    SentinelLookup(elsz);
    if x == MIN_INT {
      WrapIdentity(-Half(elsz), elsz);
    } else {
      WrapWrap(l * Pow10(x as nat), 8, elsz);
    }
  }

  /** Encode/decode round trip of a value: `getIValue(getOff(k))` yields the
      width's NA pattern for an NA entry and otherwise mantissa * 10^exponent
      truncated to the value width, whatever the 64-bit product did on the way. */
  lemma EncodedValue(ls: seq<int64>, xs: seq<int32>, ids: seq<int32>, len: int32, nz: nat, elsz: int, c: Chunk, k: nat)
    requires Arguments(ls, xs, ids, nz, elsz) && Encode(ls, xs, ids, len, nz, elsz) == Ok(c) && k < nz
    requires elsz != 0
    ensures k < SparseLen(c)
    ensures GetIValue(c, Off(c, k)) == Ok(Expected(ls[k], xs[k], elsz))
  {
    EncodedSlot(ls, xs, ids, len, nz, elsz, c, k);
    RecordFields(ls, xs, ids, nz, c.idsz, elsz, k);
    var lval := LongValue(ls[k], xs[k], Log2Floor(elsz)).value;
    ValueReadBack(c, k, AllRecords(ls, xs, ids, nz, c.idsz, elsz)[k], Wrap(lval, elsz));
    NarrowedValue(ls[k], xs[k], elsz);
  }

  /** Row ids in [0, len) come back unchanged: the stored id sequence is the
      constructor's. */
  lemma EncodedIds(ls: seq<int64>, xs: seq<int32>, ids: seq<int32>, len: int32, nz: nat, elsz: int, c: Chunk)
    requires Arguments(ls, xs, ids, nz, elsz) && Encode(ls, xs, ids, len, nz, elsz) == Ok(c)
    requires forall k :: 0 <= k < nz ==> 0 <= ids[k] < len
    ensures |Ids(c)| == nz && forall k :: 0 <= k < nz ==> Ids(c)[k] == ids[k]
  {
    forall k | 0 <= k < nz
      ensures Ids(c)[k] == ids[k]
    {
      EncodedId(ls, xs, ids, len, nz, elsz, c, k);
      IdInRange(ids[k], c.idsz, len);
    }
  }

  /** An id below the length survives the 2-byte field. */
  lemma IdInRange(id: int, idsz: int, len: int)
    requires 0 <= id < len && idsz == IdWidth(len)
    ensures (if idsz == 2 then id % 0x1_0000 else id) == id
  {
    if idsz == 2 {
      DivModUnique(id, 0x1_0000, 0, id);
    }
  }

  /** Increasing ids in [0, len) give a chunk that lookup can search. */
  lemma EncodedSorted(ls: seq<int64>, xs: seq<int32>, ids: seq<int32>, len: int32, nz: nat, elsz: int, c: Chunk)
    requires Arguments(ls, xs, ids, nz, elsz) && Encode(ls, xs, ids, len, nz, elsz) == Ok(c)
    requires forall k :: 0 <= k < nz ==> 0 <= ids[k] < len
    requires forall j, k :: 0 <= j < k < nz ==> ids[j] < ids[k]
    ensures Sorted(c)
  {
    EncodedIds(ls, xs, ids, len, nz, elsz, c);
  }

  /** Decoding an encoded chunk at a width with an NA pattern (where encoding
      cannot fail): an NA entry decodes as NA, and any other entry decodes as
      its expected value unless that value happens to equal the NA pattern. */
  lemma EncodedDecode(ls: seq<int64>, xs: seq<int32>, ids: seq<int32>, len: int32, nz: nat, elsz: int, c: Chunk, k: nat)
    requires Arguments(ls, xs, ids, nz, elsz) && Encode(ls, xs, ids, len, nz, elsz) == Ok(c) && k < nz
    requires HasSentinel(elsz)
    ensures k < SparseLen(c)
    ensures var e := Expected(ls[k], xs[k], elsz);
            Decode(c, k) == Ok(if e == -Half(elsz) then NA else Int(e))
    ensures xs[k] == MIN_INT ==> Decode(c, k) == Ok(NA)
  {
    EncodedValue(ls, xs, ids, len, nz, elsz, c, k);
  }
}
