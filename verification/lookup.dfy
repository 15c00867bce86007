/** `findOffset`: locating the record for a row index through the one-slot
    cache `_lastOff`, a probe of the record after it, and a binary search
    over the stored ids. */
module Lookup {
  import opened JavaTypes
  import opened ByteOrder
  import opened Chunks

  /** The reference answer: the position of the greatest stored id that is at
      most `idx`, or 0 when there is none (the first record stands in for
      every row before it). Defined by a scan from the end, independently of
      any ordering of `ids`. */
  function Floor(ids: seq<int>, idx: int): (k: nat)
    requires |ids| > 0
    ensures k < |ids|
    ensures k == 0 || ids[k] <= idx
    ensures forall j :: k < j < |ids| ==> idx < ids[j]
  {
    if |ids| == 1 then 0
    else if ids[|ids| - 1] <= idx then |ids| - 1
    else Floor(ids[..|ids| - 1], idx)
  }

  /** The two conditions of `Floor`'s contract single out its answer. */
  lemma FloorUnique(ids: seq<int>, idx: int, k: nat)
    requires k < |ids|
    requires k == 0 || ids[k] <= idx
    requires forall j :: k < j < |ids| ==> idx < ids[j]
    ensures Floor(ids, idx) == k
  {
  }

  /** In increasing ids, a position is the floor of `idx` as soon as its own id
      is at most `idx` (or it is the first) and the next id is above `idx`. */
  lemma FloorOfNeighbours(ids: seq<int>, idx: int, k: nat)
    requires StrictlyIncreasing(ids) && k < |ids|
    requires k == 0 || ids[k] <= idx
    requires k + 1 == |ids| || idx < ids[k + 1]
    ensures Floor(ids, idx) == k
  {
    forall j | k + 1 < j < |ids|
      ensures idx < ids[j]
    {
      assert ids[k + 1] < ids[j];
    }
    FloorUnique(ids, idx, k);
  }

  /** The first position holding `x`. */
  function IndexOf(s: seq<int>, x: int): (k: nat)
    requires x in s
    ensures k < |s| && s[k] == x
    ensures forall j :: 0 <= j < k ==> s[j] != x
  {
    if s[0] == x then 0 else 1 + IndexOf(s[1..], x)
  }

  /** For increasing ids, the floor position holds `idx` exactly when `idx` is
      stored, and then it is the position of `idx`: the caller's test
      `getId(off) == idx` decides membership. */
  lemma {:induction false} FloorHit(ids: seq<int>, idx: int)
    requires StrictlyIncreasing(ids) && |ids| > 0
    ensures ids[Floor(ids, idx)] == idx <==> idx in ids
    ensures idx in ids ==> Floor(ids, idx) == IndexOf(ids, idx)
  {
    var k := Floor(ids, idx);
    if idx in ids {
      var j := IndexOf(ids, idx);
      if k < j {
        assert false;
      } else if j < k {
        assert false;
      }
    }
  }

  /** The first position whose id is above `x`, or |ids| when none is. */
  function FirstAbove(ids: seq<int>, x: int): (j: nat)
    ensures j <= |ids|
    ensures forall i :: 0 <= i < j ==> ids[i] <= x
    ensures j < |ids| ==> x < ids[j]
  {
    if |ids| == 0 then 0
    else if x < ids[0] then 0
    else 1 + FirstAbove(ids[1..], x)
  }

  /** In increasing ids that start at or below `x`, the record after the
      floor of `x` is the first one above `x`. */
  lemma FloorNext(ids: seq<int>, x: int)
    requires StrictlyIncreasing(ids) && |ids| > 0 && ids[0] <= x
    ensures Floor(ids, x) + 1 == FirstAbove(ids, x)
  {
    var k, j := Floor(ids, x), FirstAbove(ids, x);
    assert ids[k] <= x;
    UpTo(ids, x, k);
    if k + 1 < |ids| {
      assert x < ids[k + 1];
    }
  }

  /** In increasing ids, every id up to one at most `x` is at most `x`. */
  lemma UpTo(ids: seq<int>, x: int, k: nat)
    requires StrictlyIncreasing(ids) && k < |ids| && ids[k] <= x
    ensures forall i :: 0 <= i <= k ==> ids[i] <= x
  {
    forall i | 0 <= i < k
      ensures ids[i] <= x
    {
      assert ids[i] < ids[k];
    }
  }

  /** A record offset is a valid cache entry. */
  lemma CacheAt(c: Chunk, k: nat)
    requires Shape(c) && k < SparseLen(c)
    ensures CacheOk(c.(lastOff := Off(c, k)))
  {
    ModOfMultiple(Inc(c), k);
  }

  /** The record after the cached one exists exactly when its offset is
      inside the buffer (the `nextOff < mem.length` test). */
  lemma NextInside(c: Chunk, k: nat)
    requires Shape(c) && k < SparseLen(c)
    ensures Off(c, k) + Inc(c) == Off(c, k + 1)
    ensures Off(c, k) + Inc(c) < |c.mem| <==> k + 1 < SparseLen(c)
  {
    assert Off(c, k) + Inc(c) == Off(c, k + 1);
    MulBelow(Inc(c), k + 1, SparseLen(c));
    if k + 1 >= SparseLen(c) {
      MulMonotone(Inc(c), SparseLen(c), k + 1);
    }
  }

  /** The binary search of `findOffset`: narrows [lo, hi) until one record is
      left, keeping the greatest id <= idx at or after `lo` and every id from
      `hi` on above `idx`. */
  method Search(c: Chunk, idx: int) returns (lo: nat)
    requires Shape(c) && SparseLen(c) > 0
    ensures lo < SparseLen(c)
    ensures Sorted(c) ==> lo == Floor(Ids(c), idx)
  {
    var n := SparseLen(c);
    ghost var ids := Ids(c);
    var hi := n;
    lo := 0;
    while lo + 1 != hi
      invariant 0 <= lo < hi <= n
      invariant lo == 0 || ids[lo] <= idx
      invariant hi == n || idx < ids[hi]
      decreases hi - lo
    {
      var mid := (hi + lo) / 2;
      var id := GetId(c, Off(c, mid));
      assert id == ids[mid];
      if idx < id {
        hi := mid;
      } else {
        lo := mid;
      }
    }
    if Sorted(c) {
      FloorOfNeighbours(ids, idx, lo);
    }
  }

  /** Outcome of the cache check: the record index it settles on, if any. */
  datatype Probe = Miss | Hit(k: nat)

  /** The cache check of `findOffset`: the cached record itself when it holds
      `idx`, the cached record again when `idx` lies between its id and the
      next one, the next record when that holds `idx`; otherwise a miss. A
      hit is the cached record or its successor, and for increasing ids it is
      the floor record of `idx`. */
  method CacheProbe(c: Chunk, idx: int) returns (p: Probe)
    requires CacheOk(c) && SparseLen(c) > 0
    ensures p.Hit? ==> p.k == CacheIndex(c) || p.k == CacheIndex(c) + 1
    ensures p.Hit? ==> p.k < SparseLen(c)
    ensures p.Hit? && Sorted(c) ==> p.k == Floor(Ids(c), idx)
  {
    ghost var ids := Ids(c);
    var ck := CacheIndex(c);
    var off := c.lastOff;
    var lastIdx := GetId(c, off);
    assert lastIdx == ids[ck];
    if idx == lastIdx {
      if Sorted(c) {
        FloorOfNeighbours(ids, idx, ck);
      }
      return Hit(ck);
    }
    if idx > lastIdx {
      p := ProbeNext(c, idx, ck);
      return;
    }
    return Miss;
  }

  /** The second half of the cache check, for an `idx` above the cached id:
      the cached record when the next id is above `idx`, the next record
      when it holds `idx`, and a miss otherwise (also at the last record). */
  method ProbeNext(c: Chunk, idx: int, ck: nat) returns (p: Probe)
    requires CacheOk(c) && ck == CacheIndex(c) && ck < SparseLen(c)
    requires IdAt(c, ck) < idx
    ensures p.Hit? ==> p.k == ck || p.k == ck + 1
    ensures p.Hit? ==> p.k < SparseLen(c)
    ensures p.Hit? && Sorted(c) ==> p.k == Floor(Ids(c), idx)
  {
    ghost var ids := Ids(c);
    assert ids[ck] < idx;
    var nextOff := c.lastOff + c.idsz + c.elsz;
    NextInside(c, ck);
    if nextOff < |c.mem| {
      var nextId := GetId(c, nextOff);
      assert nextId == ids[ck + 1];
      if idx < nextId {
        if Sorted(c) {
          FloorOfNeighbours(ids, idx, ck);
        }
        return Hit(ck);
      }
      if idx == nextId {
        if Sorted(c) {
          FloorOfNeighbours(ids, idx, ck + 1);
        }
        return Hit(ck + 1);
      }
    }
    return Miss;
  }

  /** `findOffset(idx)`. Fails for `idx >= len`; returns 0, the header offset,
      when nothing is stored; otherwise returns a record offset and leaves it
      in the cache, so the chunk keeps a valid cache. When the stored ids
      increase, the answer is the offset of the floor record of `idx`, which
      does not depend on the cache the call started from. */
  method FindOffset(c: Chunk, idx: int32) returns (r: Result<int>, c': Chunk)
    requires CacheOk(c)
    ensures c' == c.(lastOff := c'.lastOff) && CacheOk(c')
    ensures idx >= c.len ==> r == Thrown(IndexOutOfBounds) && c' == c
    ensures idx < c.len && SparseLen(c) == 0 ==> r == Ok(0) && c' == c
    ensures idx < c.len && SparseLen(c) > 0 ==> r.Ok? && c'.lastOff == r.value
    ensures idx < c.len && SparseLen(c) > 0 && Sorted(c) ==> r == Ok(Off(c, Floor(Ids(c), idx)))
  {
    if idx >= c.len {
      return Thrown(IndexOutOfBounds), c;
    }
    if SparseLen(c) == 0 {
      return Ok(0), c;
    }
    var p := CacheProbe(c, idx);
    var k;
    if p.Hit? {
      // a hit on the cached record leaves the cache as it is; a hit on the
      // next record moves the cache there
      k := p.k;
    } else {
      k := Search(c, idx);
    }
    var y := Off(c, k);
    CacheAt(c, k);
    return Ok(y), c.(lastOff := y);
  }

  /** Two chunks that differ only in their cache hold the same records. */
  lemma SameRecords(c: Chunk, d: Chunk)
    requires Shape(c) && d == c.(lastOff := d.lastOff)
    ensures Shape(d) && SparseLen(d) == SparseLen(c) && Ids(d) == Ids(c)
    ensures Sorted(d) == Sorted(c)
    ensures forall k :: 0 <= k < SparseLen(c) ==> Off(d, k) == Off(c, k)
  {
    assert d.mem == c.mem && d.idsz == c.idsz && d.elsz == c.elsz;
    assert Inc(d) == Inc(c);
    forall k | 0 <= k < SparseLen(c)
      ensures Ids(d)[k] == Ids(c)[k]
    {
      assert Off(d, k) == Off(c, k);
    }
  }

  /** Cache transparency: for increasing ids, `findOffset` gives the same
      answer whatever record the cache pointed at before the call. */
  method FindOffsetTwice(c: Chunk, d: Chunk, idx: int32) returns (r: Result<int>, s: Result<int>)
    requires CacheOk(c) && CacheOk(d) && d == c.(lastOff := d.lastOff) && Sorted(c)
    ensures r == s
  {
    SameRecords(c, d);
    var c', d';
    r, c' := FindOffset(c, idx);
    s, d' := FindOffset(d, idx);
  }
}
