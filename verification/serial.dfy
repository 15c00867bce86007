/** Serialisation of the chunk: `write` ships the raw buffer, `read` takes a
    received buffer and rebuilds the cached header fields from it. */
module Serial {
  import opened JavaTypes
  import opened ByteOrder
  import opened Sentinels
  import opened Chunks
  import Encoder

  /** `write(bb)`: the bytes put on the wire are the buffer itself. */
  function Write(c: Chunk): (b: seq<byte>)
    ensures |b| == |c.mem|
  {
    c.mem
  }

  /** `read(bb)`: adopts the received bytes as the buffer and re-derives the
      length, the two widths (read as Java's signed bytes) and the width's
      log from the header. A buffer too short for the header fails on the
      first header byte it lacks. `read` does not touch the cache, so the
      receiving instance's `_lastOff`, `last`, is kept; on a freshly
      created instance it is the field's initial value `OFF`. */
  function Read(b: seq<byte>, last: int): (r: Result<Chunk>)
    ensures r.Thrown? <==> |b| < OFF
    ensures r.Thrown? ==> r.exc == ArrayIndexOutOfBounds
    ensures r.Ok? ==> r.value.mem == b && r.value.lastOff == last
  {
    // the reads of bytes 0..3, 4 and 5 are all bounds-checked
    if |b| < OFF then Thrown(ArrayIndexOutOfBounds)
    else
      var len := Get(b, 0, 4);
      assert Pow256(3) == 0x100_0000;
      var idsz := Wrap(b[4], 1);
      var elsz := Wrap(b[5], 1);
      Ok(Chunk(b, len, idsz, elsz, Log2Floor(elsz), last))
  }

  /** A header byte below 128 reads back as itself. */
  lemma SmallByte(v: byte)
    requires v < 128
    ensures Wrap(v, 1) == v
  {
    WrapIdentity(v, 1);
  }

  /** Round trip: a fresh instance reading what a well-formed chunk writes
      becomes the same chunk, with its cache on the first record. */
  lemma ReadWrite(c: Chunk)
    requires Layout(c)
    ensures Read(Write(c), OFF) == Ok(c.(lastOff := OFF))
    ensures Layout(c.(lastOff := OFF))
  {
    SmallByte(c.mem[4]);
    SmallByte(c.mem[5]);
  }

  /** Reading a chunk's own bytes back into the same instance restores it
      exactly, cache included. */
  lemma ReadOwnBytes(c: Chunk)
    requires Layout(c)
    ensures Read(Write(c), c.lastOff) == Ok(c)
  {
    SmallByte(c.mem[4]);
    SmallByte(c.mem[5]);
  }

  /** What the encoder builds survives the wire unchanged. */
  lemma EncodedReadWrite(ls: seq<int64>, xs: seq<int32>, ids: seq<int32>, len: int32, nz: nat, elsz: int, c: Chunk)
    requires Encoder.Arguments(ls, xs, ids, nz, elsz)
    requires Encoder.Encode(ls, xs, ids, len, nz, elsz) == Ok(c)
    ensures Read(Write(c), OFF) == Ok(c)
  {
    ReadWrite(c);
  }

  /** A received buffer, read into a fresh instance, is a well-formed chunk
      exactly when its header describes it: a length with the matching id
      width, a legal value width, and a whole number of records after the
      header. */
  lemma ReadLayout(b: seq<byte>)
    requires |b| >= OFF
    ensures var len := Get(b, 0, 4);
            Layout(Read(b, OFF).value) <==>
              && b[4] == IdWidth(len)
              && ValueWidth(b[5])
              && (|b| - OFF) % (b[4] + b[5]) == 0
  {
    if b[4] < 128 {
      SmallByte(b[4]);
    }
    if b[5] < 128 {
      SmallByte(b[5]);
    }
  }
}
