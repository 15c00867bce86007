/** The fixed-width byte accessors the chunk reads and writes its buffer with
    (`UDP.set2/set4/set8` and `UDP.get2/get4/get8`). Their byte order is not
    visible to the chunk; this model fixes it to little-endian, least
    significant byte first, and proves the set/get round trip. */
module ByteOrder {
  import opened JavaTypes

  type byte = b: int | 0 <= b < 256

  /** The k low-order bytes of the two's-complement representation of `v`,
      least significant first. */
  function LeBytes(v: int, k: nat): (r: seq<byte>)
    ensures |r| == k
    decreases k
  {
    if k == 0 then [] else [v % 256] + LeBytes(v / 256, k - 1)
  }

  /** The unsigned number a little-endian byte sequence denotes. */
  function LeValue(s: seq<byte>): (r: nat)
    ensures r < Pow256(|s|)
  {
    if |s| == 0 then 0
    else
      var rest := LeValue(s[1..]);
      MulMonotone(256, rest, Pow256(|s| - 1) - 1);
      s[0] + 256 * rest
  }

  /** Decoding the k bytes of `v` gives back `v` modulo 256^k. */
  lemma {:induction false} LeValueOfBytes(v: int, k: nat)
    ensures LeValue(LeBytes(v, k)) == v % Pow256(k)
    decreases k
  {
    if k > 0 {
      var q := v / 256;
      LeValueOfBytes(q, k - 1);
      var bytes := LeBytes(v, k);
      assert bytes[0] == v % 256 && bytes[1..] == LeBytes(q, k - 1);
      assert LeValue(bytes) == v % 256 + 256 * (q % Pow256(k - 1));
      LowDigit(v, Pow256(k - 1));
    }
  }

  /** The low digit in base 256 followed by the remaining digits modulo p
      make up `v` modulo 256 * p. */
  lemma LowDigit(v: int, p: int)
    requires p > 0
    ensures v % (256 * p) == v % 256 + 256 * ((v / 256) % p)
  {
    var q, lo := v / 256, v % 256;
    var q2, hi := q / p, q % p;
    assert v == 256 * q + lo;
    assert q == p * q2 + hi;
    MulAddRegroup(256, p, q2, hi);
    MulMonotone(256, hi, p - 1);
    DivModUnique(v, 256 * p, q2, lo + 256 * hi);
  }

  /** A little-endian number splits at any byte boundary into its low part and
      256^a times its high part. */
  lemma {:induction false} LeValueSplit(s: seq<byte>, a: nat)
    requires a <= |s|
    ensures LeValue(s) == LeValue(s[..a]) + Pow256(a) * LeValue(s[a..])
  {
    if a > 0 {
      var t := s[1..];
      LeValueSplit(t, a - 1);
      assert s[..a][1..] == t[..a - 1];
      assert t[a - 1..] == s[a..];
      var x, y, p := LeValue(t[..a - 1]), LeValue(s[a..]), Pow256(a - 1);
      assert LeValue(s[..a]) == s[0] + 256 * x;
      assert LeValue(s) == s[0] + 256 * LeValue(t);
      MulAddRegroup(256, p, y, x);
    }
  }

  /** 256 * (p * q + r) regrouped, kept apart so that callers stay linear. */
  lemma MulAddRegroup(a: int, p: int, q: int, r: int)
    ensures a * (p * q + r) == (a * p) * q + a * r
  {
  }

  /** Two little-endian bytes. */
  lemma LeValue2(s: seq<byte>)
    requires |s| == 2
    ensures LeValue(s) == s[0] as int + 0x100 * s[1] as int
  {
    assert s[1..][1..] == [];
  }

  /** Four little-endian bytes. */
  lemma LeValue4(s: seq<byte>)
    requires |s| == 4
    ensures LeValue(s) == s[0] as int + 0x100 * s[1] as int + 0x1_0000 * s[2] as int + 0x100_0000 * s[3] as int
  {
    LeValue2(s[2..]);
    assert s[1..][1..] == s[2..];
    assert s[2..][0] == s[2] && s[2..][1] == s[3];
  }

  /** A slice of a slice is a slice of the whole. */
  lemma SubSlice(s: seq<byte>, a: nat, b: nat, i: nat, j: nat)
    requires a <= b <= |s| && i <= j <= b - a
    ensures s[a..b][i..j] == s[a + i..a + j]
  {
    forall t | 0 <= t < j - i
      ensures s[a..b][i..j][t] == s[a + i..a + j][t]
    {
      assert s[a..b][i..j][t] == s[a + i + t];
    }
  }

  /** Overwrites |bytes| bytes of `buf` starting at `off`. */
  function Splice(buf: seq<byte>, off: nat, bytes: seq<byte>): (r: seq<byte>)
    requires off + |bytes| <= |buf|
    ensures |r| == |buf|
    ensures r[off..off + |bytes|] == bytes
    ensures forall t :: 0 <= t < |buf| && !(off <= t < off + |bytes|) ==> r[t] == buf[t]
  {
    buf[..off] + bytes + buf[off + |bytes|..]
  }

  /** `UDP.setK(buf, off, v)` for K = k bytes. */
  function Put(buf: seq<byte>, off: nat, v: int, k: nat): (r: seq<byte>)
    requires off + k <= |buf|
    ensures |r| == |buf|
  {
    Splice(buf, off, LeBytes(v, k))
  }

  /** The k bytes at `off` read as an unsigned number. */
  function GetUnsigned(buf: seq<byte>, off: nat, k: nat): (r: nat)
    requires off + k <= |buf|
    ensures r < Pow256(k)
  {
    LeValue(buf[off..off + k])
  }

  /** `UDP.getK(buf, off)` for K = k bytes: the bytes at `off` read as a
      sign-extended k-byte value. */
  function Get(buf: seq<byte>, off: nat, k: nat): (r: int)
    requires k >= 1 && off + k <= |buf|
    ensures -Half(k) <= r < Half(k)
  {
    Signed(GetUnsigned(buf, off, k), k)
  }

  /** Round trip of the byte accessors: reading back what was written yields
      the written value narrowed to k bytes (the value itself when it fits),
      and the unsigned reading is the value modulo 256^k. */
  lemma GetPut(buf: seq<byte>, off: nat, v: int, k: nat)
    requires k >= 1 && off + k <= |buf|
    ensures GetUnsigned(Put(buf, off, v, k), off, k) == v % Pow256(k)
    ensures Get(Put(buf, off, v, k), off, k) == Wrap(v, k)
    ensures -Half(k) <= v < Half(k) ==> Get(Put(buf, off, v, k), off, k) == v
  {
    LeValueOfBytes(v, k);
    if -Half(k) <= v < Half(k) {
      WrapIdentity(v, k);
    }
  }

  /** Reading k bytes that hold the encoding of `v`. */
  lemma ReadBack(buf: seq<byte>, off: nat, v: int, k: nat)
    requires k >= 1 && off + k <= |buf| && buf[off..off + k] == LeBytes(v, k)
    ensures GetUnsigned(buf, off, k) == v % Pow256(k)
    ensures Get(buf, off, k) == Wrap(v, k)
  {
    LeValueOfBytes(v, k);
  }

  /** Writing k bytes at `off` leaves every read of a disjoint range unchanged. */
  lemma PutFrame(buf: seq<byte>, off: nat, v: int, k: nat, a: nat, m: nat)
    requires off + k <= |buf| && a + m <= |buf|
    requires a + m <= off || off + k <= a
    ensures Put(buf, off, v, k)[a..a + m] == buf[a..a + m]
  {
    var r := Put(buf, off, v, k);
    assert forall t :: a <= t < a + m ==> r[t] == buf[t];
  }
}
