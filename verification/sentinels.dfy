/** The sentinel registry: the reserved bit pattern that marks a missing
    value (NA) at each stored value width, and the table lookup the chunk
    uses to find it. */
module Sentinels {
  import opened JavaTypes

  /** `C2Chunk._NA`, `C4Chunk._NA`, `C8Chunk._NA`: the minimum signed value of
      a 2-, 4- and 8-byte field. */
  const C2_NA: int := -0x8000
  const C4_NA: int := MIN_INT
  const C8_NA: int := MIN_LONG

  /** The chunk's three-entry table `NAS`. There is no entry for 1-byte values. */
  const NAS: seq<int> := [C2_NA, C4_NA, C8_NA]

  /** `NAS[i]`, with Java's bounds check. */
  function NaAt(i: int): (r: Result<int>)
    ensures r.Ok? <==> 0 <= i < |NAS|
    ensures r.Ok? ==> r.value in NAS
    ensures r.Thrown? ==> r.exc == ArrayIndexOutOfBounds
  {
    if 0 <= i < |NAS| then Ok(NAS[i]) else Thrown(ArrayIndexOutOfBounds)
  }

  function Pow2(n: nat): (r: nat)
    ensures r >= 1
  {
    if n == 0 then 1 else 2 * Pow2(n - 1)
  }

  /** The constructor's and `read`'s shift loop: how many times `x` can be
      halved while it stays above 1, i.e. floor(log2 x), and 0 for x <= 1. */
  function Log2Floor(x: int): (r: nat)
    ensures x <= 1 ==> r == 0
    ensures x >= 1 ==> Pow2(r) <= x < 2 * Pow2(r)
  {
    if x > 1 then 1 + Log2Floor(x / 2) else 0
  }

  /** The value widths whose NA pattern the table holds. */
  predicate HasSentinel(w: int) {
    w == 2 || w == 4 || w == 8
  }

  /** Indexing the table by floor(log2 w) - 1, as the chunk does, yields the
      minimum signed value of width w for widths 2, 4 and 8; for widths 0 and
      1 the index is -1 and the lookup throws. */
  lemma {:induction false} SentinelLookup(w: int)
    requires w == 0 || w == 1 || w == 2 || w == 4 || w == 8
    ensures HasSentinel(w) ==> NaAt(Log2Floor(w) - 1) == Ok(-Half(w))
    ensures !HasSentinel(w) ==> NaAt(Log2Floor(w) - 1) == Thrown(ArrayIndexOutOfBounds)
  {
    if HasSentinel(w) {
      assert Pow256(3) == 0x100_0000;
      assert Pow256(7) == 0x100_0000_0000_0000;
      if w == 2 {
        assert Log2Floor(1) == 0;
      } else if w == 4 {
        assert Log2Floor(2) == 1 + Log2Floor(1);
      } else {
        assert Log2Floor(4) == 1 + Log2Floor(2);
        assert Log2Floor(2) == 1 + Log2Floor(1);
      }
    }
  }
}
