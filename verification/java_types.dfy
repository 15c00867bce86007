/** Java value semantics the sparse chunk relies on: the exceptions it can
    throw, the 32- and 64-bit integer ranges, two's-complement narrowing,
    and the power-of-ten scale used by the encoder. */
module JavaTypes {

  /** The exceptions the chunk code can raise. */
  datatype Exception =
    | IndexOutOfBounds        // row index >= chunk length
    | ArrayIndexOutOfBounds   // an array (buffer or sentinel table) indexed outside its bounds
    | IllegalArgument         // integer read of a missing value
    | Unimplemented           // a value width the accessors do not handle

  /** A Java computation either returns a value or throws. */
  datatype Result<+T> = Ok(value: T) | Thrown(exc: Exception) {
    predicate IsFailure() { Thrown? }

    function PropagateFailure<U>(): Result<U>
      requires Thrown?
    {
      Thrown(exc)
    }

    function Extract(): T
      requires Ok?
    {
      value
    }
  }

  const MIN_INT: int := -0x8000_0000
  const MAX_INT: int := 0x7fff_ffff
  const MIN_LONG: int := -0x8000_0000_0000_0000
  const MAX_LONG: int := 0x7fff_ffff_ffff_ffff

  type int32 = x: int | MIN_INT <= x <= MAX_INT
  type int64 = x: int | MIN_LONG <= x <= MAX_LONG

  /** 256^k: the number of distinct values of a k-byte field. */
  function Pow256(k: nat): (r: nat)
    ensures r > 0
  {
    if k == 0 then 1 else 256 * Pow256(k - 1)
  }

  /** Half the range of a k-byte field: signed k-byte values lie in [-Half(k), Half(k)). */
  function Half(k: nat): (r: int)
    requires k >= 1
    ensures r > 0 && 2 * r == Pow256(k)
  {
    128 * Pow256(k - 1)
  }

  /** Reinterprets an unsigned k-byte pattern as a signed (two's-complement) value. */
  function Signed(u: int, k: nat): (r: int)
    requires k >= 1 && 0 <= u < Pow256(k)
    ensures -Half(k) <= r < Half(k)
    ensures r == u || r == u - Pow256(k)
  {
    if u >= Half(k) then u - Pow256(k) else u
  }

  /** Two's-complement narrowing of `v` to k bytes: Java's `(byte)`, `(short)`,
      `(int)` casts and the wrap-around of `long` arithmetic. The result is the
      unique k-byte signed value congruent to `v` modulo 256^k. */
  function Wrap(v: int, k: nat): (r: int)
    requires k >= 1
    ensures -Half(k) <= r < Half(k)
    ensures (r - v) % Pow256(k) == 0
  {
    var p := Pow256(k);
    var u := v % p;
    CongruentToMod(v, p);
    CongruentShift(u, v, p);
    Signed(u, k)
  }

  function Pow10(x: nat): (r: nat)
    ensures r >= 1
  {
    if x == 0 then 1 else 10 * Pow10(x - 1)
  }

  /** Euclidean division is unique: any decomposition v == d*q + r with
      0 <= r < d is the one `/` and `%` compute. */
  lemma DivModUnique(v: int, d: int, q: int, r: int)
    requires d > 0 && 0 <= r < d && v == d * q + r
    ensures v / d == q && v % d == r
  {
    var q0, r0 := v / d, v % d;
    assert d * (q - q0) == r0 - r;
    MultipleInRange(d, q - q0);
  }

  /** The only multiple of d strictly between -d and d is 0. */
  lemma MultipleInRange(d: int, t: int)
    requires d > 0 && -d < d * t < d
    ensures t == 0
  {
    if t >= 1 {
      MulMonotone(d, 1, t);
    } else if t <= -1 {
      MulMonotone(d, t, -1);
    }
  }

  lemma MulMonotone(d: int, a: int, b: int)
    requires d >= 0 && a <= b
    ensures d * a <= d * b
  {
    assert d * b - d * a == d * (b - a);
  }

  lemma ModOfMultiple(d: int, c: int)
    requires d > 0
    ensures (d * c) % d == 0
  {
    DivModUnique(d * c, d, c, 0);
  }

  /** Adding a multiple of the modulus does not change the remainder. */
  lemma ModAddMultiple(x: int, d: int, c: int)
    requires d > 0
    ensures (x + d * c) % d == x % d
  {
    DivModUnique(x + d * c, d, x / d + c, x % d);
  }

  /** A value is congruent to its own remainder. */
  lemma CongruentToMod(v: int, d: int)
    requires d > 0
    ensures (v % d - v) % d == 0
  {
    var q := v / d;
    assert v % d - v == d * -q;
    ModOfMultiple(d, -q);
  }

  /** Subtracting the modulus keeps a value in the same residue class. */
  lemma CongruentShift(u: int, v: int, d: int)
    requires d > 0 && (u - v) % d == 0
    ensures (u - d - v) % d == 0
  {
    var t := (u - v) / d;
    assert u - d - v == d * (t - 1);
    ModOfMultiple(d, t - 1);
  }

  lemma CongruentSymmetric(a: int, b: int, d: int)
    requires d > 0 && (a - b) % d == 0
    ensures (b - a) % d == 0
  {
    var t := (a - b) / d;
    assert b - a == d * -t;
    ModOfMultiple(d, -t);
  }

  lemma CongruentTransitive(a: int, b: int, c: int, d: int)
    requires d > 0 && (a - b) % d == 0 && (b - c) % d == 0
    ensures (a - c) % d == 0
  {
    var s, t := (a - b) / d, (b - c) / d;
    assert a - c == d * (s + t);
    ModOfMultiple(d, s + t);
  }

  /** Congruence modulo d * e implies congruence modulo d. */
  lemma CongruentCoarser(a: int, b: int, d: int, e: int)
    requires d > 0 && e > 0 && (a - b) % (d * e) == 0
    ensures (a - b) % d == 0
  {
    var t := (a - b) / (d * e);
    assert a - b == (d * e) * t;
    assert (d * e) * t == d * (e * t);
    ModOfMultiple(d, e * t);
  }

  /** Values congruent modulo d leave equal remainders. */
  lemma ModCongruent(a: int, b: int, d: int)
    requires d > 0 && (a - b) % d == 0
    ensures a % d == b % d
  {
    var c := (a - b) / d;
    assert a == b + d * c;
    ModAddMultiple(b, d, c);
  }

  lemma Pow256Add(a: nat, b: nat)
    ensures Pow256(a + b) == Pow256(a) * Pow256(b)
  {
    if a > 0 {
      Pow256Add(a - 1, b);
    }
  }

  /** A value already representable in k signed bytes is left unchanged by narrowing. */
  lemma WrapIdentity(v: int, k: nat)
    requires k >= 1 && -Half(k) <= v < Half(k)
    ensures Wrap(v, k) == v
  {
    WrapUnique(v, k, v);
  }

  /** Narrowing is characterised by range and congruence. */
  lemma WrapUnique(v: int, k: nat, r: int)
    requires k >= 1 && -Half(k) <= r < Half(k) && (r - v) % Pow256(k) == 0
    ensures Wrap(v, k) == r
  {
    var w, p := Wrap(v, k), Pow256(k);
    CongruentSymmetric(r, v, p);
    CongruentTransitive(w, v, r, p);
    var t := (w - r) / p;
    assert w - r == p * t;
    MultipleInRange(p, t);
  }

  /** Narrowing to m bytes and then to k <= m bytes is the same as narrowing
      to k bytes directly: Java's 64-bit wrap of `long` arithmetic is invisible
      once the result is cast to a narrower width. */
  lemma WrapWrap(v: int, m: nat, k: nat)
    requires 1 <= k <= m
    ensures Wrap(Wrap(v, m), k) == Wrap(v, k)
  {
    var pk := Pow256(k);
    Pow256Add(k, m - k);
    var w, r := Wrap(v, m), Wrap(v, k);
    CongruentCoarser(w, v, pk, Pow256(m - k));
    CongruentSymmetric(w, v, pk);
    CongruentTransitive(r, v, w, pk);
    WrapUnique(w, k, r);
  }
}
