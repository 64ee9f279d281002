/** The C integer types the library is written in: fixed widths, two's complement
    conversions, and the little-endian layout of integers in memory. */
module CTypes {

  type byte = b: int | 0 <= b < 256

  /** `sizeof(long)` on the host, or the word size of a system call ABI. */
  type WordSize = w: nat | w == 4 || w == 8 witness 8

  const TWO30 := 0x4000_0000
  const TWO31 := 0x8000_0000
  const TWO32 := 0x1_0000_0000
  const TWO63 := 0x8000_0000_0000_0000
  const TWO64 := 0x1_0000_0000_0000_0000

  type u32 = n: int | 0 <= n < TWO32
  type u64 = n: int | 0 <= n < TWO64

  // Linux error numbers.
  const EPERM := 1
  const ESRCH := 3
  const EIO := 5
  const ECHILD := 10
  const EFAULT := 14
  const EINVAL := 22
  const ENOSYS := 38

  function Min(a: int, b: int): (m: int) {
    if a < b then a else b
  }

  lemma Associates<T>(x: seq<T>, y: seq<T>, z: seq<T>)
    ensures x + (y + z) == x + y + z
  {
  }

  /** Index of the `w`-byte word that holds address `a`. */
  function WordIndex(a: nat, w: WordSize): (k: nat) {
    if a < w then 0 else 1 + WordIndex(a - w, w)
  }

  /** Position of address `a` in its word: `addr & (sizeof(long) - 1)`. */
  function Residue(a: nat, w: WordSize): (r: nat)
    ensures r < w && r <= a
  {
    if a < w then a else Residue(a - w, w)
  }

  /** Word index and residue are quotient and remainder. They are defined by recursion so that
      proofs about transfers see no division unless they ask for it here. */
  lemma {:induction false} WordArithmetic(a: nat, w: WordSize)
    ensures WordIndex(a, w) == (if w == 4 then a / 4 else a / 8)
    ensures Residue(a, w) == (if w == 4 then a % 4 else a % 8)
  {
    if a >= w {
      WordArithmetic(a - w, w);
    }
  }

  /** Number of values of a `w`-byte unsigned integer. */
  function Modulus(w: WordSize): (m: nat) {
    if w == 4 then TWO32 else TWO64
  }

  /** Conversion to an unsigned type of `w` bytes. */
  function Unsigned(v: int, w: WordSize): (u: int)
    ensures 0 <= u < Modulus(w)
  {
    if w == 4 then v % TWO32 else v % TWO64
  }

  /** Conversion to a signed type of `w` bytes. */
  function Signed(v: int, w: WordSize): (s: int) {
    var u := Unsigned(v, w);
    if w == 4 then (if u < TWO31 then u else u - TWO32)
    else (if u < TWO63 then u else u - TWO64)
  }

  /** The values of a signed type of `w` bytes. */
  predicate IsSigned(v: int, w: WordSize) {
    if w == 4 then -TWO31 <= v < TWO31 else -TWO63 <= v < TWO63
  }

  /** Conversion to a signed type keeps exactly the values of the type. */
  lemma SignedKeeps(v: int, w: WordSize)
    ensures IsSigned(Signed(v, w), w) && (Signed(v, w) == v <==> IsSigned(v, w))
  {
  }

  /** Quotient and remainder of a word are unique. */
  lemma UnsignedIs(v: int, w: WordSize, q: int, r: int)
    requires v == Modulus(w) * q + r && 0 <= r < Modulus(w)
    ensures Unsigned(v, w) == r
  {
    if w == 4 {
      assert v % TWO32 == r;
    } else {
      assert v % TWO64 == r;
    }
  }

  /** One wrap-around is enough for numbers whose magnitude a word can hold. */
  lemma UnsignedOnce(v: int, w: WordSize)
    requires 0 < v + Modulus(w) && v < Modulus(w)
    ensures Unsigned(v, w) == if v >= 0 then v else v + Modulus(w)
  {
    UnsignedIs(v, w, if v >= 0 then 0 else -1, if v >= 0 then v else v + Modulus(w));
  }

  /** Conversion to `unsigned int`. */
  function U32(n: nat): (u: nat)
    ensures u < TWO32 && (n < TWO32 ==> u == n)
  {
    if n < TWO32 then n else U32(n - TWO32)
  }

  lemma {:induction false} U32IsRemainder(n: nat)
    ensures U32(n) == n % TWO32
  {
    if n >= TWO32 {
      U32IsRemainder(n - TWO32);
    }
  }

  /** Wrapping around at every addition is wrapping around once. */
  lemma {:induction false} AddU32(n: nat, m: nat)
    ensures U32(U32(n) + m) == U32(n + m)
  {
    if n >= TWO32 {
      AddU32(n - TWO32, m);
    } else if m >= TWO32 {
      AddU32(n, m - TWO32);
    }
  }

  lemma Times(i: nat, c: nat)
    requires i > 0
    ensures i * c == c + (i - 1) * c && (i - 1) * c >= 0
  {
  }

  lemma {:induction false} TimesMonotone(q: nat, i: nat, c: nat)
    requires q <= i
    ensures q * c <= i * c
    decreases i - q
  {
    if q < i {
      TimesMonotone(q, i - 1, c);
      Times(i, c);
    }
  }

  /** Quotient and remainder are unique. */
  lemma QuotientIs(v: nat, d: nat, q: nat, r: nat)
    requires v == q * d + r && r < d
    ensures v / d == q
  {
    var k := v / d;
    assert v == k * d + v % d;
    if k < q {
      TimesMonotone(k + 1, q, d);
      Times(k + 1, d);
    } else if k > q {
      TimesMonotone(q + 1, k, d);
      Times(q + 1, d);
    }
  }

  /** 256 to the power `n`: how many values `n` bytes can hold. */
  function Pow256(n: nat): (p: nat)
    ensures p > 0
  {
    if n == 0 then 1 else 256 * Pow256(n - 1)
  }

  /** The integer whose little-endian representation is `bs`. */
  function FromBytes(bs: seq<byte>): (v: nat)
    ensures v < Pow256(|bs|)
  {
    if bs == [] then 0 else bs[0] + 256 * FromBytes(bs[1..])
  }

  /** The low `n` bytes of `v`, least significant first. */
  function ToBytes(v: nat, n: nat): (bs: seq<byte>)
    ensures |bs| == n
    decreases n
  {
    if n == 0 then [] else [v % 256] + ToBytes(v / 256, n - 1)
  }

  /** Storing an integer and loading it back. */
  lemma {:induction false} StoreLoad(v: nat, n: nat)
    requires v < Pow256(n)
    ensures FromBytes(ToBytes(v, n)) == v
    decreases n
  {
    if n > 0 {
      StoreLoad(v / 256, n - 1);
      assert ToBytes(v, n)[1..] == ToBytes(v / 256, n - 1);
    }
  }

  lemma Pow256Step(n: nat)
    requires n > 0
    ensures Pow256(n) == 256 * Pow256(n - 1)
  {
  }

  lemma DivideTwice(v: nat, p: nat)
    requires p > 0
    ensures v / (256 * p) == v / 256 / p
  {
    var q, r := v / 256, v % 256;
    assert v == 256 * q + r;
    var x, y := q / p, q % p;
    assert q == p * x + y;
    assert v == x * (256 * p) + (256 * y + r) by {
      assert 256 * (p * x) == x * (256 * p);
    }
    QuotientIs(v, 256 * p, x, 256 * y + r);
  }

  /** Byte `i` of the representation is digit `i` of the number to base 256: least significant
      first. */
  lemma {:induction false} FromBytesAt(bs: seq<byte>, i: nat)
    requires i < |bs|
    ensures FromBytes(bs) / Pow256(i) % 256 == bs[i]
    decreases |bs|
  {
    var rest := FromBytes(bs[1..]);
    assert FromBytes(bs) == bs[0] + 256 * rest;
    if i > 0 {
      FromBytesAt(bs[1..], i - 1);
      Pow256Step(i);
      DivideTwice(FromBytes(bs), Pow256(i - 1));
      assert FromBytes(bs) / 256 == rest;
    }
  }

  lemma {:induction false} ToBytesAt(v: nat, n: nat, i: nat)
    requires i < n
    ensures ToBytes(v, n)[i] == v / Pow256(i) % 256
    decreases n
  {
    if i > 0 {
      ToBytesAt(v / 256, n - 1, i - 1);
      Pow256Step(i);
      DivideTwice(v, Pow256(i - 1));
    }
  }

  lemma Pow256Values()
    ensures Pow256(2) == 0x1_0000 && Pow256(4) == TWO32 && Pow256(8) == TWO64
  {
    assert Pow256(1) == 256;
    assert Pow256(2) == 256 * 256;
    assert Pow256(3) == 256 * 0x1_0000;
    assert Pow256(5) == 256 * TWO32;
    assert Pow256(6) == 256 * Pow256(5);
    assert Pow256(7) == 256 * Pow256(6);
  }
}
