// Bytes, little-endian integers and the rounding of a 64-bit integer to a double.
module Bytes {

  type byte = b: int | 0 <= b < 256

  type bytes = seq<byte>

  function Min(a: int, b: int): int {
    if a < b then a else b
  }

  /** A byte string that comes in chunks. */
  function Join(chunks: seq<bytes>): bytes {
    if chunks == [] then [] else chunks[0] + Join(chunks[1..])
  }

  // ---- little-endian unsigned integers -------------------------------------

  /** 256 to the power k. */
  function Pow256(k: nat): (p: nat)
    ensures p > 0
  {
    if k == 0 then 1 else 256 * Pow256(k - 1)
  }

  /** The k low bytes of n, least significant first. */
  function LE(n: nat, k: nat): (bs: bytes)
    ensures |bs| == k
  {
    if k == 0 then [] else [n % 256] + LE(n / 256, k - 1)
  }

  /** The number a little-endian byte string denotes. */
  function FromLE(bs: bytes): nat {
    if bs == [] then 0 else bs[0] + 256 * FromLE(bs[1..])
  }

  lemma {:induction false} FromLEBound(bs: bytes)
    ensures FromLE(bs) < Pow256(|bs|)
  {
    if bs != [] {
      FromLEBound(bs[1..]);
    }
  }

  lemma {:induction false} LERoundTrip(n: nat, k: nat)
    requires n < Pow256(k)
    ensures FromLE(LE(n, k)) == n
  {
    if k > 0 {
      LERoundTrip(n / 256, k - 1);
      assert LE(n, k)[1..] == LE(n / 256, k - 1);
    }
  }

  lemma {:induction false} FromLERoundTrip(bs: bytes)
    ensures LE(FromLE(bs), |bs|) == bs
  {
    if bs != [] {
      FromLERoundTrip(bs[1..]);
      assert FromLE(bs) / 256 == FromLE(bs[1..]) && FromLE(bs) % 256 == bs[0];
    }
  }

  lemma {:induction false} DivTwice(n: nat, j: nat)
    ensures n / Pow256(j + 1) == n / 256 / Pow256(j)
  {
    var p, q := Pow256(j), n / 256;
    var d := q / p;
    assert q == d * p + q % p && n == 256 * q + n % 256;
    assert n == d * (256 * p) + (256 * (q % p) + n % 256) by {
      assert 256 * (d * p) == d * (256 * p);
    }
    assert 0 <= 256 * (q % p) + n % 256 < 256 * p;
    QuotientIs(n, 256 * p, d, 256 * (q % p) + n % 256);
  }

  lemma QuotientIs(n: nat, p: nat, d: nat, r: nat)
    requires p > 0 && n == d * p + r && r < p
    ensures n / p == d
  {
    var q := n / p;
    DivMod(n, p);
    if q < d {
      MulLe(q + 1, d, p);
      assert false;
    }
    if d < q {
      MulLe(d + 1, q, p);
      assert false;
    }
  }

  lemma MulLe(a: nat, b: nat, u: nat)
    requires a <= b
    ensures a * u <= b * u
    ensures (a + 1) * u == a * u + u
  {
  }

  lemma DivMod(n: nat, u: nat)
    requires u > 0
    ensures n == n / u * u + n % u && 0 <= n % u < u
    ensures (n / u + 1) * u == n / u * u + u
  {
  }

  /** Which byte stands where: the j-th is the j-th digit of n to the base 256, from the lowest. */
  lemma {:induction false} LEDigit(n: nat, k: nat, j: nat)
    requires j < k
    ensures LE(n, k)[j] == n / Pow256(j) % 256
  {
    if j > 0 {
      LEDigit(n / 256, k - 1, j - 1);
      DivTwice(n, j - 1);
    }
  }

  lemma Pow256s()
    ensures Pow256(2) == 0x1_0000 && Pow256(4) == 0x1_0000_0000
    ensures Pow256(8) == 0x1_0000_0000_0000_0000
  {
    assert Pow256(1) == 256;
    assert Pow256(3) == 256 * Pow256(2);
    assert Pow256(5) == 256 * Pow256(4);
    assert Pow256(6) == 256 * Pow256(5);
    assert Pow256(7) == 256 * Pow256(6);
  }

  // ---- signed 64-bit integers ----------------------------------------------

  const TWO_63: int := 0x8000_0000_0000_0000

  predicate IsInt64(n: int) {
    -TWO_63 <= n < TWO_63
  }

  /** Two's complement, little-endian. */
  function Int64LE(n: int): (bs: bytes)
    requires IsInt64(n)
    ensures |bs| == 8
  {
    LE(if n < 0 then n + 2 * TWO_63 else n, 8)
  }

  function FromInt64LE(bs: bytes): (n: int)
    requires |bs| == 8
    ensures IsInt64(n)
  {
    Pow256s();
    FromLEBound(bs);
    var u := FromLE(bs);
    if u >= TWO_63 then u - 2 * TWO_63 else u
  }

  lemma Int64RoundTrip(n: int)
    requires IsInt64(n)
    ensures FromInt64LE(Int64LE(n)) == n
  {
    Pow256s();
    LERoundTrip(if n < 0 then n + 2 * TWO_63 else n, 8);
  }

  lemma FromInt64RoundTrip(bs: bytes)
    requires |bs| == 8
    ensures Int64LE(FromInt64LE(bs)) == bs
  {
    FromLERoundTrip(bs);
    Pow256s();
    FromLEBound(bs);
    var n, u := FromInt64LE(bs), FromLE(bs);
    assert (if n < 0 then n + 2 * TWO_63 else n) == u;
  }

  // ---- slices of concatenations --------------------------------------------

  /** buf holds x at offset pos. */
  predicate HasAt(buf: bytes, pos: nat, x: bytes) {
    pos + |x| <= |buf| && buf[pos..pos + |x|] == x
  }

  lemma SplitAt(buf: bytes, pos: nat, p: bytes, x: bytes)
    ensures HasAt(buf, pos, p + x) <==> HasAt(buf, pos, p) && HasAt(buf, pos + |p|, x)
  {
    if HasAt(buf, pos, p + x) {
      assert p == (p + x)[..|p|] && x == (p + x)[|p|..];
      assert buf[pos..pos + |p|] == buf[pos..pos + |p + x|][..|p|];
      assert buf[pos + |p|..pos + |p + x|] == buf[pos..pos + |p + x|][|p|..];
    }
    if HasAt(buf, pos, p) && HasAt(buf, pos + |p|, x) {
      assert buf[pos..pos + |p + x|] == buf[pos..pos + |p|] + buf[pos + |p|..pos + |p| + |x|];
    }
  }

  // ---- the double a 64-bit integer is read as ------------------------------

  const TWO_53: int := 0x20_0000_0000_0000

  /** The spacing of doubles around n. */
  function Spacing(n: nat): (u: nat)
    ensures u > 0
  {
    if n < TWO_53 then 1 else 2 * Spacing(n / 2)
  }

  /** n rounded to a multiple of u, ties to the even multiple. */
  function RoundHalfEven(n: nat, u: nat): nat
    requires u > 0
  {
    var q, r := n / u, n % u;
    if 2 * r < u || (2 * r == u && q % 2 == 0) then q * u else (q + 1) * u
  }

  /** JavaScript's Number(n) for a bigint n: the nearest double. */
  function ToNumber(n: int): int {
    if n < 0 then -(RoundHalfEven(-n, Spacing(-n)) as int) else RoundHalfEven(n, Spacing(n))
  }

  lemma SmallIntegersAreExact(n: int)
    requires -TWO_53 <= n <= TWO_53
    ensures ToNumber(n) == n
  {
    var m := if n < 0 then -n else n;
    if m == TWO_53 {
      assert Spacing(m / 2) == 1;
      assert m / 2 * 2 == m && m % 2 == 0;
    } else {
      assert m / 1 == m && m % 1 == 0;
    }
  }

  /** The least positive integer no double holds. */
  lemma FirstInexact()
    ensures ToNumber(TWO_53 + 1) == TWO_53
  {
    var n: nat := TWO_53 + 1;
    assert Spacing(n / 2) == 1 && Spacing(n) == 2;
    assert n / 2 == 0x10_0000_0000_0000 && n % 2 == 1;
  }

  function Pow2(e: nat): (p: nat)
    ensures p > 0
  {
    if e == 0 then 1 else 2 * Pow2(e - 1)
  }

  function Distance(a: int, b: int): nat {
    if a < b then b - a else a - b
  }

  lemma {:induction false} SpacingIs(n: nat) returns (f: nat)
    ensures Spacing(n) == Pow2(f) && n < TWO_53 * Pow2(f)
    ensures f > 0 ==> n >= TWO_53 / 2 * Pow2(f)
  {
    f := 0;
    if n >= TWO_53 {
      var g := SpacingIs(n / 2);
      f := g + 1;
    }
  }

  function Times(a: int, b: int): int {
    a * b
  }

  lemma TimesUp(a: nat, b: nat, u: nat)
    requires a < b
    ensures Times(a, u) + u <= Times(b, u)
  {
    assert Times(a, u) + u == Times(a + 1, u);
    MulLe(a + 1, b, u);
  }

  /** The multiple below, what is left, and which of the two neighbours is chosen. */
  lemma RoundsTo(n: nat, u: nat) returns (q: nat, r: nat, m: nat)
    requires u > 0
    ensures n == Times(q, u) + r && r < u && RoundHalfEven(n, u) == Times(m, u)
    ensures (m == q && 2 * r <= u) || (m == q + 1 && 2 * r >= u)
    ensures 2 * r == u ==> m % 2 == 0
  {
    hide RoundHalfEven, Times;
    q, r := n / u, n % u;
    Divided(n, u);
    m := if 2 * r < u || (2 * r == u && q % 2 == 0) then q else q + 1;
    Rounded(n, u, q, r, m);
  }

  lemma Divided(n: nat, u: nat)
    requires u > 0
    ensures n == Times(n / u, u) + n % u && n % u < u
  {
    DivMod(n, u);
  }

  lemma Rounded(n: nat, u: nat, q: nat, r: nat, m: nat)
    requires u > 0 && q == n / u && r == n % u
    requires m == if 2 * r < u || (2 * r == u && q % 2 == 0) then q else q + 1
    ensures RoundHalfEven(n, u) == Times(m, u)
  {
  }

  /** No multiple of u is nearer. */
  lemma NearestMultiple(n: nat, u: nat, k: nat)
    requires u > 0
    ensures Distance(n, RoundHalfEven(n, u)) <= Distance(n, Times(k, u))
    ensures 2 * Distance(n, RoundHalfEven(n, u)) <= u
  {
    hide RoundHalfEven, Times;
    var q, r, m := RoundsTo(n, u);
    if k < q {
      TimesUp(k, q, u);
    } else if k > q + 1 {
      TimesUp(q + 1, k, u);
    }
    NextMultiple(q, u);
  }

  lemma NextMultiple(q: nat, u: nat)
    ensures Times(q + 1, u) == Times(q, u) + u
  {
  }

  lemma {:induction false} PowersAdd(e: nat, f: nat)
    requires f <= e
    ensures Pow2(e) == Pow2(e - f) * Pow2(f)
    decreases f
  {
    if f > 0 {
      PowersAdd(e - 1, f - 1);
    }
  }

  lemma {:induction false} PowersGrow(e: nat, f: nat)
    requires e < f
    ensures 2 * Pow2(e) <= Pow2(f)
    decreases f
  {
    if e + 1 < f {
      PowersGrow(e, f - 1);
    }
  }

  lemma NearestOfAll(n: nat, m: nat, e: nat)
    requires m < TWO_53
    ensures Distance(n, RoundHalfEven(n, Spacing(n))) <= Distance(n, Times(m, Pow2(e)))
  {
    hide RoundHalfEven, Times, Spacing, Pow2;
    var f := SpacingBound(n);
    if f <= e {
      Regroup(m, e, f);
      NearestMultiple(n, Pow2(f), m * Pow2(e - f));
    } else {
      NearestMultiple(n, Pow2(f), TWO_53 / 2);
      SmallDoubles(m, e, f);
    }
  }

  lemma SpacingBound(n: nat) returns (f: nat)
    ensures Spacing(n) == Pow2(f) && n < Times(TWO_53, Pow2(f))
    ensures f > 0 ==> n >= Times(TWO_53 / 2, Pow2(f))
  {
    f := SpacingIs(n);
  }

  lemma Regroup(m: nat, e: nat, f: nat)
    requires f <= e
    ensures m * Pow2(e - f) >= 0 && Times(m, Pow2(e)) == Times(m * Pow2(e - f), Pow2(f))
  {
    PowersAdd(e, f);
    Associates(m, Pow2(e - f), Pow2(f));
  }

  lemma Associates(a: nat, b: nat, c: nat)
    ensures a * (b * c) == a * b * c
  {
  }

  /** At a lower power, 53 bits stay below the smallest number of 53 bits at the higher one. */
  lemma SmallDoubles(m: nat, e: nat, f: nat)
    requires m < TWO_53 && e < f
    ensures Times(m, Pow2(e)) <= Times(TWO_53 / 2, Pow2(f))
  {
    PowersGrow(e, f);
    MulLe(m, TWO_53, Pow2(e));
  }

  /** Number() gives a double no other double, an integer of at most 53 bits times a power of two, is
      nearer than. */
  lemma NumberIsNearestDouble(n: int, m: int, e: nat)
    requires -TWO_53 < m < TWO_53
    ensures Distance(n, ToNumber(n)) <= Distance(n, m * Pow2(e))
  {
    hide RoundHalfEven, Spacing, Pow2;
    var a := if n < 0 then -n else n;
    var k := if m < 0 then -m else m;
    NearestOfAll(a, k, e);
    NearestMultiple(a, Spacing(a), 0);
    Mirrored(k, Pow2(e));
  }

  lemma Mirrored(k: nat, p: nat)
    ensures Times(k, p) >= 0 && k * p == Times(k, p) && (0 - k) * p == 0 - Times(k, p) && Times(0, p) == 0
  {
  }

  /** It is a double itself, and of two equally near the one that is even. */
  lemma NumberIsDouble(n: int) returns (m: int, e: nat)
    ensures -TWO_53 <= m <= TWO_53 && ToNumber(n) == m * Pow2(e)
    ensures 2 * Distance(n, ToNumber(n)) <= Pow2(e)
    ensures 2 * Distance(n, ToNumber(n)) == Pow2(e) ==> m % 2 == 0
  {
    hide RoundHalfEven, Spacing, Pow2, Times;
    var a := if n < 0 then -n else n;
    e := SpacingBound(a);
    var q, r, k := RoundsTo(a, Pow2(e));
    NextMultiple(q, Pow2(e));
    if q >= TWO_53 {
      AtLeast(TWO_53, q, Pow2(e));
      assert false;
    }
    Mirrored(k, Pow2(e));
    m := k;
    if n < 0 {
      m := -m;
    }
  }

  lemma AtLeast(a: nat, b: nat, u: nat)
    requires a <= b
    ensures Times(a, u) <= Times(b, u)
  {
    MulLe(a, b, u);
  }
}
