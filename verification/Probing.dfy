/**
 The arithmetic behind the linker's quadratic rehash: with HSIZE == 2 * NSYM and
 NSYM an odd prime, the first NSYM probes of a search fall in distinct buckets.
 */
module Probing {

  /** Symbols per segment; the argument needs it to be an odd prime. */
  const NSYM: nat := 1103
  /** Hash buckets per segment. */
  const HSIZE: nat := 2206

  /** The bucket of probe j of a search from bucket h: each probe moves on by the next odd number, wrapping once. */
  function Probe(h: nat, j: nat): (b: nat)
    requires h < HSIZE && j <= NSYM
    ensures b < HSIZE
  {
    if j == 0 then
      h
    else
      var c := Probe(h, j - 1) + 2 * j - 1;
      if c >= HSIZE then c - HSIZE else c
  }

  lemma NoSmallDivisor(d: nat)
    requires 2 <= d <= 33
    ensures 1103 % d != 0
  {
  }

  lemma MulMono(a: nat, b: nat, c: nat, d: nat)
    requires a <= b && c <= d
    ensures a * c <= b * d
  {
    assert a * c <= a * d;
    assert a * d <= b * d;
  }

  /** A quotient and a remainder in range are the quotient and the remainder. */
  lemma DivModUnique(n: int, b: int, q: int, r: int)
    requires b > 0 && 0 <= r < b && n == q * b + r
    ensures n / b == q && n % b == r
  {
    var k := n / b;
    assert n == k * b + n % b;
    assert (q - k) * b == n % b - r;
    assert q - k >= 1 ==> (q - k) * b >= b;
    assert q - k <= -1 ==> (q - k) * b <= -b;
  }

  /** One of two factors of a number below 34 * 34 is below 34. */
  lemma SmallFactor(d: nat, q: nat)
    requires d * q < 34 * 34
    ensures d <= 33 || q <= 33
  {
    if d > 33 && q > 33 {
      MulMono(34, d, 34, q);
    }
  }

  lemma Cofactor(n: nat, d: nat, q: nat)
    requires 0 < n == d * q && d < n
    ensures q >= 2
  {
    assert q < 2 ==> d * q <= d;
  }

  /** 1103 is prime: a proper divisor would come with a cofactor of at most 33. */
  lemma NsymIsPrime(d: nat)
    requires 2 <= d < 1103
    ensures 1103 % d != 0
  {
    if 1103 % d == 0 {
      var q := 1103 / d;
      assert d * q == 1103;
      SmallFactor(d, q);
      Cofactor(1103, d, q);
      if d <= 33 {
        NoSmallDivisor(d);
      } else {
        DivModUnique(1103, q, d, 0);
        NoSmallDivisor(q);
      }
    }
  }

  lemma SignOfProduct(r: nat, b: nat, z: int)
    requires r * b == 1103 * z
    ensures z >= 0
  {
    assert r * b >= 0;
  }

  /** Euclid's lemma for NSYM, by descent on a. */
  lemma {:induction false} Euclid(a: nat, b: nat, m: nat)
    requires 0 < a < 1103
    requires a * b == 1103 * m
    ensures b % 1103 == 0
    decreases a
  {
    if a == 1 {
      assert b == 1103 * m;
    } else {
      NsymIsPrime(a);
      var q, r := 1103 / a, 1103 % a;
      assert 1103 == q * a + r;
      calc {
        r * b;
        (1103 - q * a) * b;
        1103 * b - (q * a) * b;
        { assert (q * a) * b == q * (a * b); }
        1103 * b - q * (1103 * m);
        { assert q * (1103 * m) == 1103 * (q * m); }
        1103 * (b - q * m);
      }
      SignOfProduct(r, b, b - q * m);
      Euclid(r, b, b - q * m);
    }
  }

  lemma ModEqualMeansMultiple(x: nat, y: nat)
    requires x <= y && x % 2206 == y % 2206
    ensures exists m: nat {:trigger 2206 * m} :: y - x == 2206 * m
  {
    var m := y / 2206 - x / 2206;
    assert y - x == 2206 * m;
    assert m >= 0;
  }

  /** k - j and k + j have the same parity, so their product is not 2206 * m when one of them is 1103. */
  lemma OddProduct(d: nat, j: nat, m: nat)
    requires d + 2 * j == 1103
    ensures d * 1103 != 2206 * m
  {
    assert d * 1103 == 1103 * 1103 - 2 * (j * 1103);
  }

  /** One more square, wrapped by at most one subtraction. */
  lemma SquareStep(h: nat, i: nat, b: nat)
    requires b == (h + i * i) % HSIZE && i < NSYM
    ensures var c := b + 2 * i + 1;
      (h + (i + 1) * (i + 1)) % HSIZE == if c >= HSIZE then c - HSIZE else c
  {
    var q := (h + i * i) / HSIZE;
    var c := b + 2 * i + 1;
    assert (i + 1) * (i + 1) == i * i + 2 * i + 1;
    assert h + (i + 1) * (i + 1) == q * HSIZE + c;
  }

  /** The sums of the odd numbers are the squares: this is a quadratic rehash. */
  lemma {:induction false} ProbeIsQuadratic(h: nat, j: nat)
    requires h < HSIZE && j <= NSYM
    ensures Probe(h, j) == (h + j * j) % HSIZE
  {
    if j > 0 {
      ProbeIsQuadratic(h, j - 1);
      SquareStep(h, j - 1, Probe(h, j - 1));
    }
  }

  /** h + j*j and h + k*k agree modulo HSIZE for no two j and k below NSYM. */
  lemma SquaresDistinct(h: nat, j: nat, k: nat)
    requires j < k < NSYM
    ensures (h + j * j) % HSIZE != (h + k * k) % HSIZE
  {
    if (h + j * j) % HSIZE == (h + k * k) % HSIZE {
      var d, s := k - j, k + j;
      MulMono(j, k, j, k);
      ModEqualMeansMultiple(h + j * j, h + k * k);
      var m: nat :| (h + k * k) - (h + j * j) == 2206 * m;
      assert d * s == k * k - j * j;
      Euclid(d, s, 2 * m);
      OddProduct(d, j, m);
    }
  }

  /** The NSYM probes of one search never visit a bucket twice. */
  lemma ProbesDistinct(h: nat, j: nat, k: nat)
    requires h < HSIZE && j < k < NSYM
    ensures Probe(h, j) != Probe(h, k)
  {
    ProbeIsQuadratic(h, j);
    ProbeIsQuadratic(h, k);
    SquaresDistinct(h, j, k);
  }

  /** Distinct naturals below m number at most m. */
  lemma {:induction false} Pigeonhole(s: seq<int>, m: nat)
    requires forall i :: 0 <= i < |s| ==> 0 <= s[i] < m
    requires forall i, j :: 0 <= i < j < |s| ==> s[i] != s[j]
    ensures |s| <= m
    decreases m
  {
    if |s| > 0 {
      assert s[0] < m;
      if m - 1 in s {
        var i :| 0 <= i < |s| && s[i] == m - 1;
        Pigeonhole(s[..i] + s[i + 1..], m - 1);
      } else {
        Pigeonhole(s, m - 1);
      }
    }
  }
}
