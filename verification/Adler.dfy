/** The Adler-32 checksum of cfgfs (adler.h): sums of 32 bits that are reduced only once for every
    5552 bytes, against the definition of section 8.2 of RFC 1950, which reduces at every byte. */
module Adler {

  const BASE: nat := 65521
  const NMAX: nat := 5552
  const TWO_32: nat := 0x1_0000_0000

  // ---------- the modulus ----------

  ghost predicate Prime(n: nat) {
    n >= 2 && forall a: nat, b: nat :: a >= 2 && b >= 2 ==> a * b != n
  }

  predicate Digit(d: nat) {
    d in {0, 1, 2, 3, 4, 5, 6, 7, 8, 9, 10, 11, 12, 13, 14, 15}
  }

  lemma DigitBelow16(d: nat)
    requires d < 16
    ensures Digit(d)
  {
  }

  /** No number of two hexadecimal digits divides 65521. */
  lemma NoSmallDivisor(high: nat, low: nat)
    requires Digit(high) && Digit(low) && 2 <= 16 * high + low
    ensures 65521 % (16 * high + low) != 0
  {
  }

  lemma DivMod(n: nat, a: nat)
    requires a > 0
    ensures n == a * (n / a) + n % a && 0 <= n % a < a
  {
  }

  lemma {:induction false} TimesGrows(a: nat, x: nat, y: nat)
    requires x < y
    ensures a * x + a <= a * y
    decreases y - x
  {
    if x + 1 < y {
      TimesGrows(a, x, y - 1);
    }
    assert a * y == a * (y - 1) + a;
  }

  lemma NotAProduct(n: nat, a: nat, b: nat, q: nat, r: nat)
    requires n == a * q + r && 0 < r < a
    ensures a * b != n
  {
    if b > q {
      TimesGrows(a, q, b);
    } else if b < q {
      TimesGrows(a, b, q);
    }
  }

  lemma Digits(a: nat)
    requires 2 <= a < 256
    ensures Digit(a / 16) && Digit(a % 16) && 2 <= 16 * (a / 16) + a % 16 == a
  {
    DigitBelow16(a / 16);
    DigitBelow16(a % 16);
  }

  lemma LeavesRemainder(a: nat)
    requires 2 <= a < 256
    ensures BASE % a > 0
  {
    Digits(a);
    hide Digit;
    var high, low := a / 16, a % 16;
    NoSmallDivisor(high, low);
    DivMod(BASE, a);
  }

  lemma SmallFactor(a: nat, b: nat)
    requires 2 <= a < 256
    ensures a * b != BASE
  {
    LeavesRemainder(a);
    DivMod(BASE, a);
    NotAProduct(BASE, a, b, BASE / a, BASE % a);
  }

  /** 65521 is the largest prime below 2^16, as section 8.2 of RFC 1950 says. */
  lemma BaseIsLargestPrime()
    ensures Prime(BASE)
    ensures forall n: nat :: BASE < n < 0x1_0000 ==> !Prime(n)
  {
    forall a: nat, b: nat | a >= 2 && b >= 2 ensures a * b != BASE {
      if a < 256 {
        SmallFactor(a, b);
      } else if b < 256 {
        SmallFactor(b, a);
        assert a * b == b * a;
      } else {
        assert a * b >= 256 * b >= 256 * 256;
      }
    }
    forall n: nat | BASE < n < 0x1_0000 ensures !Prime(n) {
      assert n % 2 == 0 ==> 2 * (n / 2) == n;
      assert 3 * 21841 == 65523 && 5 * 13105 == 65525 && 7 * 9361 == 65527 && 3 * 21843 == 65529;
      assert 19 * 3449 == 65531 && 13 * 5041 == 65533 && 5 * 13107 == 65535;
    }
  }

  type Byte = x: int | 0 <= x < 256

  datatype Sums = Sums(s1: nat, s2: nat)

  // ---------- the definition ----------

  /** s1 is the sum of all bytes, s2 the sum of all values of s1, both modulo 65521. */
  function Update(s: Sums, x: Byte): Sums {
    var s1 := (s.s1 + x) % BASE;
    Sums(s1, (s.s2 + s1) % BASE)
  }

  function Checksum(s: Sums, data: seq<Byte>): Sums {
    if data == [] then s else Update(Checksum(s, data[..|data| - 1]), data[|data| - 1])
  }

  /** The same sums without any reduction. */
  function Raw(s: Sums, data: seq<Byte>): Sums {
    if data == [] then s
    else
      var r := Raw(s, data[..|data| - 1]);
      var s1 := r.s1 + data[|data| - 1];
      Sums(s1, r.s2 + s1)
  }

  predicate Reduced(s: Sums) {
    s.s1 < BASE && s.s2 < BASE
  }

  function Reduce(s: Sums): Sums {
    Sums(s.s1 % BASE, s.s2 % BASE)
  }

  // ---------- the closed form ----------

  function Sum(data: seq<Byte>): nat {
    if data == [] then 0 else Sum(data[..|data| - 1]) + data[|data| - 1]
  }

  /** n times the first byte, n - 1 times the second, and so on. */
  function WeightedSum(data: seq<Byte>): nat {
    if data == [] then 0 else WeightedSum(data[..|data| - 1]) + Sum(data)
  }

  lemma {:induction false} RawClosedForm(s: Sums, data: seq<Byte>)
    ensures Raw(s, data) == Sums(s.s1 + Sum(data), s.s2 + |data| * s.s1 + WeightedSum(data))
  {
    if data != [] {
      RawClosedForm(s, data[..|data| - 1]);
      assert |data| * s.s1 == (|data| - 1) * s.s1 + s.s1;
    }
  }

  // ---------- how large the sums can grow ----------

  /** The largest s2 after n bytes from reduced sums. */
  function Largest(n: nat): nat {
    if n == 0 then BASE - 1 else Largest(n - 1) + BASE - 1 + 255 * n
  }

  lemma {:induction false} RawBounded(s: Sums, data: seq<Byte>)
    requires Reduced(s)
    ensures Raw(s, data).s1 <= BASE - 1 + 255 * |data|
    ensures Raw(s, data).s2 <= Largest(|data|)
  {
    if data != [] {
      RawBounded(s, data[..|data| - 1]);
    }
  }

  lemma {:induction false} LargestClosedForm(n: nat)
    ensures 2 * Largest(n) == 2 * (n + 1) * (BASE - 1) + 255 * n * (n + 1)
  {
    if n > 0 {
      LargestClosedForm(n - 1);
      assert 255 * n * (n + 1) == 255 * (n - 1) * n + 2 * 255 * n;
    }
  }

  lemma {:induction false} LargestGrows(m: nat, n: nat)
    requires m <= n
    ensures Largest(m) <= Largest(n)
    decreases n
  {
    if m < n {
      LargestGrows(m, n - 1);
    }
  }

  /** The bound is reached, by bytes that are all 255. */
  lemma {:induction false} LargestReached(n: nat)
    ensures var worst: seq<Byte> := seq(n, _ => 255); var s := Sums(BASE - 1, BASE - 1);
      Raw(s, worst) == Sums(BASE - 1 + 255 * n, Largest(n))
  {
    if n > 0 {
      LargestReached(n - 1);
      var worst: seq<Byte> := seq(n, _ => 255);
      var shorter: seq<Byte> := seq(n - 1, _ => 255);
      assert worst[..n - 1] == shorter;
    }
  }

  /** 5552 is exactly the length up to which no sum can wrap round in 32 bits. */
  lemma NmaxIsExact(n: nat)
    ensures Largest(n) < TWO_32 <==> n <= NMAX
  {
    LargestClosedForm(NMAX);
    LargestClosedForm(NMAX + 1);
    if n <= NMAX {
      LargestGrows(n, NMAX);
    } else {
      LargestGrows(NMAX + 1, n);
    }
  }

  /** With one byte more, the sum does wrap round for some data. */
  lemma OneMoreWraps()
    ensures exists data: seq<Byte> ::
      |data| == NMAX + 1 && Raw(Sums(BASE - 1, BASE - 1), data).s2 >= TWO_32
  {
    LargestReached(NMAX + 1);
    NmaxIsExact(NMAX + 1);
    var worst: seq<Byte> := seq(NMAX + 1, _ => 255);
    assert |worst| == NMAX + 1;
  }

  // ---------- reducing late ----------

  lemma ReduceLater(a: nat, b: nat)
    ensures (a % BASE + b) % BASE == (a + b) % BASE
  {
    var q := a / BASE;
    assert a + b == q * BASE + (a % BASE + b);
    RemainderShift(a % BASE + b, q);
  }

  lemma {:induction false} RemainderShift(x: nat, q: nat)
    ensures (q * BASE + x) % BASE == x % BASE
  {
    if q > 0 {
      RemainderShift(x, q - 1);
      assert q * BASE + x == ((q - 1) * BASE + x) + BASE;
    }
  }

  lemma UpdateReduced(r: Sums, x: Byte)
    ensures Update(Reduce(r), x) == Reduce(Sums(r.s1 + x, r.s2 + r.s1 + x))
  {
    ReduceLater(r.s1, x);
    ReduceLater(r.s2, (r.s1 + x) % BASE);
    ReduceLater(r.s1 + x, r.s2);
  }

  lemma {:induction false} ReduceAtTheEnd(s: Sums, data: seq<Byte>)
    requires Reduced(s)
    ensures Reduce(Raw(s, data)) == Checksum(s, data)
  {
    if data != [] {
      ReduceAtTheEnd(s, data[..|data| - 1]);
      UpdateReduced(Raw(s, data[..|data| - 1]), data[|data| - 1]);
      hide Update, Reduce;
    }
  }

  lemma {:induction false} ChecksumConcat(s: Sums, a: seq<Byte>, b: seq<Byte>)
    ensures Checksum(s, a + b) == Checksum(Checksum(s, a), b)
    decreases |b|
  {
    if b == [] {
      assert a + b == a;
    } else {
      var front := b[..|b| - 1];
      ChecksumConcat(s, a, front);
      assert (a + b)[..|a + b| - 1] == a + front;
    }
  }

  /** The checksum of a message as RFC 1950 writes it out. */
  lemma ChecksumClosedForm(data: seq<Byte>)
    ensures Checksum(Sums(1, 0), data)
         == Sums((1 + Sum(data)) % BASE, (|data| + WeightedSum(data)) % BASE)
  {
    ReduceAtTheEnd(Sums(1, 0), data);
    RawClosedForm(Sums(1, 0), data);
  }

  // ---------- the loop ----------

  lemma NoWrap(s: Sums, data: seq<Byte>)
    requires Reduced(s) && |data| <= NMAX
    ensures Raw(s, data).s1 < TWO_32 && Raw(s, data).s2 < TWO_32
  {
    RawBounded(s, data);
    NmaxIsExact(|data|);
  }

  lemma RawStep(s: Sums, data: seq<Byte>, k: nat)
    requires k < |data| <= NMAX && Reduced(s)
    ensures var r := Raw(s, data[..k]); var t := Raw(s, data[..k + 1]);
      t.s1 == r.s1 + data[k] < TWO_32 && t.s2 == r.s2 + t.s1 < TWO_32
  {
    assert data[..k + 1][..k] == data[..k];
    NoWrap(s, data[..k + 1]);
  }

  /** The inner loop. The additions wrap round as those of `unsigned` do. */
  method AddBytes(start1: nat, start2: nat, data: seq<Byte>) returns (s1: nat, s2: nat)
    requires Reduced(Sums(start1, start2)) && |data| <= NMAX
    ensures Sums(s1, s2) == Raw(Sums(start1, start2), data)
  {
    s1, s2 := start1, start2;
    ghost var s := Sums(s1, s2);
    var buf: nat := 0;
    var n: nat := |data|;
    while n != 0
      invariant buf + n == |data| && Sums(s1, s2) == Raw(s, data[..buf])
      decreases n
    {
      n := n - 1;
      RawStep(s, data, buf);
      s1 := (s1 + data[buf]) % TWO_32;
      buf := buf + 1;
      s2 := (s2 + s1) % TWO_32;
    }
    assert data[..buf] == data;
  }

  /** ADLER_CALC, from the sums of the bytes that came before. */
  method Calc(start1: nat, start2: nat, data: seq<Byte>) returns (s1: nat, s2: nat)
    requires Reduced(Sums(start1, start2))
    ensures Sums(s1, s2) == Checksum(Sums(start1, start2), data)
    ensures Reduced(Sums(s1, s2))
  {
    hide Checksum, Raw;
    s1, s2 := start1, start2;
    ghost var start := Sums(start1, start2);
    var rest := data;
    var len: nat := |data|;
    while len != 0
      invariant len == |rest| && Reduced(Sums(s1, s2))
      invariant Checksum(start, data) == Checksum(Sums(s1, s2), rest)
      decreases len
    {
      var n: nat := if len < NMAX then len else NMAX;
      len := len - n;
      var chunk := rest[..n];
      ghost var s := Sums(s1, s2);
      s1, s2 := AddBytes(s1, s2, chunk);
      s1 := s1 % BASE;
      s2 := s2 % BASE;
      ReduceAtTheEnd(s, chunk);
      ChecksumConcat(s, chunk, rest[n..]);
      assert chunk + rest[n..] == rest;
      rest := rest[n..];
    }
    ChecksumNothing(Sums(s1, s2));
  }

  lemma ChecksumNothing(s: Sums)
    ensures Checksum(s, []) == s
  {
  }
}
