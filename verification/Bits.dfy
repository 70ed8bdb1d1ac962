/** Bitwise operators on unbounded naturals, written out bit by bit. */
module Bits {

  function Power2(n: nat): (p: nat)
    ensures p > 0
  {
    if n == 0 then 1 else 2 * Power2(n - 1)
  }

  lemma {:induction false} PowersMultiply(m: nat, n: nat)
    ensures Power2(m + n) == Power2(m) * Power2(n)
    decreases m
  {
    if m > 0 { PowersMultiply(m - 1, n); }
  }

  lemma {:induction false} WordSizes()
    ensures Power2(8) == 0x100 && Power2(26) == 0x400_0000
    ensures Power2(32) == 0x1_0000_0000 && Power2(64) == 0x1_0000_0000_0000_0000
  {
    assert Power2(4) == 16;
    PowersMultiply(4, 4);
    PowersMultiply(8, 8);
    assert Power2(2) == 4;
    PowersMultiply(2, 8);
    PowersMultiply(10, 16);
    PowersMultiply(16, 16);
    PowersMultiply(32, 32);
  }

  function Xor(a: nat, b: nat): (r: nat)
    decreases a + b
  {
    if a == 0 && b == 0 then 0 else (a + b) % 2 + 2 * Xor(a / 2, b / 2)
  }

  function And(a: nat, b: nat): (r: nat)
    decreases a + b
  {
    if a == 0 && b == 0 then 0
    else (if a % 2 == 1 && b % 2 == 1 then 1 else 0) + 2 * And(a / 2, b / 2)
  }

  lemma {:induction false} XorFits(a: nat, b: nat, n: nat)
    requires a < Power2(n) && b < Power2(n)
    ensures Xor(a, b) < Power2(n)
    decreases n
  {
    if n > 0 { XorFits(a / 2, b / 2, n - 1); }
  }

  /** Applying the same mask again gives the word back. */
  lemma {:induction false} XorUndoes(a: nat, b: nat)
    ensures Xor(Xor(a, b), b) == a
    decreases a + b
  {
    if a != 0 || b != 0 {
      XorUndoes(a / 2, b / 2);
      var r := Xor(a, b);
      XorHalves(a, b);
      XorHalves(r, b);
      SameParity(r, a, b);
      assert Xor(r, b) / 2 == a / 2 && Xor(r, b) % 2 == a % 2;
    }
  }

  lemma {:induction false} XorHalves(a: nat, b: nat)
    ensures Xor(a, b) % 2 == (a + b) % 2 && Xor(a, b) / 2 == Xor(a / 2, b / 2)
  {
    if a != 0 || b != 0 { LowAndHigh((a + b) % 2, Xor(a / 2, b / 2)); }
  }

  lemma {:induction false} LowAndHigh(low: nat, high: nat)
    requires low < 2
    ensures (low + 2 * high) % 2 == low && (low + 2 * high) / 2 == high
  {
  }

  lemma {:induction false} SameParity(r: nat, a: nat, b: nat)
    requires r % 2 == (a + b) % 2
    ensures (r + b) % 2 == a % 2
  {
  }

  /** The number these bits are, lowest first. */
  function Number(bits: seq<bool>): nat {
    if bits == [] then 0 else (if bits[0] then 1 else 0) + 2 * Number(bits[1..])
  }

  function Differing(x: seq<bool>, y: seq<bool>): (z: seq<bool>)
    requires |x| == |y|
    ensures |z| == |x|
  {
    seq(|x|, i requires 0 <= i < |x| => x[i] != y[i])
  }

  /** What the recursion means: exclusive or, bit by bit, at any width. */
  lemma {:induction false} XorIsBitwise(x: seq<bool>, y: seq<bool>)
    requires |x| == |y|
    ensures Xor(Number(x), Number(y)) == Number(Differing(x, y))
    decreases |x|
  {
    if x != [] {
      XorIsBitwise(x[1..], y[1..]);
      assert Differing(x, y)[1..] == Differing(x[1..], y[1..]);
      XorStep(Number(x), Number(x[1..]), if x[0] then 1 else 0, Number(y), Number(y[1..]), if y[0] then 1 else 0);
    }
  }

  lemma {:induction false} XorStep(a: nat, a2: nat, p: nat, b: nat, b2: nat, q: nat)
    requires a == 2 * a2 + p && b == 2 * b2 + q && p < 2 && q < 2
    ensures Xor(a, b) == 2 * Xor(a2, b2) + (p + q) % 2
  {
    XorHalves(a, b);
  }

  lemma {:induction false} XorZero(a: nat)
    ensures Xor(a, 0) == a
    decreases a
  {
    if a > 0 { XorZero(a / 2); }
  }

  lemma {:induction false} XorSixteenths(a: nat, b: nat)
    ensures Xor(a, b) / 16 == Xor(a / 16, b / 16)
  {
    XorHalves(a, b);
    XorHalves(a / 2, b / 2);
    XorHalves(a / 2 / 2, b / 2 / 2);
    XorHalves(a / 2 / 2 / 2, b / 2 / 2 / 2);
    Halvings(a);
    Halvings(b);
    Halvings(Xor(a, b));
  }

  lemma {:induction false} Halvings(a: nat)
    ensures a / 2 / 2 / 2 / 2 == a / 16
  {
  }

  /** A byte reaches the low byte of a word and nothing above it. */
  lemma {:induction false} XorOfAByte(a: nat, b: nat)
    requires b < 256
    ensures Xor(a, b) / 256 == a / 256
  {
    XorSixteenths(a, b);
    XorSixteenths(a / 16, b / 16);
    XorZero(a / 256);
    assert a / 16 / 16 == a / 256 && b / 16 / 16 == 0;
  }

  /** What is above both masks stays, and the rest is the mask of the rest. */
  lemma {:induction false} XorBelow(high: nat, above: nat, low: nat, b: nat, n: nat)
    requires low < Power2(n) && b < Power2(n) && above == high * Power2(n)
    ensures Xor(above + low, b) == above + Xor(low, b)
    decreases n
  {
    if n == 0 {
      XorZero(above);
    } else {
      Doubling(high, Power2(n - 1));
      XorBelow(high, high * Power2(n - 1), low / 2, b / 2, n - 1);
      OneBitLower(high * Power2(n - 1), low, b);
    }
  }

  lemma {:induction false} OneBitLower(k: nat, low: nat, b: nat)
    requires Xor(k + low / 2, b / 2) == k + Xor(low / 2, b / 2)
    ensures Xor(2 * k + low, b) == 2 * k + Xor(low, b)
  {
    XorStep(2 * k + low, k + low / 2, low % 2, b, b / 2, b % 2);
    XorStep(low, low / 2, low % 2, b, b / 2, b % 2);
  }

  lemma {:induction false} Doubling(high: nat, p: nat)
    ensures high * (2 * p) == 2 * (high * p)
  {
  }

  lemma {:induction false} XorCommutes(a: nat, b: nat)
    ensures Xor(a, b) == Xor(b, a)
    decreases a + b
  {
    if a != 0 || b != 0 { XorCommutes(a / 2, b / 2); }
  }

  /** Masking with a power of two less one is the remainder. */
  lemma {:induction false} AndLowMask(a: nat, n: nat)
    ensures And(a, Power2(n) - 1) == a % Power2(n)
    decreases n
  {
    if n == 0 {
      AndZero(a);
    } else {
      AndLowMask(a / 2, n - 1);
      var m := Power2(n - 1);
      assert (2 * m - 1) / 2 == m - 1 && (2 * m - 1) % 2 == 1;
      HalfOfRemainder(a, m);
    }
  }

  lemma {:induction false} AndDoubled(a: nat, mask: nat)
    ensures And(a, 2 * mask) == 2 * And(a / 2, mask)
  {
    assert (2 * mask) / 2 == mask && (2 * mask) % 2 == 0;
  }

  lemma {:induction false} AndTimes8(a: nat, mask: nat)
    ensures And(a, 8 * mask) == 8 * And(a / 8, mask)
  {
    var two := 2 * mask;
    var four := 2 * two;
    AndDoubled(a / 2 / 2, mask);
    AndDoubled(a / 2, two);
    AndDoubled(a, four);
    assert 8 * mask == 2 * four && a / 2 / 2 / 2 == a / 8;
  }

  lemma {:induction false} AndTimes64(a: nat, mask: nat)
    ensures And(a, 64 * mask) == 64 * And(a / 64, mask)
  {
    var eight := 8 * mask;
    AndTimes8(a / 8, mask);
    AndTimes8(a, eight);
    assert 64 * mask == 8 * eight && a / 8 / 8 == a / 64;
  }

  lemma {:induction false} AndAllOnes(a: nat, width: nat)
    requires a < Power2(width)
    ensures And(a, Power2(width) - 1) == a
    decreases width
  {
    if width == 0 {
      AndZero(a);
    } else {
      AndAllOnes(a / 2, width - 1);
      var m := Power2(width - 1);
      assert (2 * m - 1) / 2 == m - 1 && (2 * m - 1) % 2 == 1;
    }
  }

  lemma {:induction false} AndZero(a: nat)
    ensures And(a, 0) == 0
    decreases a
  {
    if a > 0 { AndZero(a / 2); }
  }

  lemma {:induction false} HalfOfRemainder(a: nat, m: nat)
    requires m > 0
    ensures a % (2 * m) == a % 2 + 2 * (a / 2 % m)
  {
    var h := a / 2;
    var q := h / m;
    assert h == m * q + h % m;
    assert a == 2 * m * q + (a % 2 + 2 * (h % m)) by {
      assert 2 * h == 2 * m * q + 2 * (h % m);
    }
    RemainderIs(a, 2 * m, q, a % 2 + 2 * (h % m));
  }

  lemma {:induction false} RemainderIs(a: nat, d: nat, q: nat, r: nat)
    requires d > 0 && r < d && a == d * q + r
    ensures a % d == r
  {
    DivisionIsUnique(d, a / d, a % d, q, r);
  }

  /** Reducing first by a multiple of `d` changes nothing. */
  lemma {:induction false} Reduced(a: nat, d: nat, m: nat, n: nat)
    requires d > 0 && n > 0 && n == d * m
    ensures a % n % d == a % d
  {
    var q, r := a / n, a % n;
    assert a == n * q + r;
    NestedRemainder(a, d, m, q, r, r / d, r % d);
  }

  lemma {:induction false} NestedRemainder(a: nat, d: nat, m: nat, q: nat, r: nat, t: nat, s: nat)
    requires d > 0 && s < d && a == d * m * q + r && r == d * t + s
    ensures a % d == s
  {
    assert d * m * q == d * (m * q);
    assert d * (m * q + t) == d * (m * q) + d * t;
    assert m * q >= 0;
    RemainderIs(a, d, m * q + t, s);
  }

  /** Numbers less than `n` apart leave different remainders. */
  lemma {:induction false} RemaindersDiffer(a: nat, b: nat, n: nat)
    requires a < b < a + n
    ensures a % n != b % n
  {
    ApartByLess(n, a / n, a % n, b / n, b % n);
  }

  lemma {:induction false} ApartByLess(n: nat, p: nat, r: nat, q: nat, s: nat)
    requires r < n && s < n && n * p + r < n * q + s < n * p + r + n
    ensures r != s
  {
    if p < q {
      Multiples(n, p, q);
    } else if q < p {
      Multiples(n, q, p);
    }
  }

  lemma {:induction false} DivisionIsUnique(d: nat, p: nat, s: nat, q: nat, r: nat)
    requires s < d && r < d && d * p + s == d * q + r
    ensures p == q && s == r
  {
    if p < q {
      Multiples(d, p, q);
    } else if q < p {
      Multiples(d, q, p);
    }
  }

  lemma {:induction false} Multiples(d: nat, p: nat, q: nat)
    requires p < q
    ensures d * q >= d * p + d
  {
    assert d * q == d * p + d * (q - p);
    assert d * (q - p) == d + d * (q - p - 1);
  }
}
