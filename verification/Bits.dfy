/** Bitwise operators on unsigned integers, bit by bit, and what the masks of the decoder come to. */
module Bits {
  function Or(a: nat, b: nat): nat
    decreases a + b
  {
    if a + b == 0 then 0 else 2 * Or(a / 2, b / 2) + if a % 2 + b % 2 > 0 then 1 else 0
  }

  function And(a: nat, b: nat): nat
    decreases a + b
  {
    if a + b == 0 then 0 else 2 * And(a / 2, b / 2) + a % 2 * (b % 2)
  }

  function Pow2(k: nat): (p: nat)
    ensures p > 0
  {
    if k == 0 then 1 else 2 * Pow2(k - 1)
  }

  lemma {:induction false} AndZero(a: nat)
    ensures And(a, 0) == 0
  {
    if a > 0 {
      AndZero(a / 2);
    }
  }

  lemma {:induction false} OrZero(a: nat)
    ensures Or(a, 0) == a == Or(0, a)
  {
    if a > 0 {
      OrZero(a / 2);
    }
  }

  /** A mask of k ones takes the remainder. */
  lemma {:induction false} AndMask(a: nat, k: nat)
    ensures And(a, Pow2(k) - 1) == a % Pow2(k)
  {
    hide Or, And;
    if k == 0 {
      AndZero(a);
    } else {
      AndMask(a / 2, k - 1);
      HalfMask(a, Pow2(k - 1));
    }
  }

  lemma HalfMask(a: nat, p: nat)
    requires p > 0 && And(a / 2, p - 1) == a / 2 % p
    ensures And(a, 2 * p - 1) == a % (2 * p)
  {
    hide Or, And;
    OrStep(a, 2 * p - 1);
    HalfRemainder(a, p);
  }

  lemma HalfRemainder(a: nat, p: nat)
    requires p > 0
    ensures a % (2 * p) == 2 * (a / 2 % p) + a % 2
  {
    var q, r := a / 2 / p, a / 2 % p;
    assert a / 2 == q * p + r;
    assert a == q * (2 * p) + (2 * r + a % 2) by {
      assert q * (2 * p) == 2 * (q * p);
    }
    Remainder(a, 2 * p, q, 2 * r + a % 2);
  }

  lemma Remainder(a: nat, d: nat, q: nat, r: nat)
    requires a == q * d + r && r < d
    ensures a % d == r
  {
    var m: int := a / d - q;
    assert a == (q + m) * d + a % d;
    assert (q + m) * d == q * d + m * d;
    assert m * d == r - a % d;
    assert m > 0 ==> m * d >= d;
    assert m < 0 ==> m * d + d <= 0;
  }

  /** Both operators work on the high and the low bits apart. */
  lemma {:induction false} Blocks(a: nat, b: nat, c: nat, d: nat, k: nat)
    requires b < Pow2(k) && d < Pow2(k)
    ensures Or(a * Pow2(k) + b, c * Pow2(k) + d) == Or(a, c) * Pow2(k) + Or(b, d)
    ensures And(a * Pow2(k) + b, c * Pow2(k) + d) == And(a, c) * Pow2(k) + And(b, d)
  {
    hide Or, And;
    if k == 0 {
      OrZero(0);
      AndZero(0);
    } else {
      var p := Pow2(k - 1);
      Blocks(a, b / 2, c, d / 2, k - 1);
      Doubled(a, b, p);
      Doubled(c, d, p);
      Halves(a * p + b / 2, b % 2, c * p + d / 2, d % 2);
      OrStep(b, d);
      Grouped(Or(a, c), Or(b / 2, d / 2), p);
      Grouped(And(a, c), And(b / 2, d / 2), p);
    }
  }

  lemma Halves(x: nat, b: nat, y: nat, d: nat)
    requires b < 2 && d < 2
    ensures Or(2 * x + b, 2 * y + d) == 2 * Or(x, y) + if b + d > 0 then 1 else 0
    ensures And(2 * x + b, 2 * y + d) == 2 * And(x, y) + b * d
  {
    hide Or, And;
    OrStep(2 * x + b, 2 * y + d);
  }

  lemma Grouped(a: nat, b: nat, p: nat)
    ensures 2 * (a * p + b) == a * (2 * p) + 2 * b
  {
    assert a * (2 * p) == 2 * (a * p);
  }

  lemma Powers()
    ensures Pow2(1) == 2 && Pow2(3) == 8 && Pow2(4) == 16 && Pow2(5) == 32 && Pow2(6) == 64 && Pow2(7) == 128
    ensures Pow2(8) == 256 && Pow2(10) == 0x400
  {
    assert Pow2(5) == 32;
  }

  lemma Doubled(a: nat, b: nat, p: nat)
    ensures a * (2 * p) + b == 2 * (a * p + b / 2) + b % 2
  {
    assert a * (2 * p) == 2 * (a * p);
  }

  lemma OrStep(a: nat, b: nat)
    ensures Or(a, b) == 2 * Or(a / 2, b / 2) + if a % 2 + b % 2 > 0 then 1 else 0
    ensures And(a, b) == 2 * And(a / 2, b / 2) + a % 2 * (b % 2)
  {
  }

  /** 0x80 set and 0x40 cleared among the low eight bits: the last six bits behind the mark 10. */
  lemma Continuation(x: nat)
    ensures And(Or(x, 0x80), 0xBF) == 0x80 + x % 64
  {
    hide Or, And, Pow2;
    var h, l := x / 64, x % 64;
    Powers();
    Blocks(h, l, 2, 0, 6);
    OrZero(l);
    Blocks(Or(h, 2), l, 2, 63, 6);
    AndMask(l, 6);
    SecondBit(h);
  }

  lemma SecondBit(h: nat)
    ensures And(Or(h, 2), 2) == 2
  {
    hide Or, And, Pow2;
    Powers();
    Blocks(h / 2, h % 2, 1, 0, 1);
    OrZero(h % 2);
    Blocks(Or(h / 2, 1), h % 2, 1, 0, 1);
    AndZero(h % 2);
    OrStep(h / 2, 1);
    AndMask(Or(h / 2, 1), 1);
  }

  /** The mark of a first byte is put in front of its low k bits. */
  lemma Marked(x: nat, mark: nat, k: nat)
    requires x < Pow2(k) && mark * Pow2(k) + x < 256
    ensures And(Or(x, mark * Pow2(k)), 0xFF) == mark * Pow2(k) + x
  {
    hide Or, And, Pow2;
    OrMark(x, mark, k);
    Powers();
    AndMask(mark * Pow2(k) + x, 8);
  }

  lemma OrMark(x: nat, mark: nat, k: nat)
    requires x < Pow2(k)
    ensures Or(x, mark * Pow2(k)) == mark * Pow2(k) + x
  {
    hide Or, And, Pow2;
    Blocks(0, x, mark, 0, k);
    OrZero(x);
    OrZero(mark);
  }

  /** Two groups of ten bits joined. */
  lemma TenAndTen(x: nat, y: nat)
    ensures Or(And(x, 0x3FF) * 0x400, And(y, 0x3FF)) == x % 0x400 * 0x400 + y % 0x400
  {
    hide Or, And, Pow2;
    Powers();
    AndMask(x, 10);
    AndMask(y, 10);
    Blocks(x % 0x400, 0, 0, y % 0x400, 10);
    OrZero(x % 0x400);
    OrZero(y % 0x400);
  }
}
