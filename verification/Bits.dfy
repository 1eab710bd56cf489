/** Go's bit operations on unsigned integers of k bits, defined bit by bit. */
module Bits {
  import opened Bytes

  function And(k: nat, a: nat, b: nat): (r: nat)
    decreases k, a
  {
    if k == 0 then 0 else
      2 * And(k - 1, a / 2, b / 2) + (if a % 2 == 1 && b % 2 == 1 then 1 else 0)
  }

  function Or(k: nat, a: nat, b: nat): (r: nat)
    ensures r < Pow(2, k)
    decreases k, a
  {
    if k == 0 then 0 else
      2 * Or(k - 1, a / 2, b / 2) + (if a % 2 == 1 || b % 2 == 1 then 1 else 0)
  }

  function Xor(k: nat, a: nat, b: nat): (r: nat)
    ensures r < Pow(2, k)
    decreases k, a
  {
    if k == 0 then 0 else
      2 * Xor(k - 1, a / 2, b / 2) + (a % 2 + b % 2) % 2
  }

  /** a << s in k bits. */
  function Shl(k: nat, a: nat, s: nat): nat { (a * Pow(2, s)) % Pow(2, k) }

  /** Bit i of a, counted from the least significant. */
  predicate Bit(a: nat, i: nat)
    decreases i, a
  {
    if i == 0 then a % 2 == 1 else Bit(a / 2, i - 1)
  }

  lemma {:induction false} XorTwice(k: nat, a: nat, b: nat)
    requires a < Pow(2, k)
    ensures Xor(k, Xor(k, a, b), b) == a
    decreases k
  {
    if k > 0 {
      XorTwice(k - 1, a / 2, b / 2);
      XorHalves(k, a, b);
      var r := Xor(k, a, b);
      assert Xor(k, r, b) == 2 * Xor(k - 1, r / 2, b / 2) + (r % 2 + b % 2) % 2;
      ParityTwice(a % 2, b % 2);
    }
  }

  /** Bit i of the xor is set when exactly one of the two has it. */
  lemma {:induction false} XorBit(k: nat, a: nat, b: nat, i: nat)
    requires i < k
    ensures Bit(Xor(k, a, b), i) <==> Bit(a, i) != Bit(b, i)
    decreases k
  {
    XorHalves(k, a, b);
    if i > 0 { XorBit(k - 1, a / 2, b / 2, i - 1); }
  }

  lemma ParityTwice(x: nat, y: nat)
    requires x < 2 && y < 2
    ensures ((x + y) % 2 + y) % 2 == x
  {}

  lemma XorHalves(k: nat, a: nat, b: nat)
    requires k > 0
    ensures Xor(k, a, b) / 2 == Xor(k - 1, a / 2, b / 2)
    ensures Xor(k, a, b) % 2 == (a % 2 + b % 2) % 2
  {}

  lemma HalfOfPow(i: nat)
    requires i > 0
    ensures Pow(2, i) % 2 == 0 && Pow(2, i) / 2 == Pow(2, i - 1)
  {}

  /** a | 1<<i sets bit i and leaves the others. */
  lemma {:induction false} OrSetsBit(k: nat, a: nat, i: nat, j: nat)
    requires i < k && j < k
    ensures Bit(Or(k, a, Pow(2, i)), j) <==> (i == j || Bit(a, j))
    decreases k
  {
    if i > 0 { HalfOfPow(i); }
    if j > 0 {
      if i > 0 { OrSetsBit(k - 1, a / 2, i - 1, j - 1); }
      else { OrZero(k - 1, a / 2, j - 1); }
    }
  }

  lemma {:induction false} OrZero(k: nat, a: nat, j: nat)
    requires j < k
    ensures Bit(Or(k, a, 0), j) <==> Bit(a, j)
    decreases k
  {
    if j > 0 { OrZero(k - 1, a / 2, j - 1); }
  }

  lemma {:induction false} AndZero(k: nat, a: nat)
    ensures And(k, a, 0) == 0
    decreases k
  {
    if k > 0 { AndZero(k - 1, a / 2); }
  }

  /** a & 1<<i is nonzero iff bit i of a is set. */
  lemma {:induction false} AndTestsBit(k: nat, a: nat, i: nat)
    requires i < k
    ensures And(k, a, Pow(2, i)) != 0 <==> Bit(a, i)
    decreases k
  {
    if i > 0 {
      HalfOfPow(i);
      AndTestsBit(k - 1, a / 2, i - 1);
    } else {
      AndZero(k - 1, a / 2);
    }
  }

  /** Masking off the low s bits. */
  lemma {:induction false} AndHighMask(k: nat, a: nat, s: nat)
    requires a < Pow(2, k) && s <= k
    ensures Pow(2, s) <= Pow(2, k)
    ensures And(k, a, Pow(2, k) - Pow(2, s)) == 0 <==> a < Pow(2, s)
    decreases k
  {
    PowMonotone(2, s, k);
    if k > 0 {
      HalfOfPow(k);
      if s > 0 {
        HalfOfPow(s);
        PowMonotone(2, s - 1, k - 1);
        AndHighMask(k - 1, a / 2, s - 1);
        assert (Pow(2, k) - Pow(2, s)) / 2 == Pow(2, k - 1) - Pow(2, s - 1);
      } else {
        AndHighMask(k - 1, a / 2, 0);
        assert (Pow(2, k) - 1) / 2 == Pow(2, k - 1) - 1;
      }
    }
  }

  /** 0xFF << s in a byte. */
  lemma ByteMask(s: nat)
    requires 1 <= s < 8
    ensures Pow(2, 8) == 256 && Shl(8, 0xFF, s) == 256 - Pow(2, s)
  {
    assert Pow(2, 1) == 2 && Pow(2, 2) == 4 && Pow(2, 3) == 8 && Pow(2, 4) == 16
        && Pow(2, 5) == 32 && Pow(2, 6) == 64 && Pow(2, 7) == 128 && Pow(2, 8) == 256;
    if s == 1 {} else if s == 2 {} else if s == 3 {} else if s == 4 {}
    else if s == 5 {} else if s == 6 {} else {}
  }

  /** Byte k of a word, least significant first. */
  function ByteOf(w: nat, k: nat): byte
    decreases k, w
  {
    if k == 0 then w % 256 else ByteOf(w / 256, k - 1)
  }

  lemma {:induction false} BitAbove(w: nat, s: nat, i: nat)
    ensures Bit(w, s + i) <==> Bit(w / Pow(2, s), i)
    decreases s
  {
    if s > 0 {
      BitAbove(w / 2, s - 1, i);
      DivDiv(w, 2, Pow(2, s - 1));
    }
  }

  lemma DivDiv(w: nat, a: nat, b: nat)
    requires a > 0 && b > 0
    ensures a * b > 0 && (w / a) / b == w / (a * b)
  {
    DivMod(w, a);
    DivMod(w / a, b);
    var q, r := (w / a) / b, (w / a) % b;
    BoundDigit(r, b, w % a, a);
    MulAssoc(q, b, a);
    assert w == q * (a * b) + (r * a + w % a);
    DivModUnique(q, r * a + w % a, a * b);
  }

  lemma {:induction false} BitOfMod(w: nat, k: nat, j: nat)
    requires j < k
    ensures Bit(w % Pow(2, k), j) <==> Bit(w, j)
    decreases j
  {
    var p := Pow(2, k - 1);
    DivMod(w, 2 * p);
    var q, r := w / (2 * p), w % (2 * p);
    assert w == 2 * (q * p) + r;
    if j > 0 {
      assert w / 2 == q * p + r / 2;
      DivModUnique(q, r / 2, p);
      BitOfMod(w / 2, k - 1, j - 1);
    }
  }

  /** Bit j of byte k of a word is bit 8k+j of the word. */
  lemma {:induction false} BitOfByte(w: nat, k: nat, j: nat)
    requires j < 8
    ensures Bit(ByteOf(w, k), j) <==> Bit(w, 8 * k + j)
    decreases k
  {
    assert Pow(2, 8) == 256;
    if k == 0 {
      BitOfMod(w, 8, j);
    } else {
      BitOfByte(w / 256, k - 1, j);
      BitAbove(w, 8, 8 * (k - 1) + j);
    }
  }
}
