/** Bytes, fixed-width integers and positional notation.

    Go's `byte` and unsigned integers are bounded ints here, so wrap-around is always
    written out.  Positional notation is defined once, for any base: base 256 gives the
    big-endian codecs of `encoding/binary` and of `math/big`, base 58 the identity text,
    base 32 the DNS tunnel text and base 10 the decimal labels. */
module Bytes {
  type byte = x: int | 0 <= x < 0x100
  type uint16 = x: int | 0 <= x < 0x1_0000
  type uint32 = x: int | 0 <= x < 0x1_0000_0000
  type uint64 = x: int | 0 <= x < 0x1_0000_0000_0000_0000
  type int64 = x: int | -0x8000_0000_0000_0000 <= x < 0x8000_0000_0000_0000

  type Bytes8 = s: seq<byte> | |s| == 8 witness seq(8, _ => 0)
  type Bytes16 = s: seq<byte> | |s| == 16 witness seq(16, _ => 0)
  type Bytes20 = s: seq<byte> | |s| == 20 witness seq(20, _ => 0)
  type Bytes24 = s: seq<byte> | |s| == 24 witness seq(24, _ => 0)
  type Bytes32 = s: seq<byte> | |s| == 32 witness seq(32, _ => 0)
  type Bytes64 = s: seq<byte> | |s| == 64 witness seq(64, _ => 0)

  /** A hash function, left uninterpreted: every result about it holds for all of them. */
  type HashFn = seq<byte> -> Bytes32

  datatype Option<+T> = None | Some(value: T)

  function Zeros(n: nat): (s: seq<byte>)
    ensures |s| == n
    ensures forall i :: 0 <= i < n ==> s[i] == 0
  {
    seq(n, _ => 0)
  }

  lemma Assoc<T>(a: seq<T>, b: seq<T>, c: seq<T>)
    ensures (a + b) + c == a + (b + c)
  {}

  function Pow(b: nat, e: nat): (p: nat)
    ensures b > 0 ==> p > 0
  {
    if e == 0 then 1 else b * Pow(b, e - 1)
  }

  lemma {:induction false} PowAdd(b: nat, m: nat, n: nat)
    ensures Pow(b, m + n) == Pow(b, m) * Pow(b, n)
  {
    if m > 0 {
      PowAdd(b, m - 1, n);
      MulAssoc(b, Pow(b, m - 1), Pow(b, n));
    }
  }

  lemma {:induction false} PowMonotone(b: nat, m: nat, n: nat)
    requires b > 0 && m <= n
    ensures Pow(b, m) <= Pow(b, n)
    decreases n - m
  {
    if m < n {
      PowMonotone(b, m, n - 1);
      assert Pow(b, n - 1) <= b * Pow(b, n - 1);
    }
  }

  lemma Pow256Values()
    ensures Pow(256, 2) == 0x1_0000
    ensures Pow(256, 4) == 0x1_0000_0000
    ensures Pow(256, 8) == 0x1_0000_0000_0000_0000
  {
    PowAdd(256, 2, 2);
    PowAdd(256, 4, 4);
  }

  /** All digits are digits of base b. */
  predicate IsDigits(b: nat, s: seq<nat>) {
    forall i :: 0 <= i < |s| ==> s[i] < b
  }

  /** The number a digit string denotes, most significant digit first. */
  function Value(b: nat, s: seq<nat>): nat {
    if s == [] then 0 else Value(b, s[..|s| - 1]) * b + s[|s| - 1]
  }

  /** The shortest digit string of a number; zero has the empty one. */
  function Digits(b: nat, n: nat): (s: seq<nat>)
    requires b >= 2
    ensures IsDigits(b, s)
    ensures s == [] <==> n == 0
    ensures s != [] ==> s[0] != 0
    decreases n
  {
    if n == 0 then [] else
      DivShrinks(n, b);
      Digits(b, n / b) + [n % b]
  }

  lemma {:induction false} ValueOfDigits(b: nat, n: nat)
    requires b >= 2
    ensures Value(b, Digits(b, n)) == n
    decreases n
  {
    if n > 0 {
      DivShrinks(n, b);
      ValueOfDigits(b, n / b);
      assert Digits(b, n)[..|Digits(b, n)| - 1] == Digits(b, n / b);
      DivMod(n, b);
    }
  }

  // ----- multiplication and division facts -----

  lemma MulMonotone(x: nat, y: nat, z: nat)
    ensures x <= y ==> x * z <= y * z
  {}

  lemma MulAtLeast(d: int, b: nat)
    ensures d >= 1 ==> d * b >= b
    ensures d <= -1 ==> d * b <= -(b as int)
  {
    if d >= 1 { assert (d - 1) * b >= 0; }
    if d <= -1 { assert (-1 - d) * b >= 0; }
  }

  lemma MulAssoc(x: nat, y: nat, z: nat)
    ensures x * (y * z) == (x * y) * z
  {}

  lemma ShiftDigit(v: nat, p: nat, w: nat, b: nat)
    ensures (v * p + w) * b == v * (b * p) + w * b
  {
    MulAssoc(v, p, b);
  }

  lemma BoundDigit(v: nat, p: nat, x: nat, b: nat)
    requires v < p && x < b
    ensures v * b + x < b * p
  {
    MulMonotone(v + 1, p, b);
  }

  lemma DivMod(n: nat, b: nat)
    requires b > 0
    ensures n == (n / b) * b + n % b
    ensures 0 <= n % b < b
  {}

  lemma DivShrinks(n: nat, b: nat)
    requires n > 0 && b >= 2
    ensures 0 <= n / b < n
  {
    DivMod(n, b);
    MulMonotone(2, b, n / b);
  }

  lemma DivModUnique(q: nat, r: nat, b: nat)
    requires r < b
    ensures (q * b + r) / b == q && (q * b + r) % b == r
  {
    var n := q * b + r;
    DivMod(n, b);
    var d := n / b - q;
    assert d * b == r - n % b;
    MulAtLeast(d, b);
  }

  /** Value of a concatenation: the left part is shifted by the length of the right one. */
  lemma {:induction false} ValueConcat(b: nat, s: seq<nat>, t: seq<nat>)
    ensures Value(b, s + t) == Value(b, s) * Pow(b, |t|) + Value(b, t)
  {
    if t == [] {
      assert s + t == s;
    } else {
      var t' := t[..|t| - 1];
      var x := t[|t| - 1];
      assert (s + t)[..|s + t| - 1] == s + t';
      ValueConcat(b, s, t');
      var v, p := Value(b, s), Pow(b, |t'|);
      ShiftDigit(v, p, Value(b, t'), b);
      assert t == t' + [x] && Value(b, t) == Value(b, t') * b + x;
      assert Value(b, s + t) == Value(b, s + t') * b + x;
    }
  }

  lemma {:induction false} ValueBound(b: nat, s: seq<nat>)
    requires b > 0 && IsDigits(b, s)
    ensures Value(b, s) < Pow(b, |s|)
  {
    if s != [] {
      var s' := s[..|s| - 1];
      ValueBound(b, s');
      BoundDigit(Value(b, s'), Pow(b, |s'|), s[|s| - 1], b);
    }
  }

  /** Leading zeros do not change the value. */
  lemma {:induction false} ValueLeadingZeros(b: nat, z: seq<nat>, s: seq<nat>)
    requires forall i :: 0 <= i < |z| ==> z[i] == 0
    ensures Value(b, z + s) == Value(b, s)
  {
    ValueZeros(b, z);
    ValueConcat(b, z, s);
  }

  lemma {:induction false} ValueZeros(b: nat, z: seq<nat>)
    requires forall i :: 0 <= i < |z| ==> z[i] == 0
    ensures Value(b, z) == 0
  {
    if z != [] { ValueZeros(b, z[..|z| - 1]); }
  }

  /** A non-empty digit string without a leading zero denotes at least b^(length-1). */
  lemma {:induction false} ValueLowerBound(b: nat, s: seq<nat>)
    requires b > 0 && IsDigits(b, s) && s != [] && s[0] != 0
    ensures Pow(b, |s| - 1) <= Value(b, s)
  {
    assert s == s[..1] + s[1..];
    ValueConcat(b, s[..1], s[1..]);
    assert s[..1][..0] == [];
    assert Value(b, s[..1]) == s[0];
    assert Pow(b, |s| - 1) <= s[0] * Pow(b, |s| - 1);
  }

  /** The number of base-b digits is pinned by two powers. */
  lemma DigitCount(b: nat, n: nat, lo: nat, hi: nat)
    requires b >= 2 && n < Pow(b, hi)
    requires lo > 0 ==> Pow(b, lo - 1) <= n
    ensures lo <= |Digits(b, n)| <= hi
  {
    var ds := Digits(b, n);
    ValueOfDigits(b, n);
    ValueBound(b, ds);
    if ds != [] { ValueLowerBound(b, ds); }
    if |ds| < lo { PowMonotone(b, |ds|, lo - 1); assert false; }
    if |ds| > hi { PowMonotone(b, hi, |ds| - 1); assert false; }
  }

  /** Digits inverts Value on digit strings without a leading zero. */
  lemma {:induction false} DigitsOfValue(b: nat, s: seq<nat>)
    requires b >= 2 && IsDigits(b, s)
    requires s != [] ==> s[0] != 0
    ensures Digits(b, Value(b, s)) == s
  {
    if s != [] {
      var s' := s[..|s| - 1];
      DigitsOfValue(b, s');
      DivModUnique(Value(b, s'), s[|s| - 1], b);
      ValueLowerBound(b, s);
      assert s == s' + [s[|s| - 1]];
    }
  }

  /** The k low digits of n, most significant first: Go's PutUint16/32/64 for base 256. */
  function FixedDigits(b: nat, k: nat, n: nat): (s: seq<nat>)
    requires b > 0
    ensures |s| == k && IsDigits(b, s)
    decreases k, n
  {
    if k == 0 then [] else
      DivMod(n, b);
      FixedDigits(b, k - 1, n / b) + [n % b]
  }

  lemma {:induction false} FixedDigitsValue(b: nat, k: nat, n: nat)
    requires b > 0 && n < Pow(b, k)
    ensures Value(b, FixedDigits(b, k, n)) == n
    decreases k
  {
    if k > 0 {
      DivMod(n, b);
      MulMonotone(Pow(b, k - 1), n / b, b);
      FixedDigitsValue(b, k - 1, n / b);
      assert FixedDigits(b, k, n)[..k - 1] == FixedDigits(b, k - 1, n / b);
    }
  }

  lemma {:induction false} ValueFixedDigits(b: nat, s: seq<nat>)
    requires b > 0 && IsDigits(b, s)
    ensures FixedDigits(b, |s|, Value(b, s)) == s
  {
    if s != [] {
      var s' := s[..|s| - 1];
      ValueFixedDigits(b, s');
      DivModUnique(Value(b, s'), s[|s| - 1], b);
      assert s == s' + [s[|s| - 1]];
    }
  }

  // ----- the big-endian codecs of encoding/binary -----

  function PutBE(k: nat, n: nat): (s: seq<byte>)
    ensures |s| == k
  {
    FixedDigits(256, k, n)
  }

  function GetBE(s: seq<byte>): nat {
    Value(256, s)
  }

  function Put32(n: uint32): (s: seq<byte>) ensures |s| == 4 { PutBE(4, n) }
  function Put64(n: uint64): (s: seq<byte>) ensures |s| == 8 { PutBE(8, n) }

  function Get16(s: seq<byte>): (n: uint16)
    requires |s| == 2
  { ValueBound(256, s); Pow256Values(); GetBE(s) }

  function Get32(s: seq<byte>): (n: uint32)
    requires |s| == 4
  { ValueBound(256, s); Pow256Values(); GetBE(s) }

  function Get64(s: seq<byte>): (n: uint64)
    requires |s| == 8
  { ValueBound(256, s); Pow256Values(); GetBE(s) }

  lemma GetPut16(n: uint16)
    ensures Get16(PutBE(2, n)) == n
  { Pow256Values(); FixedDigitsValue(256, 2, n); }

  lemma GetPut32(n: uint32)
    ensures Get32(Put32(n)) == n
  { Pow256Values(); FixedDigitsValue(256, 4, n); }

  lemma PutGet32(s: seq<byte>)
    requires |s| == 4
    ensures Put32(Get32(s)) == s
  { ValueFixedDigits(256, s); }

  lemma GetPut64(n: uint64)
    ensures Get64(Put64(n)) == n
  { Pow256Values(); FixedDigitsValue(256, 8, n); }

  lemma PutGet64(s: seq<byte>)
    requires |s| == 8
    ensures Put64(Get64(s)) == s
  { ValueFixedDigits(256, s); }

  /** Go's uint64(v) and int64(v) between the signed and unsigned 64-bit types. */
  function ToU64(v: int64): uint64 {
    if v < 0 then v + 0x1_0000_0000_0000_0000 else v
  }

  function ToI64(v: uint64): (r: int64)
    ensures ToU64(r) == v
  {
    if v >= 0x8000_0000_0000_0000 then v - 0x1_0000_0000_0000_0000 else v
  }
}
