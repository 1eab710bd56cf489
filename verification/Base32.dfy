/** Base32 with the extended hex alphabet and no padding (section 7 of RFC 4648), as Go's
    base32.HexEncoding.WithPadding(NoPadding) provides it to the DNS tunnel.

    The bytes, read as one number and filled up with zero bits to a multiple of five, are
    written in base 32.  Decoding drops the fill bits, and drops the characters of a final
    group too short (1, 3 or 6 characters) to be produced by an encoder. */
module Base32 {
  import opened Bytes

  function CharOf(v: nat): char
    requires v < 32
  {
    if v < 10 then (48 + v) as char else (65 + (v - 10)) as char
  }

  predicate InAlphabet(c: char) { '0' <= c <= '9' || 'A' <= c <= 'V' }

  function DigitOf(c: char): (v: nat)
    requires InAlphabet(c)
    ensures v < 32
  {
    if c <= '9' then c as int - 48 else c as int - 65 + 10
  }

  lemma CharRoundTrip(v: nat)
    requires v < 32
    ensures InAlphabet(CharOf(v)) && DigitOf(CharOf(v)) == v
  {}

  predicate AllInAlphabet(s: string) { forall i :: 0 <= i < |s| ==> InAlphabet(s[i]) }

  function Chars(ds: seq<nat>): (s: string)
    requires IsDigits(32, ds)
    ensures |s| == |ds| && AllInAlphabet(s)
  {
    seq(|ds|, i requires 0 <= i < |ds| => CharOf(ds[i]))
  }

  function DigitsOf(s: string): (ds: seq<nat>)
    requires AllInAlphabet(s)
    ensures |ds| == |s| && IsDigits(32, ds)
  {
    seq(|s|, i requires 0 <= i < |s| => DigitOf(s[i]))
  }

  function CharCount(n: nat): nat { (8 * n + 4) / 5 }

  /** The zero bits after the last byte. */
  function Fill(n: nat): nat { 5 * CharCount(n) - 8 * n }

  function Encode(data: seq<byte>): (s: string)
    ensures |s| == CharCount(|data|) && AllInAlphabet(s)
  {
    Chars(FixedDigits(32, CharCount(|data|), GetBE(data) * Pow(2, Fill(|data|))))
  }

  /** The characters that stand for whole bytes. */
  function Usable(c: nat): nat { if c % 8 in {1, 3, 6} then c - c % 8 else c }

  /** The bits left over when c characters are read as bytes. */
  function Spare(c: nat): (p: nat) { (5 * c) % 8 }

  /** c characters as the whole bytes they hold. */
  function BytesOf(ds: seq<nat>): seq<byte> {
    PutBE(5 * |ds| / 8, Value(32, ds) / Pow(2, Spare(|ds|)))
  }

  function Decode(s: string): Option<seq<byte>> {
    if !AllInAlphabet(s) then None else Some(BytesOf(DigitsOf(s[..Usable(|s|)])))
  }

  lemma {:induction false} PowOf(b: nat, e: nat, k: nat)
    requires b == Pow(2, e)
    ensures Pow(2, e * k) == Pow(b, k)
  {
    if k > 0 {
      PowOf(b, e, k - 1);
      assert e * k == e + e * (k - 1);
      PowAdd(2, e, e * (k - 1));
    }
  }

  lemma CountFacts(n: nat)
    ensures Fill(n) <= 4 && Usable(CharCount(n)) == CharCount(n) && 5 * CharCount(n) / 8 == n
    ensures Spare(CharCount(n)) == Fill(n)
  {}

  /** The shifted number fits the character count. */
  lemma Fits(data: seq<byte>)
    ensures GetBE(data) * Pow(2, Fill(|data|)) < Pow(32, CharCount(|data|))
  {
    var n, f := |data|, Fill(|data|);
    ValueBound(256, data);
    assert Pow(2, 8) == 256 && Pow(2, 5) == 32;
    PowOf(256, 8, n);
    PowOf(32, 5, CharCount(n));
    assert 8 * n + f == 5 * CharCount(n);
    PowAdd(2, 8 * n, f);
    MulStrict(GetBE(data), Pow(256, n), Pow(2, f));
  }

  lemma MulStrict(x: nat, y: nat, z: nat)
    requires x < y && z > 0
    ensures x * z < y * z
  {
    MulMonotone(x + 1, y, z);
  }

  /** Decoding undoes encoding, for every byte string. */
  lemma DecodeEncode(data: seq<byte>)
    ensures Decode(Encode(data)) == Some(data)
  {
    var n := |data|;
    var c, p := CharCount(n), Pow(2, Fill(n));
    var v := GetBE(data) * p;
    var ds := FixedDigits(32, c, v);
    CountFacts(n);
    Fits(data);
    FixedDigitsValue(32, c, v);
    DigitsOfChars(ds);
    assert Encode(data)[..c] == Chars(ds);
    DivModUnique(GetBE(data), 0, p);
    ValueFixedDigits(256, data);
  }

  lemma DigitsOfChars(ds: seq<nat>)
    requires IsDigits(32, ds)
    ensures DigitsOf(Chars(ds)) == ds
  {
    forall i | 0 <= i < |ds| ensures DigitsOf(Chars(ds))[i] == ds[i] { CharRoundTrip(ds[i]); }
  }

  /** strings.ToUpper on ASCII. */
  function ToUpper(s: string): (r: string)
    ensures |r| == |s|
  {
    seq(|s|, i requires 0 <= i < |s| => if 'a' <= s[i] <= 'z' then (s[i] as int - 32) as char else s[i])
  }

  lemma UpperIsUpper(s: string)
    requires AllInAlphabet(s)
    ensures ToUpper(s) == s
  {}
}
