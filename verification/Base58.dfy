/** The base58 text of keys (internal/identity/base58.go) and user IDs (keys.go).

    Go strings are byte strings; here a string is a sequence of characters, one per
    byte.  `big.Int` is `nat`. */
module Base58 {
  import opened Bytes

  /** The alphabet is six runs of consecutive characters, skipping 0, I, O and l. */
  function CharAt(i: nat): (c: char)
    requires i < 58
  {
    if i < 9 then (49 + i) as char
    else if i < 17 then (65 + (i - 9)) as char
    else if i < 22 then (74 + (i - 17)) as char
    else if i < 33 then (80 + (i - 22)) as char
    else if i < 44 then (97 + (i - 33)) as char
    else (109 + (i - 44)) as char
  }

  predicate IsKeyChar(c: char) {
    exists i :: 0 <= i < 58 && CharAt(i) == c
  }

  /** The alphabet, spelled out run by run. */
  lemma AlphabetText(i: nat)
    requires i < 58
    ensures CharAt(i) == ("123456789" + "ABCDEFGH" + "JKLMN" + "PQRSTUVWXYZ" + "abcdefghijk" + "mnopqrstuvwxyz")[i]
  {
    if i < 9 { assert CharAt(i) == "123456789"[i]; }
    else if i < 17 { assert CharAt(i) == "ABCDEFGH"[i - 9]; }
    else if i < 22 { assert CharAt(i) == "JKLMN"[i - 17]; }
    else if i < 33 { assert CharAt(i) == "PQRSTUVWXYZ"[i - 22]; }
    else if i < 44 { assert CharAt(i) == "abcdefghijk"[i - 33]; }
    else { assert CharAt(i) == "mnopqrstuvwxyz"[i - 44]; }
  }

  lemma CharAtOrdered(i: nat, j: nat)
    requires i < j < 58
    ensures CharAt(i) < CharAt(j)
  {}

  predicate InAlphabet(s: string) {
    forall i :: 0 <= i < |s| ==> IsKeyChar(s[i])
  }

  /** The text of a base-58 digit string. */
  function Chars(ds: seq<nat>): (s: string)
    requires IsDigits(58, ds)
    ensures |s| == |ds|
    ensures InAlphabet(s)
  {
    seq(|ds|, i requires 0 <= i < |ds| => CharAt(ds[i]))
  }

  /** The digit a character stands for. */
  ghost function Index(c: char): (i: nat)
    requires IsKeyChar(c)
    ensures i < 58 && CharAt(i) == c
  {
    var i :| 0 <= i < 58 && CharAt(i) == c;
    i
  }

  lemma IndexUnique(i: nat)
    requires i < 58
    ensures IsKeyChar(CharAt(i)) && Index(CharAt(i)) == i
  {
    var j := Index(CharAt(i));
    if i < j { CharAtOrdered(i, j); } else if j < i { CharAtOrdered(j, i); }
  }

  ghost function Indices(s: string): (ds: seq<nat>)
    requires InAlphabet(s)
    ensures |ds| == |s| && IsDigits(58, ds)
  {
    seq(|s|, i requires 0 <= i < |s| => Index(s[i]))
  }

  lemma CharsOfIndices(s: string)
    requires InAlphabet(s)
    ensures Chars(Indices(s)) == s
  {
    assert forall i :: 0 <= i < |s| ==> Chars(Indices(s))[i] == s[i];
  }

  lemma IndicesOfChars(ds: seq<nat>)
    requires IsDigits(58, ds)
    ensures Indices(Chars(ds)) == ds
  {
    forall i | 0 <= i < |ds| ensures Indices(Chars(ds))[i] == ds[i] { IndexUnique(ds[i]); }
  }

  /** How many leading elements of s equal x. */
  function Leading<T(==)>(x: T, s: seq<T>): (n: nat)
    ensures n <= |s|
    ensures forall i :: 0 <= i < n ==> s[i] == x
    ensures n < |s| ==> s[n] != x
  {
    if s == [] || s[0] != x then 0 else
      var n := 1 + Leading(x, s[1..]);
      assert forall i :: 1 <= i < n ==> s[i] == s[1..][i - 1];
      n
  }

  lemma LeadingUnique<T>(x: T, s: seq<T>, n: nat)
    requires n <= |s|
    requires forall i :: 0 <= i < n ==> s[i] == x
    requires n < |s| ==> s[n] != x
    ensures Leading(x, s) == n
  {}

  /** Removing the leading zeros of a digit string leaves the shortest digit string of its value. */
  lemma ShortestDigits(b: nat, s: seq<nat>)
    requires b >= 2 && IsDigits(b, s)
    ensures Digits(b, Value(b, s)) == s[Leading(0, s)..]
  {
    var n := Leading(0, s);
    assert s == s[..n] + s[n..];
    ValueLeadingZeros(b, s[..n], s[n..]);
    DigitsOfValue(b, s[n..]);
  }

  /** What ToBase58 computes. */
  function Encode(data: seq<byte>): string {
    Chars(Zeros(Leading(0, data)) + Digits(58, GetBE(data)))
  }

  /** What FromBase58 computes; None is the "invalid base58 character" error. */
  ghost function Decode(s: string): Option<seq<byte>> {
    if !InAlphabet(s) then None
    else Some(Zeros(Leading('1', s)) + Digits(256, Value(58, Indices(s))))
  }

  /** The digits and the leading ones of an encoded text. */
  lemma EncodedShape(data: seq<byte>)
    ensures Indices(Encode(data)) == Zeros(Leading(0, data)) + Digits(58, GetBE(data))
    ensures Leading('1', Encode(data)) == Leading(0, data)
  {
    var n := Leading(0, data);
    var ds: seq<nat> := Zeros(n) + Digits(58, GetBE(data));
    var s := Encode(data);
    IndicesOfChars(ds);
    if n < |s| {
      IndexUnique(ds[n]);
      IndexUnique(0);
    }
    LeadingUnique('1', s, n);
  }

  /** Decoding undoes encoding, for every byte string. */
  lemma DecodeEncode(data: seq<byte>)
    ensures Decode(Encode(data)) == Some(data)
  {
    var n := Leading(0, data);
    var value := GetBE(data);
    EncodedShape(data);
    EncodedValue(data);
    ShortestDigits(256, data);
    LeadingPart(data);
  }

  lemma EncodedValue(data: seq<byte>)
    ensures Value(58, Indices(Encode(data))) == GetBE(data)
  {
    var (n, value) := (Leading(0, data), GetBE(data));
    EncodedShape(data);
    ValueLeadingZeros(58, Zeros(n), Digits(58, value));
    ValueOfDigits(58, value);
  }

  lemma LeadingPart(data: seq<byte>)
    ensures data == Zeros(Leading(0, data)) + data[Leading(0, data)..]
  {}

  /** Encoding undoes decoding, for every text over the alphabet. */
  lemma EncodeDecode(s: string)
    requires InAlphabet(s)
    ensures Decode(s).Some? && Encode(Decode(s).value) == s
  {
    var ds := Indices(s);
    var n := Leading('1', s);
    var value := Value(58, ds);
    var data: seq<byte> := Zeros(n) + Digits(256, value);
    LeadingUnique(0, data, n);
    ValueLeadingZeros(256, Zeros(n), Digits(256, value));
    ValueOfDigits(256, value);
    IndexUnique(0);
    LeadingUnique(0, ds, n);
    ShortestDigits(58, ds);
    assert ds == Zeros(n) + ds[n..];
    CharsOfIndices(s);
  }

  // ----- the loops of base58.go -----

  method ToBase58(data: seq<byte>) returns (s: string)
    ensures s == Encode(data)
  {
    if |data| == 0 { return ""; }
    var leadingZeros := 0;
    while leadingZeros < |data| && data[leadingZeros] == 0
      invariant 0 <= leadingZeros <= |data|
      invariant forall i :: 0 <= i < leadingZeros ==> data[i] == 0
    {
      leadingZeros := leadingZeros + 1;
    }
    LeadingUnique(0, data, leadingZeros);
    var result := LowDigitsFirst(GetBE(data));
    result := AppendOnes(result, leadingZeros);
    s := Reverse(result);
    assert s == Encode(data);
  }

  /** The DivMod loop: the digits of x, lowest first. */
  method LowDigitsFirst(x: nat) returns (result: string)
    ensures |result| == |Digits(58, x)|
    ensures forall i :: 0 <= i < |result| ==> result[i] == CharAt(Digits(58, x)[|result| - 1 - i])
  {
    ghost var digits := Digits(58, x);
    var rest := x;
    result := [];
    assert digits[..|digits|] == digits;
    while rest > 0
      invariant |result| <= |digits| && Digits(58, rest) == digits[..|digits| - |result|]
      invariant forall i :: 0 <= i < |result| ==> result[i] == CharAt(digits[|digits| - 1 - i])
      decreases rest
    {
      DivShrinks(rest, 58);
      var mod := rest % 58;
      assert Digits(58, rest) == Digits(58, rest / 58) + [mod];
      rest := rest / 58;
      result := result + [CharAt(mod)];
    }
  }

  method AppendOnes(r: string, n: nat) returns (result: string)
    ensures |result| == |r| + n && result[..|r|] == r
    ensures forall k :: |r| <= k < |result| ==> result[k] == '1'
  {
    result := r;
    for i := 0 to n
      invariant |result| == |r| + i && result[..|r|] == r
      invariant forall k :: |r| <= k < |result| ==> result[k] == '1'
    {
      result := result + [CharAt(0)];
    }
  }

  /** The in-place reversal at the end of ToBase58. */
  method Reverse(r: string) returns (result: string)
    ensures |result| == |r|
    ensures forall k :: 0 <= k < |r| ==> result[k] == r[|r| - 1 - k]
  {
    result := r;
    var i, j := 0, |r| - 1;
    while i < j
      invariant |result| == |r| && 0 <= i && j == |r| - 1 - i && i <= j + 2
      invariant forall k :: 0 <= k < i || j < k < |r| ==> result[k] == r[|r| - 1 - k]
      invariant forall k :: i <= k <= j ==> result[k] == r[k]
    {
      result := result[i := result[j]][j := result[i]];
      i, j := i + 1, j - 1;
    }
  }

  method FromBase58(s: string) returns (r: Option<seq<byte>>)
    ensures r == Decode(s)
    ensures r.None? <==> exists k :: 0 <= k < |s| && !IsKeyChar(s[k])
  {
    if |s| == 0 {
      assert Indices(s) == [];
      assert Decode(s).value == [];
      return Some([]);
    }
    var x: nat := 0;
    for k := 0 to |s|
      invariant InAlphabet(s[..k])
      invariant x == Value(58, Indices(s[..k]))
    {
      var idx := -1;
      for i := 0 to 58
        invariant idx == -1
        invariant forall j :: 0 <= j < i ==> CharAt(j) != s[k]
      {
        if CharAt(i) == s[k] {
          idx := i;
          IndexUnique(i);
          break;
        }
      }
      if idx < 0 {
        assert !IsKeyChar(s[k]);
        return None;
      }
      var t := s[..k + 1];
      assert Indices(t)[..k] == Indices(s[..k]);
      x := x * 58;
      x := x + idx;
    }
    assert s[..|s|] == s;
    var leadingOnes := 0;
    while leadingOnes < |s| && s[leadingOnes] == CharAt(0)
      invariant 0 <= leadingOnes <= |s|
      invariant forall i :: 0 <= i < leadingOnes ==> s[i] == '1'
    {
      leadingOnes := leadingOnes + 1;
    }
    LeadingUnique('1', s, leadingOnes);
    var decoded: seq<byte> := Digits(256, x);
    r := Some(Zeros(leadingOnes) + decoded);
  }

  // ----- lengths and user IDs -----

  /** 58^11 lies between 2^64 and 2^65. */
  lemma PowersMeet()
    ensures Pow(256, 8) == 0x1_0000_0000_0000_0000
    ensures Pow(256, 8) <= Pow(58, 11) <= 2 * Pow(256, 8)
  {
    Pow256Values();
    assert Pow(58, 3) == 195112 && Pow(58, 4) == 11316496;
    PowAdd(58, 4, 4);
    PowAdd(58, 8, 3);
    assert Pow(58, 8) == 128063081718016;
  }

  /** Squaring twice: 256^32 <= 58^44 <= 16 * 256^32. */
  lemma KeySpace()
    ensures Pow(256, 32) <= Pow(58, 44) <= 16 * Pow(256, 32)
  {
    var p, q := Pow(256, 8), Pow(58, 11);
    PowersMeet();
    PowAdd(256, 8, 8);
    PowAdd(58, 11, 11);
    Squares(p, q, 2);
    PowAdd(256, 16, 16);
    PowAdd(58, 22, 22);
    Squares(p * p, q * q, 4);
  }

  lemma Squares(x: nat, y: nat, m: nat)
    requires x <= y <= m * x
    ensures x * x <= y * y <= (m * m) * (x * x)
  {
    MulBoth(x, y, x, y);
    MulBoth(y, m * x, y, m * x);
    MulAssoc(m * x, m, x);
    MulAssoc(m, x, m);
    MulAssoc(m, m, x);
    MulAssoc(m * m, x, x);
  }

  /** 256^(32-z) fits in 44-z base-58 digits, for every z. */
  lemma {:induction false} KeyFits(z: nat)
    requires z <= 32
    ensures Pow(256, 32 - z) <= Pow(58, 44 - z)
  {
    if z == 0 {
      KeySpace();
    } else {
      KeyFits(z - 1);
      PowStep(256, 32 - z);
      PowStep(58, 44 - z);
      CancelBases(Pow(256, 32 - z), Pow(58, 44 - z));
    }
  }

  lemma PowStep(b: nat, e: nat)
    ensures Pow(b, e + 1) == b * Pow(b, e)
  {}

  lemma CancelBases(x: nat, y: nat)
    requires 256 * x <= 58 * y
    ensures x <= y
  {}

  lemma MulBoth(x: nat, y: nat, u: nat, v: nat)
    requires x <= y && u <= v
    ensures x * u <= y * v
  {
    MulMonotone(x, y, u);
    MulMonotone(u, v, y);
  }

  lemma {:induction false} PowBases(b: nat, c: nat, k: nat)
    requires 0 < b <= c
    ensures Pow(b, k) <= Pow(c, k)
  {
    if k > 0 {
      PowBases(b, c, k - 1);
      MulBoth(b, c, Pow(b, k - 1), Pow(c, k - 1));
    }
  }

  /** The text of a 32-byte key has 32 to 44 characters, whatever its leading zeros. */
  lemma KeyTextLength(pub: Bytes32)
    ensures 32 <= |Encode(pub)| <= 44
  {
    var z := Leading(0, pub);
    KeyValue(pub);
    KeyFits(z);
    if z < 32 { PowBases(58, 256, 31 - z); }
    DigitCount(58, GetBE(pub), 32 - z, 44 - z);
  }

  /** The number a key denotes, by its leading zeros. */
  lemma KeyValue(pub: Bytes32)
    ensures var z := Leading(0, pub);
      GetBE(pub) < Pow(256, 32 - z) && (z < 32 ==> Pow(256, 31 - z) <= GetBE(pub))
  {
    var z := Leading(0, pub);
    var rest := pub[z..];
    assert pub == pub[..z] + rest;
    ValueLeadingZeros(256, pub[..z], rest);
    ValueBound(256, rest);
    if z < 32 { ValueLowerBound(256, rest); }
  }

  /** Both ends of the range are reached: by the all-zero and the all-255 key. */
  lemma KeyTextLengthTight()
    ensures |Encode(Zeros(32))| == 32
    ensures |Encode(seq(32, _ => 255))| == 44
  {
    ValueZeros(256, Zeros(32));
    LeadingUnique(0, Zeros(32), 32);
    TopKeyLength(seq(32, _ => 255));
  }

  lemma TopKeyLength(top: Bytes32)
    requires top == seq(32, _ => 255)
    ensures |Encode(top)| == 44
  {
    LeadingUnique(0, top, 0);
    AllOnesValue(32);
    assert GetBE(top) == Pow(256, 32) - 1;
    TopKeyValue();
    DigitCount(58, GetBE(top), 44, 44);
  }

  lemma TopKeyValue()
    ensures Pow(58, 43) <= Pow(256, 32) - 1 < Pow(58, 44)
  {
    KeySpace();
    Doubles(Pow(58, 43), Pow(58, 44), Pow(256, 32));
  }

  lemma Doubles(x: nat, y: nat, z: nat)
    requires y == 58 * x && z <= y <= 16 * z && x > 0
    ensures x <= z - 1 < y
  {}

  lemma {:induction false} AllOnesValue(k: nat)
    ensures Value(256, seq(k, _ => 255)) == Pow(256, k) - 1
  {
    var s: seq<nat> := seq(k, _ => 255);
    if k > 0 {
      AllOnesValue(k - 1);
      assert s[..k - 1] == seq(k - 1, _ => 255);
    }
  }

  /** UserID's padding loop never runs: the ID is the first 20 characters of the key text. */
  method UserID(pub: Bytes32) returns (id: string)
    ensures |Encode(pub)| >= 20 && id == Encode(pub)[..20]
    ensures |id| == 20 && InAlphabet(id)
  {
    var encoded := ToBase58(pub);
    if |encoded| < 20 {
      while |encoded| < 20
        decreases 20 - |encoded|
      {
        encoded := "1" + encoded;
      }
    }
    KeyTextLength(pub);
    id := encoded[..20];
  }
}
