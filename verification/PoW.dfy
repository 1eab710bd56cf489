/** Proof of work (internal/crypto/pow.go). */
module PoW {
  import opened Bytes
  import opened Bits

  // ----- bytes and powers of two -----

  /** Masking off the low 8-r bits of a byte leaves zero iff the byte is below 2^(8-r). */
  lemma MaskIsBound(b: byte, r: nat)
    requires 1 <= r < 8
    ensures And(8, b, Shl(8, 0xFF, 8 - r)) == 0 <==> b < Pow(2, 8 - r)
  {
    ByteMask(8 - r);
    AndHighMask(8, b, 8 - r);
  }

  lemma {:induction false} PowOfByte(k: nat)
    ensures Pow(2, 8 * k) == Pow(256, k)
  {
    if k > 0 {
      PowOfByte(k - 1);
      PowAdd(2, 8, 8 * (k - 1));
      assert Pow(2, 8) == 256;
    }
  }

  /** The bound 2^(256-n), split at byte n/8. */
  lemma BoundSplit(n: byte)
    ensures n % 8 == 0 ==> Pow(2, 256 - n) == Pow(256, 32 - n / 8)
    ensures n % 8 != 0 ==> Pow(2, 256 - n) == Pow(2, 8 - n % 8) * Pow(256, 31 - n / 8)
  {
    var k, r := n / 8, n % 8;
    if r == 0 {
      PowOfByte(32 - k);
    } else {
      PowOfByte(31 - k);
      PowAdd(2, 8 - r, 8 * (31 - k));
    }
  }

  /** A hash with a nonzero byte among its first k is at least 256^(32-k). */
  lemma NonzeroPrefix(h: Bytes32, i: nat, k: nat)
    requires i < k <= 32 && h[i] != 0
    ensures Pow(256, 32 - k) <= GetBE(h)
  {
    var t := h[i..];
    assert h == h[..i] + t;
    ValueConcat(256, h[..i], t);
    ValueLowerBound(256, t);
    PowMonotone(256, 32 - k, 31 - i);
    NatProduct(Value(256, h[..i]), Pow(256, |t|));
  }

  lemma NatProduct(x: nat, y: nat)
    ensures x * y >= 0
  {}

  /** With k zero bytes in front, only the rest counts. */
  lemma ZeroPrefix(h: Bytes32, k: nat)
    requires k <= 32 && forall i :: 0 <= i < k ==> h[i] == 0
    ensures GetBE(h) == GetBE(h[k..]) < Pow(256, 32 - k)
  {
    assert h == h[..k] + h[k..];
    ValueLeadingZeros(256, h[..k], h[k..]);
    ValueBound(256, h[k..]);
  }

  lemma BelowMultiple(q: nat, m: nat, p: nat, r: nat)
    requires r < p
    ensures q * p + r < m * p <==> q < m
  {
    MulMonotone(q + 1, m, p);
    MulMonotone(m, q, p);
  }

  /** A number is below m*p iff its leading digit is below m. */
  lemma LeadingByteBound(s: seq<byte>, m: nat)
    requires s != []
    ensures GetBE(s) < m * Pow(256, |s| - 1) <==> s[0] < m
  {
    var p, t := Pow(256, |s| - 1), s[1..];
    assert s == [s[0]] + t;
    ValueConcat(256, [s[0]], t);
    assert [s[0]][..0] == [];
    assert Value(256, [s[0]]) == s[0];
    ValueBound(256, t);
    var lead: nat := s[0];
    BelowMultiple(lead, m, p, GetBE(t));
  }

  /** With the first n/8 bytes zero, the bound is decided by the masked byte alone. */
  lemma MaskedByteDecides(h: Bytes32, n: byte)
    requires forall i :: 0 <= i < n / 8 ==> h[i] == 0
    ensures n % 8 == 0 ==> GetBE(h) < Pow(2, 256 - n)
    ensures n % 8 != 0 ==>
      (And(8, h[n / 8], Shl(8, 0xFF, 8 - n % 8)) == 0 <==> GetBE(h) < Pow(2, 256 - n))
  {
    var k, r := n / 8, n % 8;
    BoundSplit(n);
    ZeroPrefix(h, k);
    if r > 0 {
      MaskIsBound(h[k], r);
      LeadingByteBound(h[k..], Pow(2, 8 - r));
    }
  }

  /** A nonzero byte among the first n/8 puts the hash at or above the bound. */
  lemma NonzeroByteDecides(h: Bytes32, n: byte, i: nat)
    requires i < n / 8 && h[i] != 0
    ensures GetBE(h) >= Pow(2, 256 - n)
  {
    NonzeroPrefix(h, i, n / 8);
    PowOfByte(32 - n / 8);
    PowMonotone(2, 256 - n, 8 * (32 - n / 8));
  }

  /** hasLeadingZeroBits(h, n) holds exactly when h, read big-endian, is below 2^(256-n);
      no index is out of range for any uint8 n. */
  method HasLeadingZeroBits(hash: Bytes32, n: byte) returns (ok: bool)
    ensures ok <==> GetBE(hash) < Pow(2, 256 - n)
  {
    var fullBytes := n / 8;
    var remainBits := n % 8;
    for i := 0 to fullBytes
      invariant forall k :: 0 <= k < i ==> hash[k] == 0
    {
      if hash[i] != 0 {
        NonzeroByteDecides(hash, n, i);
        return false;
      }
    }
    MaskedByteDecides(hash, n);
    if remainBits > 0 {
      if And(8, hash[fullBytes], Shl(8, 0xFF, 8 - remainBits)) != 0 {
        return false;
      }
    }
    ok := true;
  }

  // ----- solving and verifying -----

  function Challenge(id: Bytes32, timestamp: int64, nonce: uint64): seq<byte> {
    id + Put64(ToU64(timestamp)) + Put64(nonce)
  }

  /** The hashed 48 bytes: the ID, then timestamp and nonce big-endian. */
  lemma ChallengeLayout(id: Bytes32, timestamp: int64, nonce: uint64)
    ensures var c := Challenge(id, timestamp, nonce);
      && |c| == 48 && c[..32] == id
      && GetBE(c[32..40]) == (if timestamp >= 0 then timestamp else timestamp + 0x1_0000_0000_0000_0000)
      && GetBE(c[40..]) == nonce
  {
    var t, n := Put64(ToU64(timestamp)), Put64(nonce);
    assert (id + t + n)[..32] == id && (id + t + n)[32..40] == t && (id + t + n)[40..] == n;
    GetPut64(ToU64(timestamp));
    GetPut64(nonce);
  }

  /** So no two attempts, for any message or time, hash the same bytes. */
  lemma ChallengeInjective(id: Bytes32, timestamp: int64, nonce: uint64, id': Bytes32, timestamp': int64, nonce': uint64)
    requires Challenge(id, timestamp, nonce) == Challenge(id', timestamp', nonce')
    ensures id == id' && timestamp == timestamp' && nonce == nonce'
  {
    ChallengeLayout(id, timestamp, nonce);
    ChallengeLayout(id', timestamp', nonce');
  }

  /** The nonce meets the difficulty: the hash is below 2^(256-difficulty). */
  predicate Meets(sha: HashFn, id: Bytes32, timestamp: int64, nonce: uint64, difficulty: byte) {
    GetBE(sha(Challenge(id, timestamp, nonce))) < Pow(2, 256 - difficulty)
  }

  /** Go's copy(buf[offset:], src) and PutUint64 into a fixed buffer. */
  method CopyInto(buf: array<byte>, offset: nat, src: seq<byte>)
    requires offset + |src| <= buf.Length
    modifies buf
    ensures buf[..] == old(buf[..offset]) + src + old(buf[offset + |src|..])
  {
    forall i | 0 <= i < |src| { buf[offset + i] := src[i]; }
  }

  method VerifyPoW(sha: HashFn, id: Bytes32, timestamp: int64, nonce: uint64, difficulty: byte) returns (ok: bool)
    ensures ok <==> Meets(sha, id, timestamp, nonce, difficulty)
  {
    var buf := new byte[48](_ => 0);
    CopyInto(buf, 0, id);
    CopyInto(buf, 32, Put64(ToU64(timestamp)));
    CopyInto(buf, 40, Put64(nonce));
    assert buf[..] == Challenge(id, timestamp, nonce);
    ok := HasLeadingZeroBits(sha(buf[..]), difficulty);
  }

  /** SolvePoW returns the least nonce that meets the difficulty, whenever some 64-bit nonce
      does (otherwise the loop of the program does not end). */
  method SolvePoW(sha: HashFn, id: Bytes32, timestamp: int64, difficulty: byte) returns (nonce: uint64)
    requires exists w: uint64 :: Meets(sha, id, timestamp, w, difficulty)
    ensures Meets(sha, id, timestamp, nonce, difficulty)
    ensures forall k: uint64 :: k < nonce ==> !Meets(sha, id, timestamp, k, difficulty)
  {
    ghost var w: uint64 :| Meets(sha, id, timestamp, w, difficulty);
    var buf := new byte[48](_ => 0);
    CopyInto(buf, 0, id);
    CopyInto(buf, 32, Put64(ToU64(timestamp)));
    ghost var head := buf[..40];
    assert head == id + Put64(ToU64(timestamp));
    nonce := 0;
    while true
      invariant buf[..40] == head
      invariant nonce <= w
      invariant forall k: uint64 :: k < nonce ==> !Meets(sha, id, timestamp, k, difficulty)
      decreases w - nonce
    {
      CopyInto(buf, 40, Put64(nonce));
      assert buf[..] == Challenge(id, timestamp, nonce);
      var ok := HasLeadingZeroBits(sha(buf[..]), difficulty);
      if ok { return; }
      nonce := nonce + 1;
    }
  }

  /** What SolvePoW returns, VerifyPoW accepts, at this and at every lower difficulty. */
  lemma MeetsIsMonotone(sha: HashFn, id: Bytes32, timestamp: int64, nonce: uint64, d: byte, e: byte)
    requires d <= e && Meets(sha, id, timestamp, nonce, e)
    ensures Meets(sha, id, timestamp, nonce, d)
  {
    PowMonotone(2, 256 - e, 256 - d);
  }
}
