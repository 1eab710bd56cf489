/** The duplicate filter (internal/store/bloom.go) and the probe of a peer's exported filter
    (bloomContains in internal/mesh/transport.go).

    A filter denotes the set of its one bits.  Words, exported bytes and remote probes are
    all related to that set.  SHA-256 is a parameter. */
module Bloom {
  import opened Bytes
  import opened Bits

  /** Transport's bloomContains probes with this many hashes, whatever the peer used. */
  const REMOTE_HASHES: nat := 10

  /** Big-endian uint64 of the first 8 bytes of SHA-256(id || salt). */
  function Half(sha: HashFn, id: Bytes32, salt: byte): uint64 {
    Get64(sha(id + [salt])[..8])
  }

  /** Double hashing in uint64 arithmetic, reduced to the filter size. */
  function Position(sha: HashFn, id: Bytes32, i: nat, numBits: nat): (p: nat)
    requires numBits > 0
    ensures p < numBits
  {
    ((Half(sha, id, 0) + i * Half(sha, id, 1)) % 0x1_0000_0000_0000_0000) % numBits
  }

  function Positions(sha: HashFn, id: Bytes32, k: nat, numBits: nat): set<nat>
    requires numBits > 0
  {
    set i | 0 <= i < k :: Position(sha, id, i, numBits)
  }

  /** The one bits of a word slice. */
  ghost function Ones(words: seq<uint64>): set<nat> {
    set p: nat | p < 64 * |words| && Bit(words[p / 64], p % 64)
  }

  /** The one bits of an exported byte string. */
  ghost function ByteOnes(data: seq<byte>): set<nat> {
    set p: nat | p < 8 * |data| && Bit(data[p / 8], p % 8)
  }

  /** PutUint64 little-endian, word after word. */
  function ExportBytes(words: seq<uint64>): (data: seq<byte>)
    ensures |data| == 8 * |words|
  {
    seq(8 * |words|, i requires 0 <= i < 8 * |words| => ByteOf(words[i / 8], i % 8))
  }

  /** The byte view has the same one bits as the word view. */
  lemma ExportKeepsOnes(words: seq<uint64>)
    ensures ByteOnes(ExportBytes(words)) == Ones(words)
  {
    var data := ExportBytes(words);
    forall p: nat | p < 64 * |words|
      ensures Bit(data[p / 8], p % 8) <==> Bit(words[p / 64], p % 64)
    {
      var i := p / 8;
      assert i / 8 == p / 64 && 8 * (i % 8) + p % 8 == p % 64;
      BitOfByte(words[p / 64], i % 8, p % 8);
    }
  }

  /** bits[pos/64] |= 1 << (pos%64) adds pos to the one bits. */
  lemma OrAddsOne(words: seq<uint64>, pos: nat, w: uint64)
    requires pos < 64 * |words|
    requires w == Or(64, words[pos / 64], Pow(2, pos % 64))
    ensures Ones(words[pos / 64 := w]) == Ones(words) + {pos}
  {
    var after := words[pos / 64 := w];
    forall p: nat | p < 64 * |words|
      ensures Bit(after[p / 64], p % 64) <==> (p == pos || Bit(words[p / 64], p % 64))
    {
      if p / 64 == pos / 64 { OrSetsBit(64, words[pos / 64], pos % 64, p % 64); }
    }
  }

  lemma Pow64()
    ensures Pow(2, 64) == 0x1_0000_0000_0000_0000
  {
    PowAdd(2, 32, 32);
    PowAdd(2, 16, 16);
    PowAdd(2, 8, 8);
    assert Pow(2, 8) == 256;
  }

  /** What a peer's probe of exported bytes answers. */
  ghost predicate RemoteHas(sha: HashFn, data: seq<byte>, id: Bytes32, k: nat) {
    |data| > 0 && Positions(sha, id, k, 8 * |data|) <= ByteOnes(data)
  }

  /** What Contains answers on a word slice with k hashes. */
  ghost predicate LocalHas(sha: HashFn, words: seq<uint64>, id: Bytes32, k: nat) {
    |words| > 0 && Positions(sha, id, k, 64 * |words|) <= Ones(words)
  }

  class SimpleBloom {
    const sha: HashFn
    const numBits: nat
    const numHash: nat
    var bits: array<uint64>

    /** numBits is a positive multiple of 64 that fits uint64, and there are 1 to 20 hashes:
        the range NewBloom produces. */
    ghost predicate Valid()
      reads this
    {
      && 0 < numBits < 0x1_0000_0000_0000_0000 && numBits % 64 == 0
      && bits.Length == numBits / 64 && 1 <= numHash <= 20
    }

    /** The set the filter denotes. */
    ghost function Set(): set<nat>
      reads this, bits
    {
      Ones(bits[..])
    }

    constructor (sha: HashFn, numBits: nat, numHash: nat)
      requires 0 < numBits < 0x1_0000_0000_0000_0000 && numBits % 64 == 0 && 1 <= numHash <= 20
      ensures Valid() && fresh(bits) && Set() == {}
      ensures this.sha == sha && this.numBits == numBits && this.numHash == numHash
    {
      this.sha, this.numBits, this.numHash := sha, numBits, numHash;
      bits := new uint64[numBits / 64](_ => 0);
      new;
      forall i: nat { ZeroBit(i); }
    }

    method Add(id: Bytes32)
      requires Valid()
      modifies bits
      ensures Set() == old(Set()) + Positions(sha, id, numHash, numBits)
    {
      Pow64();
      ghost var before := Set();
      for i := 0 to numHash
        invariant Set() == before + Positions(sha, id, i, numBits)
      {
        var pos := Position(sha, id, i, numBits);
        ghost var words := bits[..];
        bits[pos / 64] := Or(64, bits[pos / 64], Pow(2, pos % 64));
        assert bits[..] == words[pos / 64 := bits[pos / 64]];
        OrAddsOne(words, pos, bits[pos / 64]);
        PositionsStep(sha, id, i, numBits);
      }
    }

    method Contains(id: Bytes32) returns (r: bool)
      requires Valid()
      ensures r <==> Positions(sha, id, numHash, numBits) <= Set()
    {
      for i := 0 to numHash
        invariant Positions(sha, id, i, numBits) <= Set()
      {
        var pos := Position(sha, id, i, numBits);
        PositionsStep(sha, id, i, numBits);
        AndTestsBit(64, bits[pos / 64], pos % 64);
        if And(64, bits[pos / 64], Pow(2, pos % 64)) == 0 {
          assert pos in Positions(sha, id, numHash, numBits);
          return false;
        }
      }
      r := true;
    }

    /** Words are cut into bytes in place, eight per word. */
    method Export() returns (out: array<byte>)
      requires Valid()
      ensures fresh(out) && out[..] == ExportBytes(bits[..])
      ensures ByteOnes(out[..]) == Set()
    {
      out := new byte[8 * bits.Length](_ => 0);
      for i := 0 to bits.Length
        invariant forall j :: 0 <= j < 8 * i ==> out[j] == ByteOf(bits[j / 8], j % 8)
      {
        forall k | 0 <= k < 8 { out[8 * i + k] := ByteOf(bits[i], k); }
      }
      assert out[..] == ExportBytes(bits[..]);
      ExportKeepsOnes(bits[..]);
    }

    /** CheckInRemote probes with this filter's own number of hashes. */
    method CheckInRemote(data: seq<byte>, id: Bytes32) returns (r: bool)
      ensures r <==> RemoteHas(sha, data, id, numHash)
    {
      r := ProbeRemote(sha, data, id, numHash);
    }
  }

  lemma {:induction false} ZeroBit(i: nat)
    ensures !Bit(0, i)
  {
    if i > 0 { ZeroBit(i - 1); }
  }

  lemma PositionsStep(sha: HashFn, id: Bytes32, i: nat, numBits: nat)
    requires numBits > 0
    ensures Positions(sha, id, i + 1, numBits) == Positions(sha, id, i, numBits) + {Position(sha, id, i, numBits)}
  {}

  /** The probe loop shared by CheckInRemote and bloomContains.  The programs' guard
      "byteIdx >= len(data)" never fires, since positions are below 8 * len(data). */
  method ProbeRemote(sha: HashFn, data: seq<byte>, id: Bytes32, numHash: nat) returns (r: bool)
    ensures r <==> RemoteHas(sha, data, id, numHash)
  {
    var remoteBits := |data| * 8;
    if remoteBits == 0 { return false; }
    for i := 0 to numHash
      invariant Positions(sha, id, i, remoteBits) <= ByteOnes(data)
    {
      var pos := Position(sha, id, i, remoteBits);
      PositionsStep(sha, id, i, remoteBits);
      AndTestsBit(8, data[pos / 8], pos % 8);
      if And(8, data[pos / 8], Pow(2, pos % 8)) == 0 {
        assert pos in Positions(sha, id, numHash, remoteBits);
        return false;
      }
    }
    r := true;
  }

  method BloomContains(sha: HashFn, data: seq<byte>, id: Bytes32) returns (r: bool)
    ensures r <==> RemoteHas(sha, data, id, REMOTE_HASHES)
  {
    r := ProbeRemote(sha, data, id, REMOTE_HASHES);
  }

  /** Probing the export with the filter's own number of hashes is Contains. */
  lemma RemoteAgrees(sha: HashFn, words: seq<uint64>, id: Bytes32, k: nat)
    ensures RemoteHas(sha, ExportBytes(words), id, k) <==> LocalHas(sha, words, id, k)
  {
    ExportKeepsOnes(words);
  }

  /** More hashes only make a probe stricter. */
  lemma FewerHashes(sha: HashFn, id: Bytes32, j: nat, k: nat, numBits: nat)
    requires numBits > 0 && j <= k
    ensures Positions(sha, id, j, numBits) <= Positions(sha, id, k, numBits)
  {}

  /** A peer's positive probe of an export is right about the exporter, at export time and
      whenever its filter has only grown, as long as the exporter uses at most 10 hashes:
      the messages HAVE filtering skips are messages the exporter would drop anyway. */
  lemma RemoteIsSound(sha: HashFn, words: seq<uint64>, later: seq<uint64>, id: Bytes32, k: nat)
    requires k <= REMOTE_HASHES
    requires |later| == |words| && Ones(words) <= Ones(later)
    requires RemoteHas(sha, ExportBytes(words), id, REMOTE_HASHES)
    ensures LocalHas(sha, words, id, k) && LocalHas(sha, later, id, k)
  {
    ExportKeepsOnes(words);
    FewerHashes(sha, id, k, REMOTE_HASHES, 64 * |words|);
  }

  // ----- the uint64 wrap-around -----

  /** h1, then h1 + h2, and so on, each sum wrapped to 64 bits. */
  function Walk(h1: uint64, h2: uint64, i: nat): uint64 {
    if i == 0 then h1 else
      var h := Walk(h1, h2, i - 1) + h2;
      if h >= 0x1_0000_0000_0000_0000 then h - 0x1_0000_0000_0000_0000 else h
  }

  /** Probe i is at r modulo the filter size, where r is what 64 bits keep of h1 + i * h2, the
      halves being the first 8 bytes of the hash of the ID followed by 0 and by 1. */
  lemma PositionWraps(sha: HashFn, id: Bytes32, i: nat, numBits: nat, q: nat, r: uint64)
    requires numBits > 0
    requires GetBE(sha(id + [0])[..8]) + i * GetBE(sha(id + [1])[..8]) == q * 0x1_0000_0000_0000_0000 + r
    ensures Position(sha, id, i, numBits) == r % numBits
  {
    DivModUnique(q, r, 0x1_0000_0000_0000_0000);
  }

  /** A filter probes exactly where the wrapped walk from h1 in steps of h2 leads. */
  lemma {:induction false} ProbesAreWalk(sha: HashFn, id: Bytes32, i: nat, numBits: nat)
    requires numBits > 0
    ensures var w := Walk(Get64(sha(id + [0])[..8]), Get64(sha(id + [1])[..8]), i);
      && Position(sha, id, i, numBits) == w % numBits
      && (forall k: nat :: i < k ==> w % numBits in Positions(sha, id, k, numBits))
  {
    var h1, h2 := Get64(sha(id + [0])[..8]), Get64(sha(id + [1])[..8]);
    var q := WalkWraps(h1, h2, i);
    PositionWraps(sha, id, i, numBits, q, Walk(h1, h2, i));
  }

  lemma {:induction false} WalkWraps(h1: uint64, h2: uint64, i: nat) returns (q: nat)
    ensures h1 + i * h2 == q * 0x1_0000_0000_0000_0000 + Walk(h1, h2, i)
  {
    if i == 0 {
      q := 0;
    } else {
      q := WalkWraps(h1, h2, i - 1);
      assert i * h2 == (i - 1) * h2 + h2;
      if Walk(h1, h2, i - 1) + h2 >= 0x1_0000_0000_0000_0000 { q := q + 1; }
    }
  }

  /** A hash whose two halves are 2^64 - 1 and 1. */
  function Wrapping(x: seq<byte>): Bytes32 {
    if |x| == 33 && x[32] == 1 then Zeros(7) + [1] + Zeros(24) else seq(8, _ => 255) + Zeros(24)
  }

  /** There the second probe of a filter of 192 bits is bit 0; the sum itself is bit 64. */
  lemma WrapMatters(id: Bytes32)
    ensures Position(Wrapping, id, 1, 192) == 0
    ensures (Half(Wrapping, id, 0) + Half(Wrapping, id, 1)) % 192 == 64
  {
    var top: seq<byte> := seq(8, _ => 255);
    assert Wrapping(id + [0])[..8] == top;
    assert Wrapping(id + [1])[..8] == Zeros(7) + [1];
    assert FixedDigits(256, 8, 0xFFFF_FFFF_FFFF_FFFF) == top;
    GetPut64(0xFFFF_FFFF_FFFF_FFFF);
    ValueLeadingZeros(256, Zeros(7), [1]);
    assert [1][..0] == [];
    PositionWraps(Wrapping, id, 1, 192, 1, 0);
  }

  // ----- the mismatch of hash counts -----

  /** The word whose low n bits are one. */
  function LowOnes(n: nat): nat { Pow(2, n) - 1 }

  lemma {:induction false} LowOnesBits(n: nat, i: nat)
    ensures Bit(LowOnes(n), i) <==> i < n
    decreases n
  {
    if n == 0 {
      ZeroBit(i);
    } else {
      HalfOfPow(n);
      assert LowOnes(n) / 2 == LowOnes(n - 1);
      if i > 0 { LowOnesBits(n - 1, i - 1); }
    }
  }

  /** A hash whose two halves are 0 and 1, so that probe i lands on bit i. */
  function Ladder(x: seq<byte>): Bytes32 {
    if |x| == 33 && x[32] == 1 then Zeros(7) + [1] + Zeros(24) else Zeros(32)
  }

  lemma LadderPosition(id: Bytes32, i: nat)
    requires i < 20
    ensures Position(Ladder, id, i, 64) == i
  {
    assert Ladder(id + [1])[..8] == Zeros(7) + [1];
    assert Ladder(id + [0])[..8] == Zeros(8);
    ValueZeros(256, Zeros(8));
    ValueLeadingZeros(256, Zeros(7), [1]);
    assert [1][..0] == [];
    assert Value(256, [1]) == 1;
  }

  lemma LadderPositions(id: Bytes32, k: nat)
    requires k <= 20
    ensures forall p: nat :: p in Positions(Ladder, id, k, 64) <==> p < k
  {
    forall i | 0 <= i < k ensures Position(Ladder, id, i, 64) == i { LadderPosition(id, i); }
    forall p: nat | p < k ensures p in Positions(Ladder, id, k, 64) {
      assert Position(Ladder, id, p, 64) == p;
    }
  }

  /** With k hashes and the first min(k, 10) probed bits set, local and remote answers differ
      unless k is 10: below 10 the peer misses a stored message, above 10 it believes in one
      that was never stored. */
  lemma HashCountMismatch(id: Bytes32, k: nat) returns (words: seq<uint64>)
    requires 1 <= k <= 20
    ensures LocalHas(Ladder, words, id, k) <==> k <= 10
    ensures RemoteHas(Ladder, ExportBytes(words), id, REMOTE_HASHES) <==> k >= 10
  {
    var n := if k < 10 then k else 10;
    Pow64();
    PowMonotone(2, n, 64);
    words := [LowOnes(n)];
    forall p: nat | p < 64 ensures Bit(words[p / 64], p % 64) <==> p < n { LowOnesBits(n, p); }
    assert forall p: nat :: p in Ones(words) <==> p < n;
    LadderPositions(id, k);
    LadderPositions(id, 10);
    RemoteAgrees(Ladder, words, id, 10);
    if k > 10 { assert 10 in Positions(Ladder, id, k, 64); }
    if k < 10 { assert 9 in Positions(Ladder, id, 10, 64); }
  }

  ghost predicate ProbeSound(k: nat) {
    forall sha: HashFn, words: seq<uint64>, id: Bytes32 ::
      RemoteHas(sha, ExportBytes(words), id, REMOTE_HASHES) ==> LocalHas(sha, words, id, k)
  }

  ghost predicate ProbeExact(k: nat) {
    forall sha: HashFn, words: seq<uint64>, id: Bytes32 ::
      RemoteHas(sha, ExportBytes(words), id, REMOTE_HASHES) <==> LocalHas(sha, words, id, k)
  }

  /** For the filter sizes NewBloom can produce, the fixed 10-hash probe is sound for every
      filter exactly when the filter has at most 10 hashes, and agrees with Contains exactly
      when it has 10.  (NewBloom(_, 0.001) has 9.) */
  lemma ProbeCondition(k: nat)
    requires 1 <= k <= 20
    ensures ProbeSound(k) <==> k <= 10
    ensures ProbeExact(k) <==> k == 10
  {
    var words := HashCountMismatch(Zeros(32), k);
    forall sha: HashFn, words: seq<uint64>, id: Bytes32
      ensures k <= 10 && RemoteHas(sha, ExportBytes(words), id, REMOTE_HASHES) ==> LocalHas(sha, words, id, k)
    {
      if k <= 10 && RemoteHas(sha, ExportBytes(words), id, REMOTE_HASHES) {
        RemoteIsSound(sha, words, words, id, k);
      }
    }
    forall sha: HashFn, words: seq<uint64>, id: Bytes32
      ensures RemoteHas(sha, ExportBytes(words), id, 10) <==> LocalHas(sha, words, id, 10)
    {
      RemoteAgrees(sha, words, id, 10);
    }
  }
}
