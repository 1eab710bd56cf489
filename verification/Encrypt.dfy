/** The obfuscation keystream and the encrypt/decrypt pair (internal/crypto/encrypt.go).

    X25519, XSalsa20-Poly1305 and HMAC are uninterpreted: they are the function fields of
    `Primitives`, and each theorem names the one law it needs of them. */
module Encrypt {
  import opened Bytes
  import Bits

  type MacFn = (seq<byte>, seq<byte>) -> Bytes32

  datatype Primitives = Primitives(
    mac: MacFn,                                                // HMAC-SHA256(key, data)
    dh: (Bytes32, Bytes32) -> Option<Bytes32>,                 // X25519; None is its error
    basepoint: Bytes32,
    seal: (Bytes32, Bytes24, seq<byte>) -> seq<byte>,          // secretbox.Seal
    open: (Bytes32, Bytes24, seq<byte>) -> Option<seq<byte>>)  // secretbox.Open

  datatype EncryptedPayload = EncryptedPayload(ephemeralPub: Bytes32, nonce: Bytes24, ciphertext: seq<byte>)

  function Ascii(s: string): (b: seq<byte>)
    ensures |b| == |s|
  {
    seq(|s|, i requires 0 <= i < |s| => s[i] as int % 256)
  }

  // ----- xor -----

  function Xor(a: byte, b: byte): byte {
    assert Pow(2, 8) == 256;
    Bits.Xor(8, a, b)
  }

  lemma XorTwice(a: byte, b: byte)
    ensures Xor(Xor(a, b), b) == a
  {
    assert Pow(2, 8) == 256;
    Bits.XorTwice(8, a, b);
  }

  /** Byte-wise xor with the first bytes of b. */
  function XorAll(a: seq<byte>, b: seq<byte>): (r: seq<byte>)
    requires |a| <= |b|
    ensures |r| == |a|
  {
    seq(|a|, i requires 0 <= i < |a| => Xor(a[i], b[i]))
  }

  method XorBytes(a: seq<byte>, b: seq<byte>) returns (r: seq<byte>)
    requires |a| <= |b|
    ensures r == XorAll(a, b)
  {
    var result := new byte[|a|](_ => 0);
    for i := 0 to |a|
      invariant forall k :: 0 <= k < i ==> result[k] == Xor(a[k], b[k])
    {
      result[i] := Xor(a[i], b[i]);
    }
    r := result[..];
  }

  lemma XorAllTwice(a: seq<byte>, b: seq<byte>)
    requires |a| <= |b|
    ensures XorAll(XorAll(a, b), b) == a
  {
    forall i | 0 <= i < |a| ensures XorAll(XorAll(a, b), b)[i] == a[i] { XorTwice(a[i], b[i]); }
  }

  // ----- the keystream -----

  /** One byte below 256, then four bytes big-endian. */
  function CounterBytes(counter: uint32): seq<byte> {
    if counter < 256 then [counter] else Put32(counter)
  }

  function Info(nonce: seq<byte>): seq<byte> { nonce + Ascii("iskra-obf") }

  function BlockInput(nonce: seq<byte>, counter: uint32): seq<byte> {
    Info(nonce) + CounterBytes(counter)
  }

  /** The uint32 counter of the block byte j falls in. */
  function Counter(j: nat): uint32 { (j / 32) % 0x1_0000_0000 }

  function StreamByte(mac: MacFn, secret: seq<byte>, nonce: seq<byte>, j: nat): byte {
    mac(secret, BlockInput(nonce, Counter(j)))[j % 32]
  }

  /** The pointwise definition of the keystream. */
  function Stream(mac: MacFn, secret: seq<byte>, nonce: seq<byte>, length: nat): (s: seq<byte>)
    ensures |s| == length
  {
    seq(length, j requires 0 <= j => StreamByte(mac, secret, nonce, j))
  }

  /** Block number n of the stream is one HMAC output. */
  lemma BlockBytes(mac: MacFn, secret: seq<byte>, nonce: seq<byte>, n: nat, sum: Bytes32)
    requires sum == mac(secret, BlockInput(nonce, n % 0x1_0000_0000))
    ensures forall k :: 32 * n <= k < 32 * n + 32 ==> sum[k - 32 * n] == StreamByte(mac, secret, nonce, k)
  {
    forall k | 32 * n <= k < 32 * n + 32
      ensures sum[k - 32 * n] == StreamByte(mac, secret, nonce, k)
    {
      DivModUnique(n, k - 32 * n, 32);
    }
  }

  /** The counter loop computes the pointwise keystream, for every length. */
  method GenerateObfuscationStream(mac: MacFn, secret: seq<byte>, nonce: seq<byte>, length: nat)
    returns (r: seq<byte>)
    ensures r == Stream(mac, secret, nonce, length)
  {
    var stream: seq<byte> := [];
    var info := nonce + Ascii("iskra-obf");
    var counter: uint32 := 0;
    ghost var blocks: nat := 0;
    while |stream| < length
      invariant |stream| == 32 * blocks
      invariant counter == blocks % 0x1_0000_0000
      invariant forall j :: 0 <= j < |stream| ==> stream[j] == StreamByte(mac, secret, nonce, j)
    {
      var input := info;
      if counter < 256 {
        input := input + [counter];
      } else {
        input := input + Put32(counter);
      }
      var sum := mac(secret, input);
      assert input == BlockInput(nonce, counter);
      BlockBytes(mac, secret, nonce, blocks, sum);
      stream := stream + sum;
      counter := (counter + 1) % 0x1_0000_0000;
      blocks := blocks + 1;
    }
    r := stream[..length];
  }

  /** A shorter request is a prefix of a longer one. */
  lemma StreamPrefix(mac: MacFn, secret: seq<byte>, nonce: seq<byte>, m: nat, n: nat)
    requires m <= n
    ensures Stream(mac, secret, nonce, m) == Stream(mac, secret, nonce, n)[..m]
  {}

  /** The mixed one-byte/four-byte encoding never repeats a block input below 2^32 blocks. */
  lemma BlockInputInjective(nonce: seq<byte>, c: uint32, d: uint32)
    requires BlockInput(nonce, c) == BlockInput(nonce, d)
    ensures c == d
  {
    var n := |Info(nonce)|;
    assert BlockInput(nonce, c)[n..] == CounterBytes(c);
    assert BlockInput(nonce, d)[n..] == CounterBytes(d);
    if c >= 256 && d >= 256 {
      GetPut32(c);
      GetPut32(d);
    }
  }

  /** The label behind the nonce, byte by byte, and the counter behind it. */
  lemma BlockInputLayout(nonce: seq<byte>, c: uint32)
    ensures BlockInput(nonce, c) == nonce + [105, 115, 107, 114, 97, 45, 111, 98, 102]
      + (if c < 256 then [c] else [c / 0x100_0000, c / 0x1_0000 % 256, c / 256 % 256, c % 256])
  {
    assert Ascii("iskra-obf") == [105, 115, 107, 114, 97, 45, 111, 98, 102];
    FourBytes(c);
  }

  lemma FourBytes(c: uint32)
    ensures Put32(c) == [c / 0x100_0000, c / 0x1_0000 % 256, c / 256 % 256, c % 256]
  {
    var d, e, f: nat := c / 256, c / 0x1_0000, c / 0x100_0000;
    assert d / 256 == e && e / 256 == f && f / 256 == 0;
    assert FixedDigits(256, 0, 0) == [];
    LastDigit(0, f);
    LastDigit(1, e);
    LastDigit(2, d);
    LastDigit(3, c);
  }

  lemma LastDigit(k: nat, n: nat)
    ensures FixedDigits(256, k + 1, n) == FixedDigits(256, k, n / 256) + [n % 256]
  {}

  /** No two blocks of any two messages with different nonces have the same input. */
  lemma NonceAndCounterInjective(n: Bytes24, c: uint32, m: Bytes24, d: uint32)
    requires BlockInput(n, c) == BlockInput(m, d)
    ensures n == m && c == d
  {
    assert BlockInput(n, c)[..24] == n;
    assert BlockInput(m, d)[..24] == m;
    BlockInputInjective(n, c, d);
  }

  /** The block input before the counter was widened: a single wrapping byte. */
  function OldBlockInput(nonce: seq<byte>, block: nat): seq<byte> {
    Info(nonce) + [block % 256]
  }

  /** The old and the new stream feed HMAC the same input exactly in the first 8192 bytes
      (within the 2^32 blocks before the wide counter wraps). */
  lemma OldStreamAgreement(nonce: seq<byte>, j: nat)
    requires j < 32 * 0x1_0000_0000
    ensures BlockInput(nonce, Counter(j)) == OldBlockInput(nonce, j / 32) <==> j < 8192
  {
    var c := Counter(j);
    assert c == j / 32;
    if j >= 8192 {
      assert |BlockInput(nonce, c)| == |Info(nonce)| + 4;
    }
  }

  /** The wide counter itself wraps: 2^32 blocks later the keystream repeats. */
  lemma StreamPeriod(mac: MacFn, secret: seq<byte>, nonce: seq<byte>, j: nat)
    ensures StreamByte(mac, secret, nonce, j + 32 * 0x1_0000_0000) == StreamByte(mac, secret, nonce, j)
  {
    DivMod(j, 32);
    DivModUnique(j / 32 + 0x1_0000_0000, j % 32, 32);
    DivMod(j / 32, 0x1_0000_0000);
    DivModUnique((j / 32) / 0x1_0000_0000 + 1, (j / 32) % 0x1_0000_0000, 0x1_0000_0000);
  }

  // ----- encrypt and decrypt -----

  function DeriveKey(mac: MacFn, secret: seq<byte>): Bytes32 {
    mac(secret, Ascii("iskra-v1-message-key"))
  }

  /** The message key is the MAC under the shared secret of the ASCII label "iskra-v1-message-key". */
  lemma MessageKey(mac: MacFn, secret: seq<byte>)
    ensures DeriveKey(mac, secret) == mac(secret, [105, 115, 107, 114, 97, 45, 118, 49, 45, 109, 101, 115, 115, 97, 103, 101, 45, 107, 101, 121])
  {
    assert Ascii("iskra-v1-message-key")
        == [105, 115, 107, 114, 97, 45, 118, 49, 45, 109, 101, 115, 115, 97, 103, 101, 45, 107, 101, 121];
  }

  /** Encrypt with the randomness (ephemeral key, nonce) as arguments. */
  method EncryptMessage(p: Primitives, ephPriv: Bytes32, nonce: Bytes24, recipientPub: Bytes32, plaintext: seq<byte>)
    returns (r: Option<EncryptedPayload>)
    ensures r.Some? <==> p.dh(ephPriv, p.basepoint).Some? && p.dh(ephPriv, recipientPub).Some?
    ensures r.Some? ==>
      && r.value.ephemeralPub == p.dh(ephPriv, p.basepoint).value
      && r.value.nonce == nonce
      && r.value.ciphertext == Obfuscated(p, p.dh(ephPriv, recipientPub).value, nonce, plaintext)
  {
    var ephPub := p.dh(ephPriv, p.basepoint);
    if ephPub.None? { return None; }
    var shared := p.dh(ephPriv, recipientPub);
    if shared.None? { return None; }
    var key := DeriveKey(p.mac, shared.value);
    var ciphertext := p.seal(key, nonce, plaintext);
    var stream := GenerateObfuscationStream(p.mac, shared.value, nonce, |ciphertext|);
    var obfuscated := XorBytes(ciphertext, stream);
    r := Some(EncryptedPayload(ephPub.value, nonce, obfuscated));
  }

  /** The ciphertext on the wire for a given shared secret. */
  function Obfuscated(p: Primitives, shared: Bytes32, nonce: Bytes24, plaintext: seq<byte>): seq<byte> {
    var sealed := p.seal(DeriveKey(p.mac, shared), nonce, plaintext);
    XorAll(sealed, Stream(p.mac, shared, nonce, |sealed|))
  }

  /** On the wire bit k of byte i differs from what the secretbox sealed exactly where that bit
      is set in byte i mod 32 of the HMAC of block i / 32. */
  lemma ObfuscationXors(p: Primitives, shared: Bytes32, nonce: Bytes24, plaintext: seq<byte>, i: nat, k: nat)
    requires i < |p.seal(DeriveKey(p.mac, shared), nonce, plaintext)| && k < 8
    ensures var (sealed, wire) := (p.seal(DeriveKey(p.mac, shared), nonce, plaintext), Obfuscated(p, shared, nonce, plaintext));
      && |wire| == |sealed|
      && (Bits.Bit(wire[i], k) != Bits.Bit(sealed[i], k) <==>
            Bits.Bit(p.mac(shared, BlockInput(nonce, (i / 32) % 0x1_0000_0000))[i % 32], k))
  {
    var sealed := p.seal(DeriveKey(p.mac, shared), nonce, plaintext);
    Bits.XorBit(8, sealed[i], StreamByte(p.mac, shared, nonce, i), k);
  }

  method DecryptMessage(p: Primitives, recipientPriv: Bytes32, payload: EncryptedPayload)
    returns (r: Option<seq<byte>>)
    ensures r == Deobfuscated(p, recipientPriv, payload)
  {
    var shared := p.dh(recipientPriv, payload.ephemeralPub);
    if shared.None? { return None; }
    var key := DeriveKey(p.mac, shared.value);
    var stream := GenerateObfuscationStream(p.mac, shared.value, payload.nonce, |payload.ciphertext|);
    var ciphertext := XorBytes(payload.ciphertext, stream);
    r := p.open(key, payload.nonce, ciphertext);
  }

  function Deobfuscated(p: Primitives, recipientPriv: Bytes32, payload: EncryptedPayload): Option<seq<byte>> {
    var shared := p.dh(recipientPriv, payload.ephemeralPub);
    if shared.None? then None else
      var c := payload.ciphertext;
      p.open(DeriveKey(p.mac, shared.value), payload.nonce,
             XorAll(c, Stream(p.mac, shared.value, payload.nonce, |c|)))
  }

  /** The law of the secretbox: what was sealed opens again. */
  ghost predicate Opens(p: Primitives) {
    forall k, n, x :: p.open(k, n, p.seal(k, n, x)) == Some(x)
  }

  /** De-obfuscation undoes obfuscation: the secretbox gets exactly what it sealed. */
  lemma DeobfuscationIsExact(p: Primitives, shared: Bytes32, recipientPriv: Bytes32, payload: EncryptedPayload, plaintext: seq<byte>)
    requires p.dh(recipientPriv, payload.ephemeralPub) == Some(shared)
    requires payload.ciphertext == Obfuscated(p, shared, payload.nonce, plaintext)
    ensures Deobfuscated(p, recipientPriv, payload)
         == p.open(DeriveKey(p.mac, shared), payload.nonce, p.seal(DeriveKey(p.mac, shared), payload.nonce, plaintext))
  {
    var sealed := p.seal(DeriveKey(p.mac, shared), payload.nonce, plaintext);
    XorAllTwice(sealed, Stream(p.mac, shared, payload.nonce, |sealed|));
  }

  /** Decryption undoes encryption: a payload that EncryptMessage made decrypts to the
      plaintext, once both key agreements give the same secret (the law of X25519) and the
      secretbox opens what it sealed. */
  lemma DecryptUndoesEncrypt(p: Primitives, ephPriv: Bytes32, recipientPub: Bytes32, recipientPriv: Bytes32,
                             payload: EncryptedPayload, plaintext: seq<byte>)
    requires Opens(p)
    requires p.dh(ephPriv, recipientPub).Some? && p.dh(recipientPriv, payload.ephemeralPub) == p.dh(ephPriv, recipientPub)
    requires payload.ciphertext == Obfuscated(p, p.dh(ephPriv, recipientPub).value, payload.nonce, plaintext)
    ensures Deobfuscated(p, recipientPriv, payload) == Some(plaintext)
  {
    DeobfuscationIsExact(p, p.dh(ephPriv, recipientPub).value, recipientPriv, payload, plaintext);
  }
}
