/** The protocol message: wire format (internal/message/serialize.go), signed bytes, ID
    pre-image and addressing (message.go, types.go). */
module Messages {
  import opened Bytes

  datatype Message = Message(
    version: byte,
    id: Bytes32,
    recipientID: Bytes20,
    ttl: uint32,
    timestamp: int64,
    contentType: byte,
    ephemeralPub: Bytes32,
    nonce: Bytes24,
    payload: seq<byte>,
    authorPub: Bytes32,
    authorX25519: Bytes32,
    signature: Bytes64,
    powNonce: uint64)

  const CONTENT_DELIVERY_CONFIRM: byte := 1
  const CONTENT_FILE_CHUNK: byte := 6

  /** 16 MiB. */
  const MAX_PAYLOAD_LEN: nat := 0x100_0000

  predicate ShouldStoreInHold(contentType: byte) {
    contentType != CONTENT_FILE_CHUNK && contentType != CONTENT_DELIVERY_CONFIRM
  }

  predicate IsForRecipient(m: Message, edPub: Bytes32) { m.recipientID == edPub[..20] }

  predicate IsBroadcast(m: Message) { m.recipientID == Zeros(20) }

  // ----- the wire format -----

  function Header(m: Message): (s: seq<byte>)
    ensures |s| == 122
  {
    [m.version] + (m.id + (m.recipientID + (Put32(m.ttl) + (Put64(ToU64(m.timestamp))
      + ([m.contentType] + (m.ephemeralPub + m.nonce))))))
  }

  function Trailer(m: Message): (s: seq<byte>)
    ensures |s| == 104
  {
    m.authorPub + (m.signature + Put64(m.powNonce))
  }

  /** The version 1 part of the wire form; the length field wraps at 2^32 as in Go. */
  function Core(m: Message): (s: seq<byte>)
    ensures |s| == 230 + |m.payload|
  {
    Header(m) + (Put32(|m.payload| % 0x1_0000_0000) + (m.payload + Trailer(m)))
  }

  function Wire(m: Message): seq<byte> {
    Core(m) + (if m.version >= 2 then m.authorX25519 else [])
  }

  /** The payload length field. */
  function PayloadLen(data: seq<byte>): (n: uint32)
    requires |data| >= 126
  { Get32(data[122..126]) }

  predicate Parses(data: seq<byte>) {
    |data| >= 230 && PayloadLen(data) <= MAX_PAYLOAD_LEN && |data| >= 230 + PayloadLen(data)
  }

  function Parse(data: seq<byte>): Option<Message> {
    if !Parses(data) then None else
      var n := PayloadLen(data);
      Some(Message(
        data[0], data[1..33], data[33..53], Get32(data[53..57]), ToI64(Get64(data[57..65])),
        data[65], data[66..98], data[98..122], data[126..126 + n], data[126 + n..158 + n],
        if |data| >= 262 + n then data[230 + n..262 + n] else Zeros(32),
        data[158 + n..222 + n], Get64(data[222 + n..230 + n])))
  }

  /** What survives the wire: version 1 does not carry the reply key. */
  function Carried(m: Message): Message {
    if m.version >= 2 then m else m.(authorX25519 := Zeros(32))
  }

  method Serialize(m: Message) returns (buf: seq<byte>)
    ensures buf == Wire(m)
  {
    buf := [];
    buf := buf + [m.version];
    buf := buf + m.id;
    buf := buf + m.recipientID;
    buf := buf + Put32(m.ttl);
    buf := buf + Put64(ToU64(m.timestamp));
    buf := buf + [m.contentType];
    buf := buf + m.ephemeralPub;
    buf := buf + m.nonce;
    assert buf == Header(m);
    buf := buf + Put32(|m.payload| % 0x1_0000_0000);
    buf := buf + m.payload;
    buf := buf + m.authorPub;
    buf := buf + m.signature;
    buf := buf + Put64(m.powNonce);
    assert buf == Core(m);
    if m.version >= 2 {
      buf := buf + m.authorX25519;
    }
  }

  /** Total on every byte string: no slice is out of range. */
  method Deserialize(data: seq<byte>) returns (r: Option<Message>)
    ensures r == Parse(data)
  {
    if |data| < 230 { return None; }
    var offset := 0;
    var version := data[offset];
    offset := offset + 1;
    var id := data[offset..offset + 32];
    offset := offset + 32;
    var recipientID := data[offset..offset + 20];
    offset := offset + 20;
    var ttl := Get32(data[offset..offset + 4]);
    offset := offset + 4;
    var timestamp := ToI64(Get64(data[offset..offset + 8]));
    offset := offset + 8;
    var contentType := data[offset];
    offset := offset + 1;
    var ephemeralPub := data[offset..offset + 32];
    offset := offset + 32;
    var nonce := data[offset..offset + 24];
    offset := offset + 24;
    var payloadLen := Get32(data[offset..offset + 4]);
    offset := offset + 4;
    if payloadLen > MAX_PAYLOAD_LEN || |data| - offset < payloadLen + 32 + 64 + 8 { return None; }
    var payload := data[offset..offset + payloadLen];
    offset := offset + payloadLen;
    var authorPub := data[offset..offset + 32];
    offset := offset + 32;
    var signature := data[offset..offset + 64];
    offset := offset + 64;
    var powNonce := Get64(data[offset..offset + 8]);
    offset := offset + 8;
    var authorX25519 := Zeros(32);
    if |data| >= offset + 32 {
      authorX25519 := data[offset..offset + 32];
    }
    r := Some(Message(version, id, recipientID, ttl, timestamp, contentType, ephemeralPub, nonce,
                      payload, authorPub, authorX25519, signature, powNonce));
  }

  // ----- taking concatenations apart -----

  /** The left part of a concatenation, and what remains after it. */
  lemma Cut(a: seq<byte>, rest: seq<byte>)
    ensures (a + rest)[..|a|] == a && (a + rest)[|a|..] == rest
  {}

  /** Equal concatenations with equally long left parts agree part by part. */
  lemma Peel(a: seq<byte>, b: seq<byte>, c: seq<byte>, d: seq<byte>)
    requires a + b == c + d && |a| == |c|
    ensures a == c && b == d
  {
    Cut(a, b);
    Cut(c, d);
  }

  lemma SliceOfSlice(s: seq<byte>, a: nat, b: nat, i: nat, j: nat)
    requires a <= b <= |s| && i <= j <= b - a
    ensures s[a..b][i..j] == s[a + i..a + j]
    ensures j == b - a ==> s[a..b][i..] == s[a + i..b]
    ensures i == 0 ==> s[a..b][..j] == s[a..a + j]
  {
    forall k | 0 <= k < j - i ensures s[a..b][i..j][k] == s[a + i..a + j][k] {}
  }

  lemma HeaderFields(m: Message, rest: seq<byte>)
    ensures var s := Header(m) + rest;
      && s[0] == m.version && s[1..33] == m.id && s[33..53] == m.recipientID
      && s[53..57] == Put32(m.ttl) && s[57..65] == Put64(ToU64(m.timestamp))
      && s[65] == m.contentType && s[66..98] == m.ephemeralPub && s[98..122] == m.nonce
  {}

  lemma TrailerFields(m: Message, front: seq<byte>, rest: seq<byte>)
    ensures var s, n := front + (Trailer(m) + rest), |front|;
      && s[n..n + 32] == m.authorPub && s[n + 32..n + 96] == m.signature
      && s[n + 96..n + 104] == Put64(m.powNonce)
  {}

  /** Every field at its fixed place in the wire form; a negative timestamp is written as its
      two's complement. */
  lemma WireFields(m: Message)
    ensures var (data, n) := (Wire(m), |m.payload|);
      && |data| == 230 + n + (if m.version >= 2 then 32 else 0)
      && data[0] == m.version && data[1..33] == m.id && data[33..53] == m.recipientID
      && GetBE(data[53..57]) == m.ttl
      && GetBE(data[57..65]) == (if m.timestamp >= 0 then m.timestamp else m.timestamp + 0x1_0000_0000_0000_0000)
      && data[65] == m.contentType && data[66..98] == m.ephemeralPub && data[98..122] == m.nonce
      && GetBE(data[122..126]) == n % 0x1_0000_0000 && data[126..126 + n] == m.payload
      && data[126 + n..158 + n] == m.authorPub && data[158 + n..222 + n] == m.signature
      && GetBE(data[222 + n..230 + n]) == m.powNonce
      && (m.version >= 2 ==> data[230 + n..] == m.authorX25519)
  {
    var tail := if m.version >= 2 then m.authorX25519 else [];
    WireHead(m);
    WireBody(m, tail);
    GetPut32(m.ttl);
    GetPut32(|m.payload| % 0x1_0000_0000);
    GetPut64(ToU64(m.timestamp));
    GetPut64(m.powNonce);
  }

  lemma WireHead(m: Message)
    ensures HasHeader(Wire(m), m)
  {
    var rest := Wire(m)[122..];
    assert Wire(m) == Header(m) + rest;
    HeaderFields(m, rest);
  }

  lemma WireBody(m: Message, tail: seq<byte>)
    requires tail == if m.version >= 2 then m.authorX25519 else []
    ensures var (data, n) := (Wire(m), |m.payload|);
      && |data| == 230 + n + |tail| && data[230 + n..] == tail
      && data[122..126] == Put32(n % 0x1_0000_0000) && data[126..126 + n] == m.payload
      && data[126 + n..158 + n] == m.authorPub && data[158 + n..222 + n] == m.signature
      && data[222 + n..230 + n] == Put64(m.powNonce)
  {
    var len := Put32(|m.payload| % 0x1_0000_0000);
    BodyFields(Header(m), len, m.payload, Trailer(m), tail);
    var front := Header(m) + (len + m.payload);
    Regroup(Header(m), len, m.payload, Trailer(m), tail);
    TrailerFields(m, front, tail);
  }

  lemma Regroup(h: seq<byte>, l: seq<byte>, p: seq<byte>, t: seq<byte>, tail: seq<byte>)
    ensures (h + (l + (p + t))) + tail == (h + (l + p)) + (t + tail)
  {
    Assoc(l, p, t);
    Assoc(h, l + p, t);
    Assoc(h + (l + p), t, tail);
  }

  lemma BodyFields(a: seq<byte>, b: seq<byte>, c: seq<byte>, d: seq<byte>, e: seq<byte>)
    requires |a| == 122 && |b| == 4 && |d| == 104
    ensures var s := (a + (b + (c + d))) + e;
      s[122..126] == b && s[126..126 + |c|] == c && s[230 + |c|..] == e
  {}

  /** The wire form parses back exactly when the payload fits the 16 MiB cap. */
  lemma RoundTrip(m: Message)
    ensures Parse(Wire(m)) == Some(Carried(m)) <==> |m.payload| <= 16_777_216
  {
    if |m.payload| <= MAX_PAYLOAD_LEN { FitsRoundTrip(m); }
  }

  /** Where the variable parts of the wire form lie. */
  lemma WireLayout(m: Message)
    requires |m.payload| <= MAX_PAYLOAD_LEN
    ensures var data, n := Wire(m), |m.payload|;
      && |data| == 230 + n + (if m.version >= 2 then 32 else 0)
      && data[..122] == Header(m) && data[122..126] == Put32(n)
      && data[126..126 + n] == m.payload && data[126 + n..230 + n] == Trailer(m)
      && data[230 + n..] == if m.version >= 2 then m.authorX25519 else []
  {
    var n := |m.payload|;
    var c := Core(m);
    assert c[122..126] == Put32(n) && c[126..126 + n] == m.payload && c[126 + n..] == Trailer(m);
    assert Wire(m)[..230 + n] == c;
    assert c[..230 + n] == c;
    assert Wire(m)[122..126] == c[122..126];
    assert Wire(m)[126..126 + n] == c[126..126 + n];
    assert Wire(m)[126 + n..230 + n] == c[126 + n..230 + n];
  }

  lemma WireTrailer(m: Message)
    requires |m.payload| <= MAX_PAYLOAD_LEN
    ensures var data, n := Wire(m), |m.payload|;
      && data[126 + n..158 + n] == m.authorPub && data[158 + n..222 + n] == m.signature
      && data[222 + n..230 + n] == Put64(m.powNonce)
      && (m.version >= 2 ==> data[230 + n..262 + n] == m.authorX25519)
  {
    WireLayout(m);
    var data, n := Wire(m), |m.payload|;
    assert data == data[..126 + n] + (Trailer(m) + data[230 + n..]);
    TrailerFields(m, data[..126 + n], data[230 + n..]);
    if m.version >= 2 { assert data[230 + n..262 + n] == data[230 + n..]; }
  }

  lemma WireHeader(m: Message)
    requires |m.payload| <= MAX_PAYLOAD_LEN
    ensures HasHeader(Wire(m), m)
  {
    WireLayout(m);
    var data := Wire(m);
    assert data == Header(m) + data[122..];
    HeaderFields(m, data[122..]);
  }

  /** The header fields lie where Parse reads them. */
  predicate HasHeader(s: seq<byte>, m: Message) {
    && |s| >= 122
    && s[0] == m.version && s[1..33] == m.id && s[33..53] == m.recipientID
    && s[53..57] == Put32(m.ttl) && s[57..65] == Put64(ToU64(m.timestamp))
    && s[65] == m.contentType && s[66..98] == m.ephemeralPub && s[98..122] == m.nonce
  }

  /** A byte string with the right parts in the right places parses to the message. */
  lemma ParseOfParts(data: seq<byte>, m: Message)
    requires |m.payload| <= MAX_PAYLOAD_LEN && |data| >= 230 + |m.payload|
    requires HasHeader(data, m)
    requires data[122..126] == Put32(|m.payload|) && data[126..126 + |m.payload|] == m.payload
    requires data[126 + |m.payload|..158 + |m.payload|] == m.authorPub
    requires data[158 + |m.payload|..222 + |m.payload|] == m.signature
    requires data[222 + |m.payload|..230 + |m.payload|] == Put64(m.powNonce)
    requires m.authorX25519 == if |data| >= 262 + |m.payload| then data[230 + |m.payload|..262 + |m.payload|] else Zeros(32)
    ensures Parse(data) == Some(m)
  {
    GetPut32(|m.payload|);
    GetPut32(m.ttl);
    GetPut64(ToU64(m.timestamp));
    GetPut64(m.powNonce);
  }

  lemma FitsRoundTrip(m: Message)
    requires |m.payload| <= MAX_PAYLOAD_LEN
    ensures Parse(Wire(m)) == Some(Carried(m))
  {
    WireLayout(m);
    WireTrailer(m);
    WireHeader(m);
    ParseOfParts(Wire(m), Carried(m));
  }

  /** The converse of HeaderFields: 122 bytes are the header of the fields read from them. */
  lemma HeaderOfFields(m: Message, s: seq<byte>)
    requires HasHeader(s, m)
    ensures Header(m) == s[..122]
  {
    assert s[66..122] == s[66..98] + s[98..122];
    assert s[65..122] == [s[65]] + s[66..122];
    assert s[57..122] == s[57..65] + s[65..122];
    assert s[53..122] == s[53..57] + s[57..122];
    assert s[33..122] == s[33..53] + s[53..122];
    assert s[1..122] == s[1..33] + s[33..122];
    assert s[..122] == [s[0]] + s[1..122];
  }

  lemma TrailerOfFields(m: Message, t: seq<byte>)
    requires |t| == 104
    requires t[..32] == m.authorPub && t[32..96] == m.signature && t[96..] == Put64(m.powNonce)
    ensures Trailer(m) == t
  {
    assert t == t[..32] + (t[32..96] + t[96..]);
  }

  lemma CoreOfParts(m: Message, s: seq<byte>)
    requires |m.payload| < 0x1_0000_0000 && |s| == 230 + |m.payload|
    requires s[..122] == Header(m) && s[122..126] == Put32(|m.payload|)
    requires s[126..126 + |m.payload|] == m.payload && s[126 + |m.payload|..] == Trailer(m)
    ensures Core(m) == s
  {
    var n := |m.payload|;
    assert s == s[..122] + (s[122..126] + (s[126..126 + n] + s[126 + n..]));
  }

  lemma HeaderOfParsed(data: seq<byte>)
    requires Parses(data)
    ensures Header(Parse(data).value) == data[..122]
  {
    PutGet32(data[53..57]);
    PutGet64(data[57..65]);
    HeaderOfFields(Parse(data).value, data);
  }

  lemma TrailerOfParsed(data: seq<byte>)
    requires Parses(data)
    ensures Trailer(Parse(data).value) == data[126 + PayloadLen(data)..230 + PayloadLen(data)]
  {
    var n := PayloadLen(data);
    PutGet64(data[222 + n..230 + n]);
    SliceOfSlice(data, 126 + n, 230 + n, 0, 32);
    SliceOfSlice(data, 126 + n, 230 + n, 32, 96);
    SliceOfSlice(data, 126 + n, 230 + n, 96, 104);
    TrailerOfFields(Parse(data).value, data[126 + n..230 + n]);
  }

  lemma CoreOfParsed(data: seq<byte>)
    requires Parses(data)
    ensures Core(Parse(data).value) == data[..230 + PayloadLen(data)]
  {
    var n := PayloadLen(data);
    PutGet32(data[122..126]);
    HeaderOfParsed(data);
    TrailerOfParsed(data);
    SliceOfSlice(data, 0, 230 + n, 0, 122);
    SliceOfSlice(data, 0, 230 + n, 122, 126);
    SliceOfSlice(data, 0, 230 + n, 126, 126 + n);
    SliceOfSlice(data, 0, 230 + n, 126 + n, 230 + n);
    CoreOfParts(Parse(data).value, data[..230 + n]);
  }

  /** Whatever the payload, the ID is read from where it was written. */
  lemma WireKeepsID(m: Message)
    ensures Parse(Wire(m)).Some? ==> Parse(Wire(m)).value.id == m.id
  {
    var rest := Wire(m)[122..];
    assert Wire(m) == Header(m) + rest;
    HeaderFields(m, rest);
  }

  /** Re-serialising a parsed message gives back the bytes it was read from, completed with a
      zero reply key only when a version 2 message arrived without one. */
  lemma NormalForm(data: seq<byte>)
    requires Parses(data)
    ensures var m := Parse(data).value; var n := 230 + PayloadLen(data);
      && |m.payload| == PayloadLen(data)
      && Core(m) == data[..n]
      && Wire(m) == if m.version < 2 then data[..n]
                    else if |data| >= n + 32 then data[..n + 32]
                    else data[..n] + Zeros(32)
  {
    CoreOfParsed(data);
    var n := 230 + PayloadLen(data);
    if |data| >= n + 32 { assert data[..n + 32] == data[..n] + data[n..n + 32]; }
  }

  /** Parsing is stable: a parsed message survives another round trip up to its reply key. */
  lemma ParsedIsStable(data: seq<byte>)
    requires Parses(data)
    ensures Parse(Wire(Parse(data).value)) == Some(Carried(Parse(data).value))
  {
    NormalForm(data);
    FitsRoundTrip(Parse(data).value);
  }

  // ----- signed bytes and ID pre-image -----

  function Prefix(m: Message): (s: seq<byte>)
    ensures |s| == 69 + 20
  {
    m.recipientID + (Put32(m.ttl) + (Put64(ToU64(m.timestamp))
      + ([m.contentType] + (m.ephemeralPub + m.nonce))))
  }

  /** The bytes that are signed. */
  function SignableBytes(m: Message): seq<byte> {
    [m.version] + (m.id + (Prefix(m) + (m.payload + m.authorX25519)))
  }

  /** The bytes whose SHA-256 is the message ID. */
  function IDPreimage(m: Message): seq<byte> {
    [m.version] + (Prefix(m) + (m.payload + (m.authorPub + m.authorX25519)))
  }

  function ComputeID(sha: HashFn, m: Message): Bytes32 { sha(IDPreimage(m)) }

  method BuildSignable(m: Message) returns (data: seq<byte>)
    ensures data == SignableBytes(m)
  {
    data := [];
    data := data + [m.version];
    data := data + m.id;
    data := data + m.recipientID;
    data := data + Put32(m.ttl);
    data := data + Put64(ToU64(m.timestamp));
    data := data + [m.contentType];
    data := data + m.ephemeralPub;
    data := data + m.nonce;
    assert data == [m.version] + (m.id + Prefix(m));
    data := data + m.payload;
    data := data + m.authorX25519;
  }

  predicate SamePrefix(m: Message, w: Message) {
    && m.version == w.version && m.recipientID == w.recipientID && m.ttl == w.ttl
    && m.timestamp == w.timestamp && m.contentType == w.contentType
    && m.ephemeralPub == w.ephemeralPub && m.nonce == w.nonce
  }

  lemma PrefixInjective(m: Message, w: Message)
    requires m.version == w.version && Prefix(m) == Prefix(w)
    ensures SamePrefix(m, w)
  {
    HeaderFieldsOfPrefix(m);
    HeaderFieldsOfPrefix(w);
    GetPut32(m.ttl);
    GetPut32(w.ttl);
    GetPut64(ToU64(m.timestamp));
    GetPut64(ToU64(w.timestamp));
  }

  lemma HeaderFieldsOfPrefix(m: Message)
    ensures var s := Prefix(m);
      && s[..20] == m.recipientID && s[20..24] == Put32(m.ttl)
      && s[24..32] == Put64(ToU64(m.timestamp)) && s[32] == m.contentType
      && s[33..65] == m.ephemeralPub && s[65..89] == m.nonce
  {}

  /** The places of the signed fields, and of the fields the ID is computed from. */
  lemma SignedFields(m: Message)
    ensures var (s, n) := (SignableBytes(m), |m.payload|);
      && |s| == 154 + n && s[0] == m.version && s[1..33] == m.id && s[33..53] == m.recipientID
      && s[53..57] == Put32(m.ttl) && s[57..65] == Put64(ToU64(m.timestamp)) && s[65] == m.contentType
      && s[66..98] == m.ephemeralPub && s[98..122] == m.nonce && s[122..122 + n] == m.payload
      && s[122 + n..] == m.authorX25519
    ensures var (s, n) := (IDPreimage(m), |m.payload|);
      && |s| == 154 + n && s[0] == m.version && s[1..21] == m.recipientID && s[21..25] == Put32(m.ttl)
      && s[25..33] == Put64(ToU64(m.timestamp)) && s[33] == m.contentType && s[34..66] == m.ephemeralPub
      && s[66..90] == m.nonce && s[90..90 + n] == m.payload && s[90 + n..122 + n] == m.authorPub
      && s[122 + n..] == m.authorX25519
  {
    HeaderFieldsOfPrefix(m);
    SlicesOf(m.id, Prefix(m), m.payload + m.authorX25519, m.version);
    SlicesOf([], Prefix(m), m.payload + (m.authorPub + m.authorX25519), m.version);
    assert SignableBytes(m)[122..] == m.payload + m.authorX25519;
    assert IDPreimage(m)[90..] == m.payload + (m.authorPub + m.authorX25519);
  }

  /** A byte, an optional ID and the common fields: where the slices of the latter lie. */
  lemma SlicesOf(id: seq<byte>, p: seq<byte>, rest: seq<byte>, v: byte)
    requires |p| == 89
    ensures var s, k := [v] + (id + (p + rest)), 1 + |id|;
      && s[0] == v && s[1..k] == id && s[k..k + 20] == p[..20] && s[k + 20..k + 24] == p[20..24]
      && s[k + 24..k + 32] == p[24..32] && s[k + 32] == p[32] && s[k + 33..k + 65] == p[33..65]
      && s[k + 65..k + 89] == p[65..89] && s[k + 89..] == rest
  {}

  /** Equal signed bytes force equality of every field they cover, although the payload has
      no length prefix. */
  lemma SignableInjective(m: Message, w: Message)
    requires SignableBytes(m) == SignableBytes(w)
    ensures SamePrefix(m, w) && m.id == w.id && m.payload == w.payload && m.authorX25519 == w.authorX25519
  {
    assert |SignableBytes(m)| == 154 + |m.payload|;
    assert |SignableBytes(w)| == 154 + |w.payload|;
    var (mr, wr) := (Prefix(m) + (m.payload + m.authorX25519), Prefix(w) + (w.payload + w.authorX25519));
    Peel([m.version], m.id + mr, [w.version], w.id + wr);
    Peel(m.id, mr, w.id, wr);
    Peel(Prefix(m), m.payload + m.authorX25519, Prefix(w), w.payload + w.authorX25519);
    Peel(m.payload, m.authorX25519, w.payload, w.authorX25519);
    PrefixInjective(m, w);
  }

  lemma PreimageInjective(m: Message, w: Message)
    requires IDPreimage(m) == IDPreimage(w)
    ensures SamePrefix(m, w) && m.payload == w.payload
    ensures m.authorPub == w.authorPub && m.authorX25519 == w.authorX25519
  {
    assert |IDPreimage(m)| == 154 + |m.payload|;
    assert |IDPreimage(w)| == 154 + |w.payload|;
    var (mt, wt) := (m.authorPub + m.authorX25519, w.authorPub + w.authorX25519);
    Peel([m.version], Prefix(m) + (m.payload + mt), [w.version], Prefix(w) + (w.payload + wt));
    Peel(Prefix(m), m.payload + mt, Prefix(w), w.payload + wt);
    Peel(m.payload, mt, w.payload, wt);
    Peel(m.authorPub, m.authorX25519, w.authorPub, w.authorX25519);
    PrefixInjective(m, w);
  }

  /** Two messages that carry the ID of their contents and have the same ID agree in
      everything but signature and proof of work, or exhibit a SHA-256 collision. */
  lemma SameIDOrCollision(sha: HashFn, m: Message, w: Message)
    requires m.id == ComputeID(sha, m) && w.id == ComputeID(sha, w) && m.id == w.id
    ensures w == m.(signature := w.signature, powNonce := w.powNonce)
         || (IDPreimage(m) != IDPreimage(w) && sha(IDPreimage(m)) == sha(IDPreimage(w)))
  {
    if IDPreimage(m) == IDPreimage(w) { PreimageInjective(m, w); }
  }
}
