/** The DNS relay (cmd/dns-relay/main.go), the client's receiving side (internal/mesh/dns.go)
    and the path of a frame through both.

    Clocks and the clean-up tickers are not part of the model.  Locks are: the append to a
    recipient's queue is one step. */
module DnsTunnel {
  import opened Bytes
  import opened Reassembly
  import opened DnsNames
  import Base32
  import Messages

  const ID_SIZE: nat := 20
  const MAX_PENDING: nat := 200
  const PER_POLL: nat := 10

  datatype Client = Client(sessionID: string, pending: seq<string>)

  /** The TXT answer: none at all, or the listed strings. */
  datatype Reply = Silent | Txt(records: seq<string>)

  type Clients = map<string, Client>
  type Buffers = map<Key, Buffer<char, ()>>

  function HexDigit(v: nat): char
    requires v < 16
  { if v < 10 then (48 + v) as char else (97 + (v - 10)) as char }

  /** %x of a byte string. */
  function Hex(b: seq<byte>): string {
    if b == [] then [] else [HexDigit(b[0] / 16), HexDigit(b[0] % 16)] + Hex(b[1..])
  }

  /** Two digits per byte, high one first. */
  lemma {:induction false} HexAt(b: seq<byte>, i: nat)
    requires i < |b|
    ensures |Hex(b)| == 2 * |b|
    ensures Hex(b)[2 * i] == "0123456789abcdef"[b[i] / 16] && Hex(b)[2 * i + 1] == "0123456789abcdef"[b[i] % 16]
  {
    HexLength(b);
    HexDigits(b[0]);
    if i > 0 {
      HexAt(b[1..], i - 1);
      assert Hex(b)[2..] == Hex(b[1..]);
    }
  }

  lemma {:induction false} HexLength(b: seq<byte>)
    ensures |Hex(b)| == 2 * |b| && '.' !in Hex(b)
  {
    if b != [] {
      HexLength(b[1..]);
      HexDigits(b[0]);
    }
  }

  lemma HexDigits(x: byte)
    ensures HexDigit(x / 16) == "0123456789abcdef"[x / 16] && HexDigit(x % 16) == "0123456789abcdef"[x % 16]
    ensures HexDigit(x / 16) != '.' && HexDigit(x % 16) != '.'
  {}

  /** Different byte strings have different texts. */
  lemma HexInjective(a: seq<byte>, b: seq<byte>)
    requires Hex(a) == Hex(b)
    ensures a == b
  {
    HexLength(a);
    HexLength(b);
    forall i | 0 <= i < |a| ensures a[i] == b[i] {
      HexAt(a, i);
      HexAt(b, i);
      DigitsDistinct(a[i] / 16, b[i] / 16);
      DigitsDistinct(a[i] % 16, b[i] % 16);
    }
  }

  lemma DigitsDistinct(x: nat, y: nat)
    requires x < 16 && y < 16 && "0123456789abcdef"[x] == "0123456789abcdef"[y]
    ensures x == y
  {}

  /** trimPending: only the newest 200 stay. */
  function Trim(pending: seq<string>): (r: seq<string>)
    ensures |r| <= MAX_PENDING
  {
    if |pending| > MAX_PENDING then pending[|pending| - MAX_PENDING..] else pending
  }

  function Enqueue(c: Client, record: string): Client { c.(pending := Trim(c.pending + [record])) }

  function EnqueueAll(cs: Clients, sender: string, record: string): Clients {
    map id | id in cs :: if id != sender then Enqueue(cs[id], record) else cs[id]
  }

  /** "{seq}.0.1.{session}.{base32}": the whole frame in one record. */
  function Record(seqNo: int, session: string, text: string): string
    requires seqNo >= 0
  {
    Dec(seqNo) + ("." + ("0" + ("." + ("1" + ("." + (session + ("." + text)))))))
  }

  /** What the relay does with a completed base32 text. */
  function Route(cs: Clients, seqNo: int, session: string, text: string): (Clients, Reply)
    requires seqNo >= 0
  {
    var frame := Base32.Decode(Base32.ToUpper(text));
    if frame.None? || |frame.value| < 2 * ID_SIZE then (cs, Silent) else
      var f := frame.value;
      var sender, recipient := Hex(f[..ID_SIZE]), Hex(f[ID_SIZE..2 * ID_SIZE]);
      var record := Record(seqNo, session, text);
      if f[ID_SIZE..2 * ID_SIZE] == Zeros(ID_SIZE) then (EnqueueAll(cs, sender, record), Txt(["ok"]))
      else if recipient in cs then (cs[recipient := Enqueue(cs[recipient], record)], Txt(["ok"]))
      else (cs, Txt(["ok"]))
  }

  /** A data query: store the chunk, and route the text when it is complete. */
  function Sent(cs: Clients, bufs: Buffers, ls: seq<string>): (Clients, Buffers, Reply) {
    var c := ReadSend(ls);
    if c.None? then (cs, bufs, Silent) else
      var (bufs', done) := Arrive(bufs, c.value, false);
      if done.None? then (cs, bufs', Txt(["ack"])) else
        MarkerSeq(ls);
        var (cs', reply) := Route(cs, c.value.key.1, c.value.key.0, done.value.0);
        (cs', bufs', reply)
  }

  /** Labels that are no chunk get no answer and change nothing; of completed texts exactly those
      that decode to a sender and a recipient at least are answered, the others are dropped. */
  lemma RejectedQueries(cs: Clients, bufs: Buffers, ls: seq<string>, seqNo: nat, session: string, text: string)
    ensures ReadSend(ls).None? ==> Sent(cs, bufs, ls) == (cs, bufs, Silent)
    ensures var f := Base32.Decode(Base32.ToUpper(text)); var r := Route(cs, seqNo, session, text);
      if f.Some? && |f.value| >= 40 then r.1 == Txt(["ok"]) else r == (cs, Silent)
  {}

  /** The sequence number of a marker is never negative. */
  lemma MarkerSeq(ls: seq<string>)
    ensures ReadSend(ls).Some? ==> ReadSend(ls).value.key.1 >= 0
  {
    var k := MarkerIndex(ls);
    if k < |ls| { assert IsMarker(ls[k]); }
  }

  /** Registration (re)names the session and keeps what is queued. */
  function Registered(cs: Clients, ls: seq<string>): (Clients, Reply) {
    if |ls| < 3 then (cs, Silent)
    else (cs[ls[1] := Client(ls[2], if ls[1] in cs then cs[ls[1]].pending else [])], Txt(["ok"]))
  }

  ghost predicate HasSession(cs: Clients, session: string) { exists id :: id in cs && cs[id].sessionID == session }

  /** A poll takes the oldest records, at most ten, from a client of the session: what it
      returns and what stays queued are the old queue. */
  ghost predicate Polled(cs: Clients, ls: seq<string>, cs': Clients, reply: Reply) {
    if |ls| < 2 || !HasSession(cs, ls[1]) then cs' == cs && reply == Silent
    else exists id :: PolledFrom(cs, ls[1], id, cs', reply)
  }

  ghost predicate PolledFrom(cs: Clients, session: string, id: string, cs': Clients, reply: Reply) {
    && id in cs && cs[id].sessionID == session
    && id in cs' && cs' == cs[id := cs'[id]] && cs'[id].sessionID == session
    && reply.Txt? && |reply.records| <= PER_POLL
    && reply.records + cs'[id].pending == cs[id].pending
    && (|reply.records| < PER_POLL ==> cs'[id].pending == [])
  }

  class Relay {
    const domain: string
    var clients: Clients
    var reassembly: Buffers

    constructor (domain: string)
      ensures this.domain == domain && clients == map[] && reassembly == map[]
    {
      this.domain := domain;
      clients, reassembly := map[], map[];
    }

    /** handleDNS: names outside the domain, or a command with too few labels, get no answer. */
    method HandleQuery(qname: string) returns (reply: Reply)
      modifies this
      ensures var ls := CommandLabels(qname, domain);
        && (ls.None? ==> reply == Silent && unchanged(this))
        && (ls.Some? && ls.value[0] == "reg" ==>
              (clients, reply) == Registered(old(clients), ls.value) && reassembly == old(reassembly))
        && (ls.Some? && ls.value[0] == "poll" ==>
              Polled(old(clients), ls.value, clients, reply) && reassembly == old(reassembly))
        && (ls.Some? && ls.value[0] != "reg" && ls.value[0] != "poll" ==>
              (clients, reassembly, reply) == Sent(old(clients), old(reassembly), ls.value))
    {
      reply := Silent;
      var ls := CommandLabels(qname, domain);
      if ls.None? { return; }
      if ls.value[0] == "reg" {
        reply := HandleRegister(ls.value);
      } else if ls.value[0] == "poll" {
        reply := HandlePoll(ls.value);
      } else {
        reply := HandleSend(ls.value);
      }
    }

    method HandleRegister(ls: seq<string>) returns (reply: Reply)
      modifies this`clients
      ensures (clients, reply) == Registered(old(clients), ls)
      ensures reply == if |ls| < 3 then Silent else Txt(["ok"])
    {
      reply := Silent;
      if |ls| < 3 { return; }
      if ls[1] in clients {
        clients := clients[ls[1] := clients[ls[1]].(sessionID := ls[2])];
      } else {
        clients := clients[ls[1] := Client(ls[2], [])];
      }
      reply := Txt(["ok"]);
    }

    method HandlePoll(ls: seq<string>) returns (reply: Reply)
      modifies this`clients
      ensures Polled(old(clients), ls, clients, reply)
    {
      reply := Silent;
      if |ls| < 2 { return; }
      if exists id :: id in clients && clients[id].sessionID == ls[1] {
        var id :| id in clients && clients[id].sessionID == ls[1];
        var found := clients[id];
        var maxPerPoll := PER_POLL;
        if |found.pending| < maxPerPoll { maxPerPoll := |found.pending|; }
        var toSend := found.pending[..maxPerPoll];
        clients := clients[id := found.(pending := found.pending[maxPerPoll..])];
        reply := Txt(toSend);
        assert PolledFrom(old(clients), ls[1], id, clients, reply);
      }
    }

    method HandleSend(ls: seq<string>) returns (reply: Reply)
      modifies this
      ensures (clients, reassembly, reply) == Sent(old(clients), old(reassembly), ls)
    {
      reply := Silent;
      var seqIdx := FindMarker(ls);
      if seqIdx < 1 || seqIdx + 3 >= |ls| { return; }
      var seqNo := Scan(ls[seqIdx][1..]);
      var idx, total := Scan(ls[seqIdx + 1]), Scan(ls[seqIdx + 2]);
      if total <= 0 || total > MAX_TOTAL || idx < 0 || idx >= total { return; }
      var chunkData := JoinAll(ls[..seqIdx]);
      var c: Chunk<Key, char, ()> := Chunk((ls[seqIdx + 3], seqNo), idx, total, chunkData, None);
      assert ReadSend(ls) == Some(c);
      MarkerSeq(ls);
      var done;
      reassembly, done := Collect(reassembly, c, false);
      if done.None? {
        reply := Txt(["ack"]);
        return;
      }
      reply := Deliver(seqNo, ls[seqIdx + 3], done.value.0);
    }

    method Deliver(seqNo: int, session: string, full: string) returns (reply: Reply)
      requires seqNo >= 0
      modifies this`clients
      ensures (clients, reply) == Route(old(clients), seqNo, session, full)
    {
      reply := Silent;
      var frame := Base32.Decode(Base32.ToUpper(full));
      if frame.None? || |frame.value| < 2 * ID_SIZE { return; }
      var senderID := Hex(frame.value[..ID_SIZE]);
      var recipientID := Hex(frame.value[ID_SIZE..2 * ID_SIZE]);
      var allZeros := true;
      for i := ID_SIZE to 2 * ID_SIZE
        invariant allZeros && forall k :: ID_SIZE <= k < i ==> frame.value[k] == 0
      {
        if frame.value[i] != 0 {
          allZeros := false;
          assert frame.value[ID_SIZE..2 * ID_SIZE][i - ID_SIZE] != 0;
          break;
        }
      }
      assert allZeros <==> frame.value[ID_SIZE..2 * ID_SIZE] == Zeros(ID_SIZE);
      var deliveryData := Record(seqNo, session, full);
      if allZeros {
        EnqueueOthers(senderID, deliveryData);
      } else if recipientID in clients {
        clients := clients[recipientID := Enqueue(clients[recipientID], deliveryData)];
      }
      reply := Txt(["ok"]);
    }

    /** The broadcast loop over the clients. */
    method EnqueueOthers(sender: string, record: string)
      modifies this`clients
      ensures clients == EnqueueAll(old(clients), sender, record)
    {
      ghost var before := clients;
      var rest := clients.Keys;
      while rest != {}
        invariant rest <= before.Keys && clients.Keys == before.Keys
        invariant forall id :: id in before ==>
          clients[id] == if id in rest then before[id] else EnqueueAll(before, sender, record)[id]
        decreases rest
      {
        var id :| id in rest;
        rest := rest - {id};
        if id != sender {
          clients := clients[id := Enqueue(clients[id], record)];
        }
      }
    }
  }

  /** strings.Join(labels, ""). */
  method JoinAll(ls: seq<string>) returns (s: string)
    ensures s == Concat(ls)
  {
    s := [];
    for i := 0 to |ls|
      invariant s == Concat(ls[..i])
    {
      s := s + ls[i];
      assert ls[..i + 1][..i] == ls[..i];
    }
    assert ls[..|ls|] == ls;
  }

  // ----- the client's receiving side -----

  /** The text before and after the first dot. */
  function CutDot(s: string): Option<(string, string)> {
    if s == [] then None
    else if s[0] == '.' then Some(([], s[1..]))
    else
      var r := CutDot(s[1..]);
      if r.None? then None else Some(([s[0]] + r.value.0, r.value.1))
  }

  lemma {:induction false} CutAtDot(l: string, t: string)
    requires NoDot(l)
    ensures CutDot(l + ("." + t)) == Some((l, t))
  {
    if l == [] {
      assert l + ("." + t) == "." + t;
      assert ("." + t)[1..] == t;
    } else {
      assert (l + ("." + t))[1..] == l[1..] + ("." + t);
      CutAtDot(l[1..], t);
      assert [l[0]] + l[1..] == l;
    }
  }

  /** strings.SplitN(record, ".", 5) with all five parts. */
  function Fields(record: string): Option<(string, string, string, string, string)> {
    var a := CutDot(record);
    if a.None? then None else
      var b := CutDot(a.value.1);
      if b.None? then None else
        var c := CutDot(b.value.1);
        if c.None? then None else
          var d := CutDot(c.value.1);
          if d.None? then None else Some((a.value.0, b.value.0, c.value.0, d.value.0, d.value.1))
  }

  /** processIncoming's reading of a TXT record. */
  function ReadRecord(record: string): Option<Chunk<string, byte, ()>> {
    var f := Fields(record);
    if f.None? then None else
      var idx, total := Scan(f.value.1), Scan(f.value.2);
      if total <= 0 || total > MAX_TOTAL || idx < 0 || idx >= total then None else
        var data := Base32.Decode(Base32.ToUpper(f.value.4));
        if data.None? then None else Some(Chunk(ClientKey(f.value.3, Scan(f.value.0)), idx, total, data.value, None))
  }

  /** Whatever the record: it is read exactly when it has five fields, an index below a total of
      at most 100, and base32 data. */
  lemma RecordInRange(record: string)
    ensures ReadRecord(record).Some? ==> Fields(record).Some?
    ensures Fields(record).Some? ==>
      var f := Fields(record).value;
      (ReadRecord(record).Some? <==> 0 <= Scan(f.1) < Scan(f.2) <= 100 && Base32.AllInAlphabet(Base32.ToUpper(f.4)))
    ensures ReadRecord(record).Some? ==>
      ReadRecord(record).value.idx == Scan(Fields(record).value.1) && ReadRecord(record).value.total == Scan(Fields(record).value.2)
  {}

  class Tunnel {
    var reassembly: map<string, Buffer<byte, ()>>

    constructor ()
      ensures reassembly == map[]
    { reassembly := map[]; }

    /** Returns the frame a record completes. */
    method ProcessIncoming(record: string) returns (frame: Option<seq<byte>>)
      modifies this
      ensures ReadRecord(record).None? ==> frame == None && reassembly == old(reassembly)
      ensures ReadRecord(record).Some? ==>
        var (bufs, done) := Arrive(old(reassembly), ReadRecord(record).value, true);
        reassembly == bufs && frame == if done.None? then None else Some(done.value.0)
    {
      frame := None;
      var r := ReadRecord(record);
      if r.None? { return; }
      var done;
      reassembly, done := Collect(reassembly, r.value, true);
      if done.Some? { frame := Some(done.value.0); }
    }
  }

  // ----- a frame through the tunnel -----

  /** The chunk a query contributes to the relay's buffers, if any. */
  function NameChunk(name: string, domain: string): Option<Chunk<Key, char, ()>> {
    var ls := CommandLabels(name, domain);
    if ls.None? || ls.value[0] == "reg" || ls.value[0] == "poll" then None else ReadSend(ls.value)
  }

  /** The chunks of a list of queries, in order. */
  function NameChunks(names: seq<string>, domain: string): seq<Chunk<Key, char, ()>> {
    if names == [] then [] else
      NameChunks(names[..|names| - 1], domain)
        + match NameChunk(names[|names| - 1], domain) case Some(c) => [c] case None => []
  }

  /** The relay's buffers after a list of queries: the others do not touch them. */
  function BufsAfter(bufs: Buffers, names: seq<string>, domain: string): Buffers {
    if names == [] then bufs else
      var b := BufsAfter(bufs, names[..|names| - 1], domain);
      match NameChunk(names[|names| - 1], domain)
      case Some(c) => Arrive(b, c, false).0
      case None => b
  }

  lemma {:induction false} BufsAreRun(bufs: Buffers, names: seq<string>, domain: string)
    ensures BufsAfter(bufs, names, domain) == Run(bufs, NameChunks(names, domain), false)
  {
    if names != [] {
      BufsAreRun(bufs, names[..|names| - 1], domain);
      var front := NameChunks(names[..|names| - 1], domain);
      var c := NameChunk(names[|names| - 1], domain);
      if c.Some? {
        assert (front + [c.value])[..|front|] == front;
      } else {
        assert front + [] == front;
      }
    }
  }

  /** A query is one of the frame's, or it belongs to another session or sequence number. */
  ghost predicate OfFrameOrOther(name: string, frame: seq<byte>, seqNo: nat, session: string, domain: string) {
    NameChunk(name, domain).Some? && NameChunk(name, domain).value.key == (session, seqNo) ==>
      exists i: nat :: i < |FrameChunks(frame)| && name == FrameQuery(frame, seqNo, i, session, domain)
  }

  /** The chunk query i of a frame carries. */
  function FrameChunk(frame: seq<byte>, seqNo: nat, i: nat, session: string): Chunk<Key, char, ()>
    requires i < |FrameChunks(frame)|
  {
    Chunk((session, seqNo as int), i, |FrameChunks(frame)|, FrameChunks(frame)[i], None)
  }

  lemma FrameQueryChunk(frame: seq<byte>, seqNo: nat, i: nat, session: string, domain: string)
    requires GoodSession(session) && i < |FrameChunks(frame)| <= MAX_TOTAL
    ensures NameChunk(FrameQuery(frame, seqNo, i, session, domain), domain)
         == Some(FrameChunk(frame, seqNo, i, session))
  {
    FrameChunksFacts(frame);
    QueryIsRead(FrameChunks(frame)[i], seqNo, i, |FrameChunks(frame)|, session, domain);
  }

  lemma QueryGenuine(name: string, frame: seq<byte>, seqNo: nat, session: string, domain: string)
    requires GoodSession(session) && |FrameChunks(frame)| <= MAX_TOTAL
    requires OfFrameOrOther(name, frame, seqNo, session, domain) && NameChunk(name, domain).Some?
    ensures GenuineChunk(NameChunk(name, domain).value, (session, seqNo as int), FrameChunks(frame), None)
  {
    if NameChunk(name, domain).value.key == (session, seqNo) {
      var i: nat :| i < |FrameChunks(frame)| && name == FrameQuery(frame, seqNo, i, session, domain);
      FrameQueryChunk(frame, seqNo, i, session, domain);
    }
  }

  lemma GenuineSnoc(cs: seq<Chunk<Key, char, ()>>, c: Chunk<Key, char, ()>, k: Key, parts: seq<string>)
    requires Genuine(cs, k, parts, None) && GenuineChunk(c, k, parts, None)
    ensures Genuine(cs + [c], k, parts, None)
  {}

  lemma {:induction false} QueriesGenuine(names: seq<string>, frame: seq<byte>, seqNo: nat, session: string, domain: string)
    requires GoodSession(session) && |FrameChunks(frame)| <= MAX_TOTAL
    requires forall i :: 0 <= i < |names| ==> OfFrameOrOther(names[i], frame, seqNo, session, domain)
    ensures Genuine(NameChunks(names, domain), (session, seqNo as int), FrameChunks(frame), None)
  {
    if names != [] {
      var n := |names| - 1;
      QueriesGenuine(names[..n], frame, seqNo, session, domain);
      if NameChunk(names[n], domain).Some? { QueryGenuine(names[n], frame, seqNo, session, domain); }
    }
  }

  /** The relay completes a frame at the first moment all its queries are there. */
  lemma RelayCompletes(bufs: Buffers, names: seq<string>, i: nat, frame: seq<byte>, seqNo: nat, session: string, domain: string)
    requires GoodSession(session) && i < |FrameChunks(frame)| <= MAX_TOTAL && (session, seqNo as int) !in bufs
    requires forall i :: 0 <= i < |names| ==> OfFrameOrOther(names[i], frame, seqNo, session, domain)
    requires !Covers(SeenIdx(NameChunks(names, domain), (session, seqNo as int)), |FrameChunks(frame)|)
    ensures var r := Arrive(BufsAfter(bufs, names, domain), FrameChunk(frame, seqNo, i, session), false);
      r.1 == if Covers(SeenIdx(NameChunks(names, domain), (session, seqNo as int)) + {i}, |FrameChunks(frame)|)
             then Some((Base32.Encode(frame), None)) else None
  {
    var k := (session, seqNo as int);
    var front := NameChunks(names, domain);
    var c := FrameChunk(frame, seqNo, i, session);
    QueriesGenuine(names, frame, seqNo, session, domain);
    BufsAreRun(bufs, names, domain);
    var cs := front + [c];
    assert cs[..|cs| - 1] == front;
    CompletesExactly(bufs, cs, false, k, FrameChunks(frame), None);
    FrameChunksFacts(frame);
  }

  lemma RecordFields(seqNo: nat, session: string, text: string)
    requires NoDot(session)
    ensures Fields(Record(seqNo, session, text)) == Some((Dec(seqNo), "0", "1", session, text))
  {
    DecFacts(seqNo);
    var r3 := session + ("." + text);
    var r2 := "1" + ("." + r3);
    var r1 := "0" + ("." + r2);
    CutAtDot(Dec(seqNo), r1);
    CutAtDot("0", r2);
    CutAtDot("1", r3);
    CutAtDot(session, text);
  }

  /** The relay's record decodes at the client to the frame. */
  lemma RecordIsRead(frame: seq<byte>, seqNo: nat, session: string)
    requires NoDot(session)
    ensures ReadRecord(Record(seqNo, session, Base32.Encode(frame))) == Some(Chunk(ClientKey(session, seqNo), 0, 1, frame, None))
  {
    var text := Base32.Encode(frame);
    RecordFields(seqNo, session, text);
    ScanDec(seqNo);
    ScanDec(0);
    ScanDec(1);
    SmallDec();
    Base32.UpperIsUpper(text);
    Base32.DecodeEncode(frame);
  }

  lemma SmallDec()
    ensures Dec(0) == "0" && Dec(1) == "1"
  {
    assert Digits(10, 1) == Digits(10, 0) + [1];
  }

  lemma ClientReceives(bufs: map<string, Buffer<byte, ()>>, frame: seq<byte>, seqNo: nat, session: string)
    requires NoDot(session) && ClientKey(session, seqNo) !in bufs
    ensures ReadRecord(Record(seqNo, session, Base32.Encode(frame))).Some?
    ensures var r := Arrive(bufs, ReadRecord(Record(seqNo, session, Base32.Encode(frame))).value, true);
      r.1 == Some((frame, None)) && r.0 == bufs
  {
    RecordIsRead(frame, seqNo, session);
    SingleChunk<string, byte, ()>(bufs, ClientKey(session, seqNo), frame);
  }

  /** A one-chunk transfer completes at once. */
  lemma SingleChunk<K, T, D>(bufs: map<K, Buffer<T, D>>, k: K, data: seq<T>)
    requires k !in bufs
    ensures Arrive(bufs, Chunk(k, 0, 1, data, None), true) == (bufs, Some((data, None)))
  {
    var b := Added(bufs, Chunk(k, 0, 1, data, None));
    assert b.chunks == map[0 := data];
    assert Assemble(b.chunks, 0) == [];
    assert [] + data == data;
    assert bufs - {k} == bufs;
  }

  function Sender(frame: seq<byte>): string
    requires |frame| >= ID_SIZE
  { Hex(frame[..ID_SIZE]) }

  function Recipient(frame: seq<byte>): string
    requires |frame| >= 2 * ID_SIZE
  { Hex(frame[ID_SIZE..2 * ID_SIZE]) }

  predicate IsBroadcast(frame: seq<byte>)
    requires |frame| >= 2 * ID_SIZE
  { frame[ID_SIZE..2 * ID_SIZE] == Zeros(ID_SIZE) }

  /** The clients a frame is for: all but its sender, or the one it names. */
  predicate IsFor(frame: seq<byte>, id: string)
    requires |frame| >= 2 * ID_SIZE
  {
    if IsBroadcast(frame) then id != Sender(frame) else id == Recipient(frame)
  }

  /** The queue gained the record, losing at most its oldest one. */
  predicate Gained(c: Client, c': Client, record: string) {
    c' == c.(pending := Trim(c.pending + [record])) && record in c'.pending
  }

  /** The queue of every registered client the frame is for gained its record, no other client
      changed and none was added, and the record decodes at a client to the identical frame. */
  ghost predicate Routed(cs: Clients, cs': Clients, frame: seq<byte>, seqNo: nat, session: string)
    requires |frame| >= 2 * ID_SIZE
  {
    var record := Record(seqNo, session, Base32.Encode(frame));
    && cs'.Keys == cs.Keys
    && (forall id :: id in cs ==> if IsFor(frame, id) then Gained(cs[id], cs'[id], record) else cs'[id] == cs[id])
    && ReadRecord(record) == Some(Chunk(ClientKey(session, seqNo), 0, 1, frame, None))
  }

  /** The clients after a frame's record was queued. */
  function Queued(cs: Clients, frame: seq<byte>, record: string): Clients
    requires |frame| >= 2 * ID_SIZE
  {
    if IsBroadcast(frame) then EnqueueAll(cs, Sender(frame), record)
    else if Recipient(frame) in cs then cs[Recipient(frame) := Enqueue(cs[Recipient(frame)], record)]
    else cs
  }

  lemma RouteOfFrame(cs: Clients, frame: seq<byte>, seqNo: nat, session: string)
    requires |frame| >= 2 * ID_SIZE
    ensures Route(cs, seqNo, session, Base32.Encode(frame))
         == (Queued(cs, frame, Record(seqNo, session, Base32.Encode(frame))), Txt(["ok"]))
  {
    Base32.UpperIsUpper(Base32.Encode(frame));
    Base32.DecodeEncode(frame);
  }

  lemma QueuedFor(cs: Clients, frame: seq<byte>, record: string, id: string)
    requires |frame| >= 2 * ID_SIZE && id in cs
    ensures Queued(cs, frame, record).Keys == cs.Keys
    ensures if IsFor(frame, id) then Gained(cs[id], Queued(cs, frame, record)[id], record)
            else Queued(cs, frame, record)[id] == cs[id]
  {
    TrimKeepsLast(cs[id].pending, record);
  }

  lemma RouteQueues(cs: Clients, frame: seq<byte>, seqNo: nat, session: string)
    requires NoDot(session) && |frame| >= 2 * ID_SIZE
    ensures var r := Route(cs, seqNo, session, Base32.Encode(frame));
      r.1 == Txt(["ok"]) && Routed(cs, r.0, frame, seqNo, session)
  {
    var record := Record(seqNo, session, Base32.Encode(frame));
    RouteOfFrame(cs, frame, seqNo, session);
    RecordIsRead(frame, seqNo, session);
    QueuedIsRouted(cs, frame, record, seqNo, session);
  }

  lemma QueuedIsRouted(cs: Clients, frame: seq<byte>, record: string, seqNo: nat, session: string)
    requires |frame| >= 2 * ID_SIZE && record == Record(seqNo, session, Base32.Encode(frame))
    requires ReadRecord(record) == Some(Chunk(ClientKey(session, seqNo), 0, 1, frame, None))
    ensures Routed(cs, Queued(cs, frame, record), frame, seqNo, session)
  {
    forall id | id in cs
      ensures Queued(cs, frame, record).Keys == cs.Keys
      ensures if IsFor(frame, id) then Gained(cs[id], Queued(cs, frame, record)[id], record)
              else Queued(cs, frame, record)[id] == cs[id]
    {
      QueuedFor(cs, frame, record, id);
    }
    assert Queued(cs, frame, record).Keys == cs.Keys;
  }

  lemma TrimKeepsLast(pending: seq<string>, record: string)
    ensures record in Trim(pending + [record])
  {
    var t := Trim(pending + [record]);
    assert t[|t| - 1] == record;
  }

  /** A frame, for one recipient or for all, sent in at most 100 queries that reach the relay in
      any order, repeated and interleaved with queries of other sessions and sequence numbers:
      each query before the last gap closes is acknowledged and leaves the queues alone; the
      one that closes it is answered "ok" and appends one record to the queue of each
      registered client the frame is for (of none, if its recipient is not registered), and
      that record decodes at the client to the identical frame. */
  lemma FrameThroughTunnel(cs: Clients, bufs: Buffers, names: seq<string>, i: nat, frame: seq<byte>,
                           seqNo: nat, session: string, domain: string)
    requires GoodSession(session) && i < |FrameChunks(frame)| <= MAX_TOTAL && (session, seqNo as int) !in bufs
    requires forall i :: 0 <= i < |names| ==> OfFrameOrOther(names[i], frame, seqNo, session, domain)
    requires !Covers(SeenIdx(NameChunks(names, domain), (session, seqNo as int)), |FrameChunks(frame)|)
    requires |frame| >= 2 * ID_SIZE
    ensures CommandLabels(FrameQuery(frame, seqNo, i, session, domain), domain).Some?
    ensures var ls := CommandLabels(FrameQuery(frame, seqNo, i, session, domain), domain).value;
      var r := Sent(cs, BufsAfter(bufs, names, domain), ls);
      if Covers(SeenIdx(NameChunks(names, domain), (session, seqNo as int)) + {i}, |FrameChunks(frame)|)
      then r.2 == Txt(["ok"]) && Routed(cs, r.0, frame, seqNo, session)
      else r.2 == Txt(["ack"]) && r.0 == cs
  {
    var ls := QueryLabels(FrameChunks(frame)[i], seqNo, i, |FrameChunks(frame)|, session);
    FrameChunksFacts(frame);
    QueryIsRead(FrameChunks(frame)[i], seqNo, i, |FrameChunks(frame)|, session, domain);
    RelayCompletes(bufs, names, i, frame, seqNo, session, domain);
    SentByArrival(cs, BufsAfter(bufs, names, domain), ls, FrameChunk(frame, seqNo, i, session));
    RouteQueues(cs, frame, seqNo, session);
  }

  /** A data query is acknowledged or routed according to what its chunk completes. */
  lemma SentByArrival(cs: Clients, bufs: Buffers, ls: seq<string>, c: Chunk<Key, char, ()>)
    requires ReadSend(ls) == Some(c) && c.key.1 >= 0
    ensures var done := Arrive(bufs, c, false).1; var r := Sent(cs, bufs, ls);
      if done.None? then r.0 == cs && r.2 == Txt(["ack"])
      else (r.0, r.2) == Route(cs, c.key.1, c.key.0, done.value.0)
  {}

  // ----- the size of a record -----

  /** A character-string of a TXT record has at most 255 octets (section 3.3 of RFC 1035). */
  predicate TxtFits(s: string) { |s| <= 255 }

  /** A frame's record fits one character-string exactly when its base32 text leaves room for
      sequence number, session and the six characters between. */
  lemma RecordFits(frame: seq<byte>, seqNo: nat, session: string)
    ensures TxtFits(Record(seqNo, session, Base32.Encode(frame))) <==>
      Base32.CharCount(|frame|) + |Dec(seqNo)| + |session| <= 249
  {}

  /** The frame SendMessage builds: sender, recipient, message. */
  function MessageFrame(sender: Bytes20, recipient: Bytes20, m: Messages.Message): seq<byte> {
    sender + (recipient + Messages.Wire(m))
  }

  /** So no message ever fits: even one without payload needs 432 characters. */
  lemma NoMessageFits(sender: Bytes20, recipient: Bytes20, m: Messages.Message, seqNo: nat, session: string)
    ensures |Base32.Encode(MessageFrame(sender, recipient, m))| >= 432
    ensures !TxtFits(Record(seqNo, session, Base32.Encode(MessageFrame(sender, recipient, m))))
  {
    assert |MessageFrame(sender, recipient, m)| >= 270;
  }
}
