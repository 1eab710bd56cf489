/** Answering MANIFEST, WANT and HAVE (handleConnection in internal/mesh/transport.go), and
    how often a snapshot message crosses the wire. */
module Sync {
  import opened Bytes
  import opened Messages
  import opened Frames
  import Bloom
  import Hold
  import Node

  type Id = Bytes32

  function Prefix(id: Id): Bytes8 { id[..8] }

  /** A prefix padded with zeros to a full ID, as a WANT entry. */
  function Expand(p: Bytes8): Id { p + Zeros(24) }

  predicate IsPrefixOnly(id: Id) { forall i :: 8 <= i < 32 ==> id[i] == 0 }

  function ManifestOf(snapshot: seq<Message>): (ps: seq<Bytes8>)
    ensures |ps| == |snapshot|
  {
    seq(|snapshot|, i requires 0 <= i < |snapshot| => Prefix(snapshot[i].id))
  }

  ghost function PrefixSet(snapshot: seq<Message>): set<Bytes8> {
    set i | 0 <= i < |snapshot| :: Prefix(snapshot[i].id)
  }

  /** What a receiver asks for: every listed prefix it does not have, in order, repeats kept. */
  function WantFor(prefixes: seq<Bytes8>, mine: set<Bytes8>): seq<Id> {
    if prefixes == [] then [] else
      var n := |prefixes| - 1;
      WantFor(prefixes[..n], mine) + if prefixes[n] in mine then [] else [Expand(prefixes[n])]
  }

  // ----- answering one WANT entry -----

  function WithPrefix(snapshot: seq<Message>, p: Bytes8): seq<Message> {
    if snapshot == [] then [] else
      var n := |snapshot| - 1;
      WithPrefix(snapshot[..n], p) + if Prefix(snapshot[n].id) == p then [snapshot[n]] else []
  }

  /** The first snapshot message with this ID. */
  function FirstExact(snapshot: seq<Message>, id: Id): seq<Message> {
    if snapshot == [] then []
    else if snapshot[0].id == id then [snapshot[0]]
    else FirstExact(snapshot[1..], id)
  }

  /** A prefix entry is answered with every matching snapshot message; a full ID with the
      first exact match, or else with the stored file. */
  function Answer(id: Id, snapshot: seq<Message>, files: map<Id, seq<byte>>): seq<Message> {
    if IsPrefixOnly(id) then WithPrefix(snapshot, Prefix(id))
    else if FirstExact(snapshot, id) != [] then FirstExact(snapshot, id)
    else if id in files && Parse(files[id]).Some? then [Parse(files[id]).value]
    else []
  }

  function AnswerAll(ids: seq<Id>, snapshot: seq<Message>, files: map<Id, seq<byte>>): seq<Message> {
    if ids == [] then [] else
      var n := |ids| - 1;
      AnswerAll(ids[..n], snapshot, files) + Answer(ids[n], snapshot, files)
  }

  function MsgFrames(ms: seq<Message>): (fs: seq<Frame>)
    ensures |fs| == |ms|
  {
    seq(|ms|, i requires 0 <= i < |ms| => Msg(Wire(ms[i])))
  }

  /** MarkForwarded for every message sent, in order. */
  function MarkSent(s: Hold.HoldState, ms: seq<Message>, now: int): (r: Hold.HoldState)
    ensures r.files == s.files
  {
    if ms == [] then s else
      var n := |ms| - 1;
      Hold.Forwarded(MarkSent(s, ms[..n], now), ms[n].id, now)
  }

  lemma {:induction false} EncodeAllConcat(fs: seq<Frame>, gs: seq<Frame>)
    ensures EncodeAll(fs + gs) == EncodeAll(fs) + EncodeAll(gs)
  {
    if fs == [] {
      assert fs + gs == gs;
    } else {
      assert (fs + gs)[1..] == fs[1..] + gs;
      EncodeAllConcat(fs[1..], gs);
      Assoc(Encode(fs[0]), EncodeAll(fs[1..]), EncodeAll(gs));
    }
  }

  lemma EncodeOneMore(ms: seq<Message>, m: Message)
    ensures EncodeAll(MsgFrames(ms + [m])) == EncodeAll(MsgFrames(ms)) + Encode(Msg(Wire(m)))
  {
    assert MsgFrames(ms + [m]) == MsgFrames(ms) + [Msg(Wire(m))];
    EncodeAllConcat(MsgFrames(ms), [Msg(Wire(m))]);
    assert [Msg(Wire(m))][1..] == [];
    assert EncodeAll([Msg(Wire(m))]) == Encode(Msg(Wire(m))) + [];
  }

  /** Sending one message and counting it against its forward limit. */
  method SendCounted(conn: Conn, hold: Hold.HoldStore, m: Message, now: int, ghost before: seq<Message>, ghost start: seq<byte>, ghost s: Hold.HoldState)
    requires conn.written == start + EncodeAll(MsgFrames(before))
    requires hold.State() == MarkSent(s, before, now)
    modifies conn, hold
    ensures conn.written == start + EncodeAll(MsgFrames(before + [m]))
    ensures hold.State() == MarkSent(s, before + [m], now)
  {
    SendOne(conn, m, before, start);
    hold.MarkForwarded(m.id, now);
    assert (before + [m])[..|before|] == before;
  }

  /** The WANT arm for one list entry.  That stored files carry their own ID is an invariant
      of the hold (Hold.RunKeepsInv). */
  method ServeWant(conn: Conn, hold: Hold.HoldStore, snapshot: seq<Message>, id: Id, now: int)
    requires Hold.FilesHoldMessages(hold.State())
    modifies conn, hold
    ensures conn.written == old(conn.written) + EncodeAll(MsgFrames(Answer(id, snapshot, old(hold.files))))
    ensures hold.State() == MarkSent(old(hold.State()), Answer(id, snapshot, old(hold.files)), now)
  {
    var isPrefix := true;
    for k := 8 to 32
      invariant isPrefix && forall i :: 8 <= i < k ==> id[i] == 0
    {
      if id[k] != 0 {
        isPrefix := false;
        break;
      }
    }
    if isPrefix {
      ServePrefix(conn, hold, snapshot, Prefix(id), now);
    } else {
      ServeExact(conn, hold, snapshot, id, now);
    }
  }

  /** Every snapshot message with the prefix is sent; the loop has no break. */
  method ServePrefix(conn: Conn, hold: Hold.HoldStore, snapshot: seq<Message>, p: Bytes8, now: int)
    modifies conn, hold
    ensures conn.written == old(conn.written) + EncodeAll(MsgFrames(WithPrefix(snapshot, p)))
    ensures hold.State() == MarkSent(old(hold.State()), WithPrefix(snapshot, p), now)
  {
    ghost var start, s := conn.written, hold.State();
    ghost var sent: seq<Message> := [];
    for i := 0 to |snapshot|
      invariant sent == WithPrefix(snapshot[..i], p)
      invariant conn.written == start + EncodeAll(MsgFrames(sent)) && hold.State() == MarkSent(s, sent, now)
    {
      assert snapshot[..i + 1][..i] == snapshot[..i];
      if Prefix(snapshot[i].id) == p {
        SendCounted(conn, hold, snapshot[i], now, sent, start, s);
        sent := sent + [snapshot[i]];
      }
    }
    assert snapshot[..|snapshot|] == snapshot;
  }

  /** The first exact match is sent, or else the stored file. */
  method ServeExact(conn: Conn, hold: Hold.HoldStore, snapshot: seq<Message>, id: Id, now: int)
    requires !IsPrefixOnly(id) && Hold.FilesHoldMessages(hold.State())
    modifies conn, hold
    ensures conn.written == old(conn.written) + EncodeAll(MsgFrames(Answer(id, snapshot, old(hold.files))))
    ensures hold.State() == MarkSent(old(hold.State()), Answer(id, snapshot, old(hold.files)), now)
  {
    ghost var start, s := conn.written, hold.State();
    assert start + EncodeAll(MsgFrames([])) == start;
    for i := 0 to |snapshot|
      invariant FirstExact(snapshot, id) == FirstExact(snapshot[i..], id)
      invariant conn.written == start && hold.State() == s
    {
      assert snapshot[i..][1..] == snapshot[i + 1..];
      if snapshot[i].id == id {
        SendCounted(conn, hold, snapshot[i], now, [], start, s);
        assert [] + [snapshot[i]] == [snapshot[i]];
        return;
      }
    }
    assert FirstExact(snapshot, id) == [];
    var m := hold.Get(id);
    if m.Some? {
      StoredID(hold.State(), id);
      SendCounted(conn, hold, m.value, now, [], start, s);
      assert [] + [m.value] == [m.value];
    }
  }

  lemma StoredID(s: Hold.HoldState, id: Id)
    requires Hold.FilesHoldMessages(s) && id in s.files && Parse(s.files[id]).Some?
    ensures Parse(s.files[id]).value.id == id
  {
    assert Hold.HoldsMessage(s.files[id], id);
    var m: Message :| m.id == id && s.files[id] == Wire(m);
    WireKeepsID(m);
  }

  /** The MANIFEST arm: compare with the own snapshot's prefixes, ask for the rest.  An
      accepting node has no snapshot (nil), so it asks for everything. */
  method BuildWant(peerPrefixes: seq<Bytes8>, snapshot: seq<Message>) returns (want: seq<Id>)
    ensures want == WantFor(peerPrefixes, PrefixSet(snapshot))
  {
    var myPrefixes: map<Bytes8, bool> := map[];
    for i := 0 to |snapshot|
      invariant myPrefixes.Keys == PrefixSet(snapshot[..i])
    {
      PrefixSetStep(snapshot, i);
      myPrefixes := myPrefixes[Prefix(snapshot[i].id) := true];
    }
    assert snapshot[..|snapshot|] == snapshot;
    want := [];
    for i := 0 to |peerPrefixes|
      invariant want == WantFor(peerPrefixes[..i], PrefixSet(snapshot))
    {
      assert peerPrefixes[..i + 1][..i] == peerPrefixes[..i];
      if peerPrefixes[i] in myPrefixes { continue; }
      want := want + [Expand(peerPrefixes[i])];
    }
    assert peerPrefixes[..|peerPrefixes|] == peerPrefixes;
  }

  lemma PrefixSetStep(snapshot: seq<Message>, i: nat)
    requires i < |snapshot|
    ensures PrefixSet(snapshot[..i + 1]) == PrefixSet(snapshot[..i]) + {Prefix(snapshot[i].id)}
  {
    var (a, b) := (snapshot[..i], snapshot[..i + 1]);
    forall p | p in PrefixSet(a) ensures p in PrefixSet(b) {
      var k :| 0 <= k < |a| && Prefix(a[k].id) == p;
      assert Prefix(b[k].id) == p;
    }
    assert Prefix(b[i].id) == Prefix(snapshot[i].id);
    forall p | p in PrefixSet(b) ensures p in PrefixSet(a) || p == Prefix(snapshot[i].id) {
      var k :| 0 <= k < |b| && Prefix(b[k].id) == p;
      if k < i { assert Prefix(a[k].id) == p; }
    }
  }

  // ----- multiplicity -----

  function CountPrefix(ps: seq<Bytes8>, p: Bytes8): nat {
    if ps == [] then 0 else
      CountPrefix(ps[..|ps| - 1], p) + if ps[|ps| - 1] == p then 1 else 0
  }

  lemma ExpandIsPrefix(p: Bytes8)
    ensures IsPrefixOnly(Expand(p)) && Prefix(Expand(p)) == p
  {}

  lemma {:induction false} WithPrefixCount(snapshot: seq<Message>, p: Bytes8, m: Message)
    ensures multiset(WithPrefix(snapshot, p))[m] == if Prefix(m.id) == p then multiset(snapshot)[m] else 0
  {
    if snapshot != [] {
      var n := |snapshot| - 1;
      WithPrefixCount(snapshot[..n], p, m);
      assert snapshot == snapshot[..n] + [snapshot[n]];
    }
  }

  lemma AnswerAllSnoc(ids: seq<Id>, id: Id, snapshot: seq<Message>, files: map<Id, seq<byte>>)
    ensures AnswerAll(ids + [id], snapshot, files) == AnswerAll(ids, snapshot, files) + Answer(id, snapshot, files)
  {
    assert (ids + [id])[..|ids|] == ids;
  }

  /** One more listed prefix adds nothing, or one full answer. */
  lemma AnswersStep(ps: seq<Bytes8>, mine: set<Bytes8>, snapshot: seq<Message>, files: map<Id, seq<byte>>)
    requires ps != []
    ensures var n := |ps| - 1;
      AnswerAll(WantFor(ps, mine), snapshot, files)
        == AnswerAll(WantFor(ps[..n], mine), snapshot, files)
         + if ps[n] in mine then [] else WithPrefix(snapshot, ps[n])
  {
    var n := |ps| - 1;
    if ps[n] !in mine {
      ExpandIsPrefix(ps[n]);
      AnswerAllSnoc(WantFor(ps[..n], mine), Expand(ps[n]), snapshot, files);
    } else {
      assert WantFor(ps, mine) == WantFor(ps[..n], mine);
    }
  }

  lemma AnswersCountStep(ps: seq<Bytes8>, mine: set<Bytes8>, snapshot: seq<Message>, files: map<Id, seq<byte>>, m: Message)
    requires ps != []
    ensures var n := |ps| - 1;
      multiset(AnswerAll(WantFor(ps, mine), snapshot, files))[m]
        == multiset(AnswerAll(WantFor(ps[..n], mine), snapshot, files))[m]
         + if ps[n] !in mine && ps[n] == Prefix(m.id) then multiset(snapshot)[m] else 0
  {
    var p := ps[|ps| - 1];
    AnswersStep(ps, mine, snapshot, files);
    WithPrefixCount(snapshot, p, m);
  }

  /** c * x by repeated addition. */
  function Repeat(c: nat, x: nat): nat { if c == 0 then 0 else Repeat(c - 1, x) + x }

  lemma {:induction false} RepeatIsTimes(c: nat, x: nat)
    ensures Repeat(c, x) == c * x
  {
    if c > 0 { RepeatIsTimes(c - 1, x); }
  }

  /** How often m is sent, listing by listing. */
  function Sends(ps: seq<Bytes8>, mine: set<Bytes8>, snapshot: seq<Message>, m: Message): nat {
    if ps == [] then 0 else
      var p := ps[|ps| - 1];
      Sends(ps[..|ps| - 1], mine, snapshot, m)
        + if p !in mine && p == Prefix(m.id) then multiset(snapshot)[m] else 0
  }

  lemma {:induction false} AnswersAreSends(ps: seq<Bytes8>, mine: set<Bytes8>, snapshot: seq<Message>, files: map<Id, seq<byte>>, m: Message)
    ensures multiset(AnswerAll(WantFor(ps, mine), snapshot, files))[m] == Sends(ps, mine, snapshot, m)
  {
    if ps != [] {
      AnswersAreSends(ps[..|ps| - 1], mine, snapshot, files, m);
      AnswersCountStep(ps, mine, snapshot, files, m);
    }
  }

  lemma {:induction false} SendsAreRepeats(ps: seq<Bytes8>, mine: set<Bytes8>, snapshot: seq<Message>, m: Message)
    ensures Sends(ps, mine, snapshot, m)
         == if Prefix(m.id) in mine then 0 else Repeat(CountPrefix(ps, Prefix(m.id)), multiset(snapshot)[m])
  {
    if ps != [] { SendsAreRepeats(ps[..|ps| - 1], mine, snapshot, m); }
  }

  /** Each listing of a missing prefix triggers one full answer. */
  lemma AnswersCount(ps: seq<Bytes8>, mine: set<Bytes8>, snapshot: seq<Message>, files: map<Id, seq<byte>>, m: Message)
    ensures multiset(AnswerAll(WantFor(ps, mine), snapshot, files))[m]
         == if Prefix(m.id) in mine then 0 else Repeat(CountPrefix(ps, Prefix(m.id)), multiset(snapshot)[m])
  {
    AnswersAreSends(ps, mine, snapshot, files, m);
    SendsAreRepeats(ps, mine, snapshot, m);
  }

  lemma {:induction false} AnswersFromSnapshot(ps: seq<Bytes8>, mine: set<Bytes8>, snapshot: seq<Message>, files: map<Id, seq<byte>>)
    ensures forall m :: m in AnswerAll(WantFor(ps, mine), snapshot, files) ==> m in snapshot
  {
    if ps != [] {
      AnswersFromSnapshot(ps[..|ps| - 1], mine, snapshot, files);
      AnswersStep(ps, mine, snapshot, files);
      WithPrefixFrom(snapshot, ps[|ps| - 1]);
    }
  }

  lemma {:induction false} WithPrefixFrom(snapshot: seq<Message>, p: Bytes8)
    ensures forall m :: m in WithPrefix(snapshot, p) ==> m in snapshot
  {
    if snapshot != [] { WithPrefixFrom(snapshot[..|snapshot| - 1], p); }
  }

  /** MANIFEST/WANT sends each snapshot message once per snapshot message sharing its 8-byte
      prefix if the receiver lacks that prefix, never otherwise, and nothing else. */
  lemma ExactMultiplicity(snapshot: seq<Message>, mine: set<Bytes8>, files: map<Id, seq<byte>>, m: Message)
    ensures var sent := AnswerAll(WantFor(ManifestOf(snapshot), mine), snapshot, files);
      multiset(sent)[m] == if Prefix(m.id) in mine then 0
                           else CountPrefix(ManifestOf(snapshot), Prefix(m.id)) * multiset(snapshot)[m]
  {
    AnswersCount(ManifestOf(snapshot), mine, snapshot, files, m);
    RepeatIsTimes(CountPrefix(ManifestOf(snapshot), Prefix(m.id)), multiset(snapshot)[m]);
  }

  predicate DistinctPrefixes(snapshot: seq<Message>) {
    forall i, j :: 0 <= i < j < |snapshot| ==> Prefix(snapshot[i].id) != Prefix(snapshot[j].id)
  }

  lemma {:induction false} PrefixCountedOnce(snapshot: seq<Message>, i: nat)
    requires DistinctPrefixes(snapshot) && i < |snapshot|
    ensures CountPrefix(ManifestOf(snapshot), Prefix(snapshot[i].id)) == 1
  {
    var n := |snapshot| - 1;
    assert ManifestOf(snapshot)[..n] == ManifestOf(snapshot[..n]);
    if i < n {
      PrefixCountedOnce(snapshot[..n], i);
    } else {
      PrefixNotCounted(snapshot[..n], Prefix(snapshot[n].id));
    }
  }

  lemma {:induction false} PrefixNotCounted(snapshot: seq<Message>, p: Bytes8)
    requires forall i :: 0 <= i < |snapshot| ==> Prefix(snapshot[i].id) != p
    ensures CountPrefix(ManifestOf(snapshot), p) == 0
  {
    if snapshot != [] {
      var n := |snapshot| - 1;
      assert ManifestOf(snapshot)[..n] == ManifestOf(snapshot[..n]);
      PrefixNotCounted(snapshot[..n], p);
    }
  }

  lemma {:induction false} ListedOnce(snapshot: seq<Message>, m: Message)
    requires DistinctPrefixes(snapshot)
    ensures multiset(snapshot)[m] == if m in snapshot then 1 else 0
  {
    if snapshot != [] {
      var front, x := snapshot[..|snapshot| - 1], snapshot[|snapshot| - 1];
      ListedOnce(front, m);
      assert snapshot == front + [x];
      forall i | 0 <= i < |front| ensures front[i] != x { assert Prefix(front[i].id) != Prefix(x.id); }
    }
  }

  /** With distinct prefixes, exactly the missing messages are sent, each exactly once. */
  lemma MissingSentOnce(snapshot: seq<Message>, mine: set<Bytes8>, files: map<Id, seq<byte>>, m: Message)
    requires DistinctPrefixes(snapshot)
    ensures var sent := AnswerAll(WantFor(ManifestOf(snapshot), mine), snapshot, files);
      multiset(sent)[m] == if m in snapshot && Prefix(m.id) !in mine then 1 else 0
  {
    AnswersCount(ManifestOf(snapshot), mine, snapshot, files, m);
    ListedOnce(snapshot, m);
    RepeatSmall(CountPrefix(ManifestOf(snapshot), Prefix(m.id)));
    if m in snapshot {
      var i :| 0 <= i < |snapshot| && snapshot[i] == m;
      PrefixCountedOnce(snapshot, i);
    }
  }

  lemma {:induction false} RepeatSmall(c: nat)
    ensures Repeat(c, 0) == 0 && Repeat(1, 1) == 1
  {
    if c > 0 { RepeatSmall(c - 1); }
  }

  // ----- end to end, over the byte streams -----

  /** The messages a connection hands to the handler. */
  function Received(fs: seq<Frame>): seq<Message> {
    if fs == [] then [] else
      var n := |fs| - 1;
      Received(fs[..n]) + if fs[n].Msg? && Parse(fs[n].data).Some? then [Parse(fs[n].data).value] else []
  }

  function CarriedAll(ms: seq<Message>): seq<Message> {
    seq(|ms|, i requires 0 <= i < |ms| => Carried(ms[i]))
  }

  /** The accepting side's answer to a received stream: one WANT per manifest with a gap. */
  function WantFrames(fs: seq<Frame>, mine: set<Bytes8>): seq<Frame> {
    if fs == [] then [] else
      var n := |fs| - 1;
      WantFrames(fs[..n], mine) +
        if fs[n].Manifest? && WantFor(fs[n].prefixes, mine) != [] then [Want(WantFor(fs[n].prefixes, mine))] else []
  }

  function WantedBy(fs: seq<Frame>): seq<Id> {
    if fs == [] then [] else
      var n := |fs| - 1;
      WantedBy(fs[..n]) + if fs[n].Want? then fs[n].ids else []
  }

  /** A message the frame format can carry. */
  predicate Portable(m: Message) { |Wire(m)| <= 1_048_576 }

  predicate AllPortable(ms: seq<Message>) { forall i :: 0 <= i < |ms| ==> Portable(ms[i]) }

  lemma PortableArrives(m: Message)
    requires Portable(m)
    ensures Parse(Wire(m)) == Some(Carried(m))
  {
    RoundTrip(m);
  }

  lemma ReceivedOneMore(front: seq<Message>, m: Message)
    requires Portable(m)
    ensures Received(MsgFrames(front + [m])) == Received(MsgFrames(front)) + [Carried(m)]
  {
    PortableArrives(m);
    var fs := MsgFrames(front + [m]);
    assert fs[..|front|] == MsgFrames(front);
    assert fs[|front|] == Msg(Wire(m));
  }

  lemma {:induction false} ReceivedMessages(ms: seq<Message>)
    requires AllPortable(ms)
    ensures Received(MsgFrames(ms)) == CarriedAll(ms)
  {
    if ms != [] {
      var front, m := ms[..|ms| - 1], ms[|ms| - 1];
      assert ms == front + [m];
      ReceivedMessages(front);
      ReceivedOneMore(front, m);
      assert CarriedAll(ms) == CarriedAll(front) + [Carried(m)];
    }
  }

  lemma PortableFrames(ms: seq<Message>)
    requires AllPortable(ms)
    ensures AllWithin(MsgFrames(ms))
  {
    forall i | 0 <= i < |ms| ensures WithinLimits(MsgFrames(ms)[i]) { assert Portable(ms[i]); }
  }

  /** The dialling node's MANIFEST, the accepting node's WANT and the MSG frames that answer
      it, each written as bytes, carried by the connection and parsed on the other side. */
  function Exchange(snapshot: seq<Message>, mine: set<Bytes8>, files: map<Id, seq<byte>>): seq<Message> {
    var request := Served(EncodeAll([Manifest(ManifestOf(snapshot))]));
    var reply := Served(EncodeAll(WantFrames(request, mine)));
    var sent := AnswerAll(WantedBy(reply), snapshot, files);
    Received(Served(EncodeAll(MsgFrames(sent))))
  }

  lemma OneFrame(f: Frame)
    ensures WithinLimits(f) ==> Served(EncodeAll([f])) == [f]
    ensures !WithinLimits(f) && Size(f) < 0x1_0000_0000 ==> Served(EncodeAll([f])) == []
  {
    assert [f][1..] == [];
    if WithinLimits(f) {
      StreamRoundTrip([f]);
    } else if Size(f) < 0x1_0000_0000 {
      OverLimitCloses([], f, []);
      assert EncodeAll([]) + (Encode(f) + []) == EncodeAll([f]);
    }
  }

  /** What the dialling node is asked for, after both limits. */
  lemma AskedFor(ps: seq<Bytes8>, mine: set<Bytes8>)
    requires |ps| < 0x1_0000_0000
    ensures WantedBy(Served(EncodeAll(WantFrames(Served(EncodeAll([Manifest(ps)])), mine))))
         == if |ps| <= MAX_MANIFEST && |WantFor(ps, mine)| <= MAX_WANT then WantFor(ps, mine) else []
  {
    var want := WantFor(ps, mine);
    WantForLength(ps, mine);
    OneFrame(Manifest(ps));
    OneFrame(Want(want));
    OneWantFrame(Manifest(ps), mine);
    OneWanted(want);
    assert EncodeAll([]) == [];
    assert Served([]) == [];
  }

  lemma OneWantFrame(f: Frame, mine: set<Bytes8>)
    ensures f.Manifest? ==>
      WantFrames([f], mine) == if WantFor(f.prefixes, mine) == [] then [] else [Want(WantFor(f.prefixes, mine))]
  {
    assert [f][..0] == [];
  }

  lemma OneWanted(ids: seq<Id>)
    ensures WantedBy([Want(ids)]) == ids
  {
    assert [Want(ids)][..0] == [];
  }

  /** The number of messages before the first one over the 1 MiB frame limit. */
  function PortableCount(ms: seq<Message>): (k: nat)
    ensures k <= |ms| && AllPortable(ms[..k])
    ensures k < |ms| ==> !Portable(ms[k])
  {
    if ms == [] || !Portable(ms[0]) then 0 else
      var k := 1 + PortableCount(ms[1..]);
      assert forall i :: 1 <= i < k ==> ms[i] == ms[1..][i - 1];
      k
  }

  /** The peer's handler gets the messages before the first oversize one, which makes the peer
      close the connection. */
  lemma ReceivedPrefix(ms: seq<Message>)
    requires forall i :: 0 <= i < |ms| ==> |Wire(ms[i])| < 0x1_0000_0000
    ensures Received(Served(EncodeAll(MsgFrames(ms)))) == CarriedAll(ms[..PortableCount(ms)])
  {
    var k := PortableCount(ms);
    var front := ms[..k];
    ReceivedMessages(front);
    PortableFrames(front);
    if k == |ms| {
      assert front == ms;
      StreamRoundTrip(MsgFrames(ms));
    } else {
      CutAtOversize(ms, k);
    }
  }

  lemma CutAtOversize(ms: seq<Message>, k: nat)
    requires k < |ms| && AllPortable(ms[..k]) && !Portable(ms[k]) && |Wire(ms[k])| < 0x1_0000_0000
    ensures Served(EncodeAll(MsgFrames(ms))) == MsgFrames(ms[..k])
  {
    PortableFrames(ms[..k]);
    assert MsgFrames(ms)[..k] == MsgFrames(ms[..k]);
    EncodeSplit(MsgFrames(ms), k);
    OverLimitCloses(MsgFrames(ms[..k]), Msg(Wire(ms[k])), EncodeAll(MsgFrames(ms)[k + 1..]));
  }

  lemma EncodeSplit(fs: seq<Frame>, k: nat)
    requires k < |fs|
    ensures EncodeAll(fs) == EncodeAll(fs[..k]) + (Encode(fs[k]) + EncodeAll(fs[k + 1..]))
  {
    assert fs == fs[..k] + fs[k..];
    EncodeAllConcat(fs[..k], fs[k..]);
    assert fs[k..][1..] == fs[k + 1..];
  }

  /** Over the wire, the handler receives exactly the answers to the missing prefixes (up to
      the first message over the frame limit) when at most 100000 messages are listed and at
      most 10000 are missing; beyond either count the peer closes the connection and nothing
      is received at all. */
  lemma ExchangeDelivers(snapshot: seq<Message>, mine: set<Bytes8>, files: map<Id, seq<byte>>)
    requires |snapshot| < 0x1_0000_0000 && forall i :: 0 <= i < |snapshot| ==> |Wire(snapshot[i])| < 0x1_0000_0000
    ensures var want := WantFor(ManifestOf(snapshot), mine);
      var sent := AnswerAll(want, snapshot, files);
      Exchange(snapshot, mine, files)
        == if |snapshot| <= 100_000 && |want| <= 10_000
           then CarriedAll(sent[..PortableCount(sent)]) else []
  {
    var ps := ManifestOf(snapshot);
    AskedFor(ps, mine);
    AnswersFromSnapshot(ps, mine, snapshot, files);
    var asked := WantedBy(Served(EncodeAll(WantFrames(Served(EncodeAll([Manifest(ps)])), mine))));
    var sent := AnswerAll(asked, snapshot, files);
    forall i | 0 <= i < |sent| ensures |Wire(sent[i])| < 0x1_0000_0000 { assert sent[i] in snapshot; }
    ReceivedPrefix(sent);
  }

  lemma {:induction false} WantForLength(ps: seq<Bytes8>, mine: set<Bytes8>)
    ensures |WantFor(ps, mine)| <= |ps|
  {
    if ps != [] { WantForLength(ps[..|ps| - 1], mine); }
  }

  // ----- MSG -----

  /** The hold after the handler got m. */
  function HoldAfter(c: Node.Config, filter: set<nat>, h: Hold.HoldState, m: Message, now: int): Hold.HoldState
    requires c.Ok()
  {
    if Node.Judge(c, filter, m).Accepted? && Node.StoresIncoming(c, m)
    then Hold.Stored(h, m, Hold.DEFAULT_HOP_TTL, now) else h
  }

  /** The MSG arm: an unparsable message is skipped and changes nothing; any other one is
      acknowledged first, whatever the handler then makes of it. */
  method ServeMsg(conn: Conn, handler: Node.Handler, data: seq<byte>, now: int)
    requires handler.Valid()
    modifies conn, handler`apiCalls, handler`storeCalls, handler.bloom.bits, handler.hold
    ensures handler.Valid()
    ensures Parse(data).None? ==>
      conn.written == old(conn.written) && handler.State() == old(handler.State())
      && handler.hold.State() == old(handler.hold.State())
    ensures Parse(data).Some? ==>
      && conn.written == old(conn.written) + Encode(Ack(Parse(data).value.id))
      && handler.State() == Node.Incoming(handler.c, old(handler.State()), Parse(data).value)
      && handler.hold.State()
           == HoldAfter(handler.c, old(handler.State().filter), old(handler.hold.State()), Parse(data).value, now)
  {
    var msg := Deserialize(data);
    if msg.None? { return; }
    conn.SendAck(msg.value.id);
    handler.HandleMessage(msg.value, now);
  }

  // ----- HAVE -----

  /** The HAVE arm: every snapshot message the peer's filter does not report. */
  ghost function HaveAnswer(sha: HashFn, bloom: seq<byte>, snapshot: seq<Message>): seq<Message> {
    if snapshot == [] then [] else
      var n := |snapshot| - 1;
      HaveAnswer(sha, bloom, snapshot[..n]) + HaveOne(sha, bloom, snapshot[n])
  }

  ghost function HaveOne(sha: HashFn, bloom: seq<byte>, m: Message): seq<Message> {
    if Bloom.RemoteHas(sha, bloom, m.id, Bloom.REMOTE_HASHES) then [] else [m]
  }

  method ServeHave(conn: Conn, sha: HashFn, bloom: seq<byte>, snapshot: seq<Message>)
    modifies conn
    ensures conn.written == old(conn.written) + EncodeAll(MsgFrames(HaveAnswer(sha, bloom, snapshot)))
  {
    ghost var start := conn.written;
    ghost var sent: seq<Message> := [];
    for i := 0 to |snapshot|
      invariant sent == HaveAnswer(sha, bloom, snapshot[..i])
      invariant conn.written == start + EncodeAll(MsgFrames(sent))
    {
      assert snapshot[..i + 1][..i] == snapshot[..i];
      OfferOne(conn, sha, bloom, snapshot[i], sent, start);
      sent := sent + HaveOne(sha, bloom, snapshot[i]);
    }
    assert snapshot[..|snapshot|] == snapshot;
  }

  /** Send the message unless a non-empty filter reports it. */
  method OfferOne(conn: Conn, sha: HashFn, bloom: seq<byte>, m: Message, ghost before: seq<Message>, ghost start: seq<byte>)
    requires conn.written == start + EncodeAll(MsgFrames(before))
    modifies conn
    ensures conn.written == start + EncodeAll(MsgFrames(before + HaveOne(sha, bloom, m)))
  {
    assert before + [] == before;
    if |bloom| > 0 {
      var known := Bloom.BloomContains(sha, bloom, m.id);
      if known { return; }
    }
    SendOne(conn, m, before, start);
  }

  method SendOne(conn: Conn, m: Message, ghost before: seq<Message>, ghost start: seq<byte>)
    requires conn.written == start + EncodeAll(MsgFrames(before))
    modifies conn
    ensures conn.written == start + EncodeAll(MsgFrames(before + [m]))
  {
    var data := Serialize(m);
    conn.SendMsg(data);
    EncodeOneMore(before, m);
    Assoc(start, EncodeAll(MsgFrames(before)), Encode(Msg(Wire(m))));
  }

  /** HAVE filtering withholds a snapshot message only if the peer's own filter reports it,
      now and at every later state of that filter: the peer would drop it as a duplicate. */
  lemma {:induction false} HaveWithholdsOnlyKnown(sha: HashFn, words: seq<uint64>, later: seq<uint64>, k: nat, snapshot: seq<Message>, m: Message)
    requires k <= Bloom.REMOTE_HASHES && |later| == |words| && Bloom.Ones(words) <= Bloom.Ones(later)
    requires m in snapshot
    ensures m in HaveAnswer(sha, Bloom.ExportBytes(words), snapshot) || Bloom.LocalHas(sha, later, m.id, k)
  {
    var n := |snapshot| - 1;
    if m in snapshot[..n] {
      HaveWithholdsOnlyKnown(sha, words, later, k, snapshot[..n], m);
    } else if Bloom.RemoteHas(sha, Bloom.ExportBytes(words), m.id, Bloom.REMOTE_HASHES) {
      Bloom.RemoteIsSound(sha, words, later, m.id, k);
    }
  }

  // ----- the whole connection -----

  /** What a connection changes: the frames written to it, the handler's filter and calls, the
      hold, and the delivery marks of the inbox. */
  datatype Session = Session(sent: seq<Frame>, node: Node.NodeState, hold: Hold.HoldState, marks: seq<Id>)

  /** The frames one command is answered with. */
  ghost function Replies(c: Node.Config, snapshot: seq<Message>, s: Session, f: Frame): seq<Frame> {
    match f
    case Have(b) => MsgFrames(HaveAnswer(c.sha, b, snapshot))
    case Want(ids) => MsgFrames(AnswerAll(ids, snapshot, s.hold.files))
    case Msg(d) => if Parse(d).None? then [] else [Ack(Parse(d).value.id)]
    case Ack(_) => []
    case Manifest(ps) =>
      var want := WantFor(ps, PrefixSet(snapshot));
      if want == [] then [] else [Want(want)]
  }

  ghost function ServeFrame(c: Node.Config, snapshot: seq<Message>, s: Session, f: Frame, now: int): Session
    requires c.Ok()
  {
    var t := s.(sent := s.sent + Replies(c, snapshot, s, f));
    match f
    case Have(_) => t
    case Want(ids) => t.(hold := MarkSent(s.hold, AnswerAll(ids, snapshot, s.hold.files), now))
    case Msg(d) =>
      if Parse(d).None? then t else
        t.(node := Node.Incoming(c, s.node, Parse(d).value), hold := HoldAfter(c, s.node.filter, s.hold, Parse(d).value, now))
    case Ack(id) => t.(hold := Hold.Deleted(s.hold, id), marks := s.marks + [id])
    case Manifest(_) => t
  }

  /** Serving commands in order, command k at time clock(k). */
  ghost function ServeAll(c: Node.Config, snapshot: seq<Message>, s: Session, fs: seq<Frame>, clock: nat -> int): Session
    requires c.Ok()
  {
    if fs == [] then s else
      var n := |fs| - 1;
      ServeFrame(c, snapshot, ServeAll(c, snapshot, s, fs[..n], clock), fs[n], clock(n))
  }

  ghost function SessionOf(conn: Conn, handler: Node.Handler, sent: seq<Frame>): Session
    reads conn, handler, handler.bloom, handler.bloom.bits, handler.hold
  {
    Session(sent, handler.State(), handler.hold.State(), handler.deliveredMarks)
  }

  lemma {:induction false} MarkSentConcat(s: Hold.HoldState, a: seq<Message>, b: seq<Message>, now: int)
    ensures MarkSent(s, a + b, now) == MarkSent(MarkSent(s, a, now), b, now)
  {
    if b == [] {
      assert a + b == a;
    } else {
      var n := |b| - 1;
      assert (a + b)[..|a + b| - 1] == a + b[..n];
      MarkSentConcat(s, a, b[..n], now);
    }
  }

  /** What was written and the hold after answering some list entries. */
  ghost predicate Answered(written: seq<byte>, h: Hold.HoldState, start: seq<byte>, s: Hold.HoldState, ids: seq<Id>,
                           snapshot: seq<Message>, now: int)
  {
    var ms := AnswerAll(ids, snapshot, s.files);
    written == start + EncodeAll(MsgFrames(ms)) && h == MarkSent(s, ms, now)
  }

  lemma AnsweredNone(start: seq<byte>, s: Hold.HoldState, snapshot: seq<Message>, now: int)
    ensures Answered(start, s, start, s, [], snapshot, now)
  {
    assert start + EncodeAll(MsgFrames([])) == start;
  }

  lemma AnsweredMore(written: seq<byte>, h: Hold.HoldState, start: seq<byte>, s: Hold.HoldState, ids: seq<Id>, id: Id,
                     snapshot: seq<Message>, now: int)
    requires Answered(written, h, start, s, ids, snapshot, now)
    ensures var ms := Answer(id, snapshot, s.files);
      Answered(written + EncodeAll(MsgFrames(ms)), MarkSent(h, ms, now), start, s, ids + [id], snapshot, now)
  {
    AnswerAllSnoc(ids, id, snapshot, s.files);
    SentConcat(s, AnswerAll(ids, snapshot, s.files), Answer(id, snapshot, s.files), now, start);
  }

  /** The WANT arm. */
  method ServeWantList(conn: Conn, hold: Hold.HoldStore, snapshot: seq<Message>, ids: seq<Id>, now: int)
    requires Hold.FilesHoldMessages(hold.State())
    modifies conn, hold
    ensures conn.written == old(conn.written) + EncodeAll(MsgFrames(AnswerAll(ids, snapshot, old(hold.files))))
    ensures hold.State() == MarkSent(old(hold.State()), AnswerAll(ids, snapshot, old(hold.files)), now)
  {
    ghost var s := hold.State();
    AnsweredNone(conn.written, s, snapshot, now);
    for i := 0 to |ids|
      invariant Answered(conn.written, hold.State(), old(conn.written), s, ids[..i], snapshot, now)
      invariant hold.files == s.files
    {
      assert ids[..i + 1] == ids[..i] + [ids[i]];
      AnsweredMore(conn.written, hold.State(), old(conn.written), s, ids[..i], ids[i], snapshot, now);
      ServeWant(conn, hold, snapshot, ids[i], now);
    }
    assert ids[..|ids|] == ids;
  }

  lemma FramesConcat(a: seq<Message>, b: seq<Message>)
    ensures EncodeAll(MsgFrames(a + b)) == EncodeAll(MsgFrames(a)) + EncodeAll(MsgFrames(b))
  {
    assert MsgFrames(a + b) == MsgFrames(a) + MsgFrames(b);
    EncodeAllConcat(MsgFrames(a), MsgFrames(b));
  }

  lemma SentConcat(s: Hold.HoldState, a: seq<Message>, b: seq<Message>, now: int, start: seq<byte>)
    ensures MarkSent(s, a + b, now) == MarkSent(MarkSent(s, a, now), b, now)
    ensures (start + EncodeAll(MsgFrames(a))) + EncodeAll(MsgFrames(b)) == start + EncodeAll(MsgFrames(a + b))
  {
    MarkSentConcat(s, a, b, now);
    FramesConcat(a, b);
    Assoc(start, EncodeAll(MsgFrames(a)), EncodeAll(MsgFrames(b)));
  }

  /** What ServeFrame needs of a hold, and keeps: each stored file carries its own ID. */
  lemma ServeKeepsFiles(c: Node.Config, snapshot: seq<Message>, s: Session, f: Frame, now: int)
    requires c.Ok() && Hold.FilesHoldMessages(s.hold)
    ensures Hold.FilesHoldMessages(ServeFrame(c, snapshot, s, f, now).hold)
  {
    if f.Msg? && Parse(f.data).Some? {
      var m := Parse(f.data).value;
      assert Hold.HoldsMessage(Wire(m), m.id);
    }
  }

  /** One command of handleConnection: the replies are written, and hold and handler move. */
  method ServeCommand(conn: Conn, handler: Node.Handler, snapshot: seq<Message>, f: Frame, now: int, ghost s: Session)
    requires handler.Valid() && Hold.FilesHoldMessages(handler.hold.State())
    requires s == SessionOf(conn, handler, s.sent)
    modifies conn, handler, handler.bloom.bits, handler.hold
    ensures handler.Valid()
    ensures conn.written == old(conn.written) + EncodeAll(Replies(handler.c, snapshot, s, f))
    ensures var t := ServeFrame(handler.c, snapshot, s, f, now); t == SessionOf(conn, handler, t.sent)
  {
    EncodeNoneOrOne(f);
    match f {
      case Have(b) => ServeHave(conn, handler.c.sha, b, snapshot);
      case Want(ids) => ServeWantList(conn, handler.hold, snapshot, ids, now);
      case Msg(d) =>
        ServeMsg(conn, handler, d, now);
        if Parse(d).Some? { EncodeNoneOrOne(Ack(Parse(d).value.id)); }
      case Ack(id) => handler.HandleAck(id);
      case Manifest(ps) =>
        var want := BuildWant(ps, snapshot);
        if |want| > 0 {
          conn.SendWantList(want);
          EncodeNoneOrOne(Want(want));
        }
    }
  }

  lemma EncodeNoneOrOne(f: Frame)
    ensures EncodeAll([]) == [] && EncodeAll([f]) == Encode(f)
    ensures forall s: seq<byte> :: s + [] == s
  {
    assert [f][1..] == [];
  }

  /** One turn of the loop: reads one command and serves it; the last one may be a WANT list
      that broke off. */
  method Turn(r: Reader, conn: Conn, handler: Node.Handler, snapshot: seq<Message>, now: int, ghost s: Session)
    returns (f: Option<Frame>, more: bool)
    requires r.Valid() && handler.Valid() && Hold.FilesHoldMessages(handler.hold.State())
    requires s == SessionOf(conn, handler, s.sent)
    modifies r, conn, handler, handler.bloom.bits, handler.hold
    ensures r.Valid() && handler.Valid()
    ensures f.None? ==> !more && Served(old(r.Left())) == []
    ensures f.None? ==> conn.written == old(conn.written) && s == SessionOf(conn, handler, s.sent)
    ensures f.Some? ==> Served(old(r.Left())) == [f.value] + if more then Served(r.Left()) else []
    ensures more ==> |r.Left()| < |old(r.Left())|
    ensures f.Some? ==>
      var t := ServeFrame(handler.c, snapshot, s, f.value, now);
      && t == SessionOf(conn, handler, t.sent) && Hold.FilesHoldMessages(t.hold)
      && conn.written == old(conn.written) + EncodeAll(Replies(handler.c, snapshot, s, f.value))
  {
    var cut;
    f, cut := ReadCommand(r);
    more := f.Some?;
    if f.None? {
      if cut == [] { return; }
      f := Some(Want(cut));
    }
    ServeKeepsFiles(handler.c, snapshot, s, f.value, now);
    ServeCommand(conn, handler, snapshot, f.value, now, s);
  }

  /** s is the session after serving some commands, and its replies are what was written. */
  ghost predicate Reached(c: Node.Config, snapshot: seq<Message>, start: Session, fs: seq<Frame>, clock: nat -> int,
                          s: Session, before: seq<byte>, written: seq<byte>)
    requires c.Ok()
  {
    s == ServeAll(c, snapshot, start, fs, clock) && written == before + EncodeAll(s.sent)
  }

  lemma ReachedStep(c: Node.Config, snapshot: seq<Message>, start: Session, fs: seq<Frame>, f: Frame, clock: nat -> int,
                    s: Session, before: seq<byte>, written: seq<byte>)
    requires c.Ok() && Reached(c, snapshot, start, fs, clock, s, before, written)
    ensures Reached(c, snapshot, start, fs + [f], clock, ServeFrame(c, snapshot, s, f, clock(|fs|)), before,
                    written + EncodeAll(Replies(c, snapshot, s, f)))
  {
    assert (fs + [f])[..|fs|] == fs;
    EncodeAllConcat(s.sent, Replies(c, snapshot, s, f));
    Assoc(before, EncodeAll(s.sent), EncodeAll(Replies(c, snapshot, s, f)));
  }

  lemma ReachedStart(c: Node.Config, snapshot: seq<Message>, s: Session, clock: nat -> int, before: seq<byte>)
    requires c.Ok() && s.sent == []
    ensures Reached(c, snapshot, s, [], clock, s, before, before)
  {
    assert before + EncodeAll([]) == before;
  }

  /** handleConnection: whatever bytes the peer sends, the connection serves exactly the
      commands of the grammar, in order, and ends; the replies, the handler, the hold and the
      inbox marks are those of serving them one by one. */
  method HandleConnection(r: Reader, conn: Conn, handler: Node.Handler, snapshot: seq<Message>, clock: nat -> int)
    returns (served: seq<Frame>)
    requires r.Valid() && handler.Valid() && Hold.FilesHoldMessages(handler.hold.State())
    modifies r, conn, handler, handler.bloom.bits, handler.hold
    ensures handler.Valid() && served == Served(old(r.Left()))
    ensures var s := ServeAll(handler.c, snapshot, old(SessionOf(conn, handler, [])), served, clock);
      s == SessionOf(conn, handler, s.sent) && conn.written == old(conn.written) + EncodeAll(s.sent)
    ensures handler.deliveredMarks == old(handler.deliveredMarks) + AckedIds(served)
  {
    ghost var start := SessionOf(conn, handler, []);
    ReachedStart(handler.c, snapshot, start, clock, conn.written);
    ghost var s;
    served, s := Serve(r, conn, handler, snapshot, clock, start);
    ConnectionMarks(handler.c, snapshot, start, served, clock);
  }

  /** The loop. */
  method Serve(r: Reader, conn: Conn, handler: Node.Handler, snapshot: seq<Message>, clock: nat -> int, ghost start: Session)
    returns (served: seq<Frame>, ghost s: Session)
    requires r.Valid() && handler.Valid() && Hold.FilesHoldMessages(start.hold)
    requires start == SessionOf(conn, handler, start.sent) && Reached(handler.c, snapshot, start, [], clock, start, conn.written, conn.written)
    modifies r, conn, handler, handler.bloom.bits, handler.hold
    ensures handler.Valid() && served == Served(old(r.Left()))
    ensures s == SessionOf(conn, handler, s.sent)
    ensures Reached(handler.c, snapshot, start, served, clock, s, old(conn.written), conn.written)
  {
    ghost var all := Served(r.Left());
    served, s := [], start;
    var more := true;
    while more
      invariant r.Valid() && handler.Valid() && Hold.FilesHoldMessages(s.hold)
      invariant all == served + if more then Served(r.Left()) else []
      invariant s == SessionOf(conn, handler, s.sent)
      invariant Reached(handler.c, snapshot, start, served, clock, s, old(conn.written), conn.written)
      decreases more, |r.Left()|
    {
      served, more, s := ServeNext(r, conn, handler, snapshot, clock, start, served, s, old(conn.written));
    }
  }

  method ServeNext(r: Reader, conn: Conn, handler: Node.Handler, snapshot: seq<Message>, clock: nat -> int,
                   ghost start: Session, done: seq<Frame>, ghost s: Session, ghost before: seq<byte>)
    returns (served: seq<Frame>, more: bool, ghost t: Session)
    requires r.Valid() && handler.Valid() && Hold.FilesHoldMessages(s.hold)
    requires s == SessionOf(conn, handler, s.sent) && Reached(handler.c, snapshot, start, done, clock, s, before, conn.written)
    modifies r, conn, handler, handler.bloom.bits, handler.hold
    ensures r.Valid() && handler.Valid() && Hold.FilesHoldMessages(t.hold)
    ensures t == SessionOf(conn, handler, t.sent) && Reached(handler.c, snapshot, start, served, clock, t, before, conn.written)
    ensures done + Served(old(r.Left())) == served + if more then Served(r.Left()) else []
    ensures more ==> |r.Left()| < |old(r.Left())|
  {
    var f;
    ghost var (written, c) := (conn.written, handler.c);
    f, more := Turn(r, conn, handler, snapshot, clock(|done|), s);
    served, t := done, s;
    if f.Some? {
      ReachedStep(c, snapshot, start, done, f.value, clock, s, before, written);
      Assoc(done, [f.value], if more then Served(r.Left()) else []);
      t := ServeFrame(c, snapshot, s, f.value, clock(|done|));
      served := done + [f.value];
    }
  }

  // ----- what a connection amounts to -----

  /** The handler's state after some messages. */
  function HandleAll(c: Node.Config, s: Node.NodeState, ms: seq<Message>): Node.NodeState
    requires c.Ok()
  {
    if ms == [] then s else Node.Incoming(c, HandleAll(c, s, ms[..|ms| - 1]), ms[|ms| - 1])
  }

  /** The ACK frames among some frames, as the IDs they name. */
  function AckedIds(fs: seq<Frame>): seq<Id> {
    if fs == [] then [] else
      AckedIds(fs[..|fs| - 1]) + if fs[|fs| - 1].Ack? then [fs[|fs| - 1].id] else []
  }

  function Ids(ms: seq<Message>): seq<Id> { seq(|ms|, i requires 0 <= i < |ms| => ms[i].id) }

  lemma {:induction false} AckedConcat(fs: seq<Frame>, gs: seq<Frame>)
    ensures AckedIds(fs + gs) == AckedIds(fs) + AckedIds(gs)
  {
    if gs == [] {
      assert fs + gs == fs;
    } else {
      assert (fs + gs)[..|fs + gs| - 1] == fs + gs[..|gs| - 1];
      AckedConcat(fs, gs[..|gs| - 1]);
    }
  }

  lemma {:induction false} NoAcks(fs: seq<Frame>)
    requires forall i :: 0 <= i < |fs| ==> !fs[i].Ack?
    ensures AckedIds(fs) == []
  {
    if fs != [] { NoAcks(fs[..|fs| - 1]); }
  }

  /** What one command adds to the messages received. */
  function ReceivedOne(f: Frame): seq<Message> {
    if f.Msg? && Parse(f.data).Some? then [Parse(f.data).value] else []
  }

  lemma ReceivedSnoc(front: seq<Frame>, f: Frame)
    ensures Received(front + [f]) == Received(front) + ReceivedOne(f)
  {
    assert (front + [f])[..|front|] == front;
  }

  lemma HandleSnoc(c: Node.Config, s: Node.NodeState, ms: seq<Message>, m: Message)
    requires c.Ok()
    ensures HandleAll(c, s, ms + [m]) == Node.Incoming(c, HandleAll(c, s, ms), m)
    ensures Ids(ms + [m]) == Ids(ms) + [m.id]
  {
    assert (ms + [m])[..|ms|] == ms;
  }

  /** One more command: one more handler call and one more ACK, or neither. */
  lemma CommandCalls(c: Node.Config, snapshot: seq<Message>, s: Session, f: Frame, now: int, node: Node.NodeState, ms: seq<Message>)
    requires c.Ok() && s.node == HandleAll(c, node, ms)
    ensures ServeFrame(c, snapshot, s, f, now).node == HandleAll(c, node, ms + ReceivedOne(f))
  {
    if f.Msg? && Parse(f.data).Some? {
      HandleSnoc(c, node, ms, Parse(f.data).value);
    } else {
      assert ms + [] == ms;
    }
  }

  lemma CommandAcks(c: Node.Config, snapshot: seq<Message>, s: Session, f: Frame, now: int)
    requires c.Ok()
    ensures AckedIds(ServeFrame(c, snapshot, s, f, now).sent) == AckedIds(s.sent) + Ids(ReceivedOne(f))
  {
    var rs := Replies(c, snapshot, s, f);
    FrameSends(c, snapshot, s, f, now);
    AckedConcat(s.sent, rs);
    RepliesAck(c, snapshot, s, f);
  }

  lemma FrameSends(c: Node.Config, snapshot: seq<Message>, s: Session, f: Frame, now: int)
    requires c.Ok()
    ensures ServeFrame(c, snapshot, s, f, now).sent == s.sent + Replies(c, snapshot, s, f)
  {}

  lemma RepliesAck(c: Node.Config, snapshot: seq<Message>, s: Session, f: Frame)
    ensures AckedIds(Replies(c, snapshot, s, f)) == Ids(ReceivedOne(f))
  {
    var rs := Replies(c, snapshot, s, f);
    if f.Msg? && Parse(f.data).Some? {
      OneAck(Parse(f.data).value.id);
      assert Ids([Parse(f.data).value]) == [Parse(f.data).value.id];
    } else {
      assert Ids([]) == [];
      NoAcks(rs);
    }
  }

  lemma OneAck(id: Id)
    ensures AckedIds([Ack(id)]) == [id]
  {
    assert [Ack(id)][..0] == [];
  }

  lemma IdsConcat(a: seq<Message>, b: seq<Message>)
    ensures Ids(a + b) == Ids(a) + Ids(b)
  {}

  /** Whatever else the connection carries: the handler is called on exactly the parsable
      messages received, in order, and exactly those are acknowledged, each once. */
  lemma {:induction false} ConnectionHandles(c: Node.Config, snapshot: seq<Message>, s: Session, fs: seq<Frame>, clock: nat -> int)
    requires c.Ok()
    ensures var t := ServeAll(c, snapshot, s, fs, clock);
      t.node == HandleAll(c, s.node, Received(fs)) && AckedIds(t.sent) == AckedIds(s.sent) + Ids(Received(fs))
  {
    if fs == [] {
      assert Ids([]) == [];
    } else {
      var front, f := fs[..|fs| - 1], fs[|fs| - 1];
      assert fs == front + [f];
      ConnectionHandles(c, snapshot, s, front, clock);
      ReceivedSnoc(front, f);
      CommandCalls(c, snapshot, ServeAll(c, snapshot, s, front, clock), f, clock(|fs| - 1), s.node, Received(front));
      CommandAcks(c, snapshot, ServeAll(c, snapshot, s, front, clock), f, clock(|fs| - 1));
      IdsConcat(Received(front), ReceivedOne(f));
      Assoc(AckedIds(s.sent), Ids(Received(front)), Ids(ReceivedOne(f)));
    }
  }

  // ----- what a connection sends, and what it does to the hold -----

  datatype Kind = Messages | Wants

  predicate IsOf(f: Frame, k: Kind) { if k == Messages then f.Msg? else f.Want? }

  /** The frames of one kind, in order. */
  function Part(fs: seq<Frame>, k: Kind): seq<Frame> {
    if fs == [] then [] else
      var n := |fs| - 1;
      Part(fs[..n], k) + if IsOf(fs[n], k) then [fs[n]] else []
  }

  lemma {:induction false} PartConcat(fs: seq<Frame>, gs: seq<Frame>, k: Kind)
    ensures Part(fs + gs, k) == Part(fs, k) + Part(gs, k)
  {
    if gs == [] {
      assert fs + gs == fs;
    } else {
      var n := |gs| - 1;
      assert (fs + gs)[..|fs + gs| - 1] == fs + gs[..n];
      PartConcat(fs, gs[..n], k);
    }
  }

  lemma PartSnoc(fs: seq<Frame>, f: Frame, k: Kind)
    ensures Part(fs + [f], k) == Part(fs, k) + if IsOf(f, k) then [f] else []
  {
    assert (fs + [f])[..|fs|] == fs;
  }

  lemma {:induction false} PartOfMessages(ms: seq<Message>)
    ensures Part(MsgFrames(ms), Messages) == MsgFrames(ms) && Part(MsgFrames(ms), Wants) == []
  {
    if ms == [] {
      assert MsgFrames(ms) == [];
    } else {
      var front, m := ms[..|ms| - 1], ms[|ms| - 1];
      assert MsgFrames(ms) == MsgFrames(front) + [Msg(Wire(m))];
      PartOfMessages(front);
      PartSnoc(MsgFrames(front), Msg(Wire(m)), Messages);
      PartSnoc(MsgFrames(front), Msg(Wire(m)), Wants);
    }
  }

  /** The messages one command is answered with. */
  ghost function AnswerTo(c: Node.Config, snapshot: seq<Message>, files: map<Id, seq<byte>>, f: Frame): seq<Message> {
    match f
    case Have(b) => HaveAnswer(c.sha, b, snapshot)
    case Want(ids) => AnswerAll(ids, snapshot, files)
    case _ => []
  }

  /** Those of a whole connection; a WANT reads the files as they are at that moment. */
  ghost function Answers(c: Node.Config, snapshot: seq<Message>, s: Session, fs: seq<Frame>, clock: nat -> int): seq<Message>
    requires c.Ok()
  {
    if fs == [] then [] else
      var n := |fs| - 1;
      Answers(c, snapshot, s, fs[..n], clock)
        + AnswerTo(c, snapshot, ServeAll(c, snapshot, s, fs[..n], clock).hold.files, fs[n])
  }

  function CountId(ms: seq<Message>, id: Id): nat {
    if ms == [] then 0 else CountId(ms[..|ms| - 1], id) + if ms[|ms| - 1].id == id then 1 else 0
  }

  /** How often id is sent in answer to command n.  HAVE answers do not count as forwards. */
  ghost function ForwardsAt(c: Node.Config, snapshot: seq<Message>, s: Session, fs: seq<Frame>, n: nat, clock: nat -> int, id: Id): nat
    requires c.Ok() && n < |fs|
  {
    if fs[n].Want? then CountId(AnswerAll(fs[n].ids, snapshot, ServeAll(c, snapshot, s, fs[..n], clock).hold.files), id) else 0
  }

  /** How often id is sent in answer to the WANTs among commands i to n. */
  ghost function Forwards(c: Node.Config, snapshot: seq<Message>, s: Session, fs: seq<Frame>, i: nat, n: nat, clock: nat -> int, id: Id): nat
    requires c.Ok() && i <= n <= |fs|
    decreases n
  {
    if n == i then 0 else
      Forwards(c, snapshot, s, fs, i, n - 1, clock, id) + ForwardsAt(c, snapshot, s, fs, n - 1, clock, id)
  }

  /** The time of the last of them. */
  ghost function LastForward(c: Node.Config, snapshot: seq<Message>, s: Session, fs: seq<Frame>, i: nat, n: nat, clock: nat -> int, id: Id): int
    requires c.Ok() && i <= n <= |fs|
    decreases n
  {
    if n == i then 0
    else if ForwardsAt(c, snapshot, s, fs, n - 1, clock, id) > 0 then clock(n - 1)
    else LastForward(c, snapshot, s, fs, i, n - 1, clock, id)
  }

  /** Entry e after n forwards, the last of them at time t. */
  predicate ForwardedBy(e: Hold.HoldMeta, r: Hold.HoldMeta, n: nat, t: int) {
    var over := n > 0 && e.forwardCount + n >= 15;
    r == Hold.HoldMeta(e.hopTTL, e.forwardCount + n, e.storedAt, e.msgTimestamp,
                       over || e.exhausted, if over then t else e.morgueAt)
  }

  lemma {:induction false} MarkSentCounts(h: Hold.HoldState, ms: seq<Message>, now: int, id: Id)
    ensures id in MarkSent(h, ms, now).meta <==> id in h.meta
    ensures id in h.meta ==> ForwardedBy(h.meta[id], MarkSent(h, ms, now).meta[id], CountId(ms, id), now)
  {
    if ms != [] { MarkSentCounts(h, ms[..|ms| - 1], now, id); }
  }

  lemma SessionStep(c: Node.Config, snapshot: seq<Message>, s: Session, fs: seq<Frame>, k: nat, clock: nat -> int)
    requires c.Ok() && k < |fs|
    ensures ServeAll(c, snapshot, s, fs[..k + 1], clock)
         == ServeFrame(c, snapshot, ServeAll(c, snapshot, s, fs[..k], clock), fs[k], clock(k))
  {
    assert fs[..k + 1][..k] == fs[..k];
  }

  /** The calls of hold.Store from command k on bring no message with this ID. */
  ghost predicate NotStoredSince(c: Node.Config, snapshot: seq<Message>, s: Session, fs: seq<Frame>, k: nat, clock: nat -> int, id: Id)
    requires c.Ok() && k <= |fs|
  {
    var calls := ServeAll(c, snapshot, s, fs, clock).node.storeCalls;
    forall i :: |ServeAll(c, snapshot, s, fs[..k], clock).node.storeCalls| <= i < |calls| ==> calls[i].id != id
  }

  /** One command: an ID neither acknowledged nor stored by it keeps its entry and file, and
      the forwards are counted. */
  lemma FrameKeeps(c: Node.Config, snapshot: seq<Message>, s: Session, f: Frame, now: int, id: Id)
    requires c.Ok()
    ensures var t := ServeFrame(c, snapshot, s, f, now);
      var n := if f.Want? then CountId(AnswerAll(f.ids, snapshot, s.hold.files), id) else 0;
      && s.node.storeCalls <= t.node.storeCalls
      && (f == Ack(id) ==> Hold.Absent(t.hold, id))
      && (Hold.Absent(s.hold, id) && NoneIs(t.node.storeCalls, |s.node.storeCalls|, id) ==> Hold.Absent(t.hold, id))
      && (id in s.hold.meta && f != Ack(id) ==>
            && id in t.hold.meta && ForwardedBy(s.hold.meta[id], t.hold.meta[id], n, now)
            && SameFile(s.hold, t.hold, id))
  {
    if f.Want? { MarkSentCounts(s.hold, AnswerAll(f.ids, snapshot, s.hold.files), now, id); }
    if f.Msg? && Parse(f.data).Some? {
      var m := Parse(f.data).value;
      if Node.Judge(c, s.node.filter, m).Accepted? && Node.StoresIncoming(c, m) {
        assert ServeFrame(c, snapshot, s, f, now).node.storeCalls[|s.node.storeCalls|] == m;
      }
    }
  }

  predicate NoneIs(ms: seq<Message>, from: nat, id: Id) { forall i :: from <= i < |ms| ==> ms[i].id != id }

  predicate SameFile(h: Hold.HoldState, t: Hold.HoldState, id: Id) {
    (id in h.files <==> id in t.files) && (id in h.files ==> t.files[id] == h.files[id])
  }

  /** An acknowledged ID that is not stored again is in neither part of the hold. */
  lemma {:induction false} AckDeletes(c: Node.Config, snapshot: seq<Message>, s: Session, fs: seq<Frame>, k: nat, clock: nat -> int, id: Id)
    requires c.Ok() && k < |fs| && fs[k] == Ack(id) && NotStoredSince(c, snapshot, s, fs, k + 1, clock, id)
    ensures Hold.Absent(ServeAll(c, snapshot, s, fs, clock).hold, id)
  {
    hide ServeFrame, Replies;
    var n := |fs| - 1;
    var front := fs[..n];
    var u := ServeAll(c, snapshot, s, front, clock);
    FrameKeeps(c, snapshot, u, fs[n], clock(n), id);
    if k < n {
      assert front[..k + 1] == fs[..k + 1];
      StoreCallsGrow(c, snapshot, s, front, k + 1, clock);
      AckDeletes(c, snapshot, s, front, k, clock, id);
    }
  }

  lemma {:induction false} StoreCallsGrow(c: Node.Config, snapshot: seq<Message>, s: Session, fs: seq<Frame>, k: nat, clock: nat -> int)
    requires c.Ok() && k <= |fs|
    ensures ServeAll(c, snapshot, s, fs[..k], clock).node.storeCalls <= ServeAll(c, snapshot, s, fs, clock).node.storeCalls
  {
    hide ServeFrame, Replies;
    if k < |fs| {
      var n := |fs| - 1;
      assert fs[..n][..k] == fs[..k];
      StoreCallsGrow(c, snapshot, s, fs[..n], k, clock);
      FrameCalls(c, snapshot, ServeAll(c, snapshot, s, fs[..n], clock), fs[n], clock(n));
    } else {
      assert fs[..k] == fs;
    }
  }

  lemma FrameCalls(c: Node.Config, snapshot: seq<Message>, s: Session, f: Frame, now: int)
    requires c.Ok()
    ensures s.node.storeCalls <= ServeFrame(c, snapshot, s, f, now).node.storeCalls
  {}

  /** After command n an entry that was there before command i and was not acknowledged since
      is the same but for its forwards. */
  ghost predicate Kept(c: Node.Config, snapshot: seq<Message>, s: Session, fs: seq<Frame>, i: nat, n: nat, clock: nat -> int, id: Id)
    requires c.Ok() && i <= n <= |fs|
  {
    var (h, t) := (ServeAll(c, snapshot, s, fs[..i], clock).hold, ServeAll(c, snapshot, s, fs[..n], clock).hold);
    id in h.meta ==>
      && id in t.meta && SameFile(h, t, id)
      && ForwardedBy(h.meta[id], t.meta[id], Forwards(c, snapshot, s, fs, i, n, clock, id), LastForward(c, snapshot, s, fs, i, n, clock, id))
  }

  lemma {:induction false} EntryKept(c: Node.Config, snapshot: seq<Message>, s: Session, fs: seq<Frame>, i: nat, n: nat, clock: nat -> int, id: Id)
    requires c.Ok() && i <= n <= |fs| && Ack(id) !in fs[i..n]
    ensures Kept(c, snapshot, s, fs, i, n, clock, id)
    decreases n
  {
    hide ServeFrame, Replies;
    if i < n {
      assert fs[i..n][..n - 1 - i] == fs[i..n - 1] && fs[i..n][n - 1 - i] == fs[n - 1];
      EntryKept(c, snapshot, s, fs, i, n - 1, clock, id);
      SessionStep(c, snapshot, s, fs, n - 1, clock);
      FrameKeeps(c, snapshot, ServeAll(c, snapshot, s, fs[..n - 1], clock), fs[n - 1], clock(n - 1), id);
    }
  }

  /** An entry appears exactly when the handler stores its message, with the default hop TTL
      and the moment of the command. */
  lemma EntryBorn(c: Node.Config, snapshot: seq<Message>, s: Session, fs: seq<Frame>, k: nat, clock: nat -> int, id: Id)
    requires c.Ok() && k < |fs| && id !in ServeAll(c, snapshot, s, fs[..k], clock).hold.meta
    ensures var (u, t) := (ServeAll(c, snapshot, s, fs[..k], clock), ServeAll(c, snapshot, s, fs[..k + 1], clock));
      if fs[k].Msg? && Parse(fs[k].data).Some? && Parse(fs[k].data).value.id == id && t.node.storeCalls != u.node.storeCalls then
        var m := Parse(fs[k].data).value;
        && t.node.storeCalls == u.node.storeCalls + [m]
        && id in t.hold.meta && t.hold.meta[id] == Hold.HoldMeta(10, 0, clock(k), m.timestamp, false, 0)
        && id in t.hold.files && t.hold.files[id] == Wire(m)
      else id !in t.hold.meta
  {
    SessionStep(c, snapshot, s, fs, k, clock);
    FrameBears(c, snapshot, ServeAll(c, snapshot, s, fs[..k], clock), fs[k], clock(k), id);
  }

  lemma FrameBears(c: Node.Config, snapshot: seq<Message>, s: Session, f: Frame, now: int, id: Id)
    requires c.Ok() && id !in s.hold.meta
    ensures var t := ServeFrame(c, snapshot, s, f, now);
      if f.Msg? && Parse(f.data).Some? && Parse(f.data).value.id == id && t.node.storeCalls != s.node.storeCalls then
        var m := Parse(f.data).value;
        && t.node.storeCalls == s.node.storeCalls + [m]
        && id in t.hold.meta && t.hold.meta[id] == Hold.HoldMeta(10, 0, now, m.timestamp, false, 0)
        && id in t.hold.files && t.hold.files[id] == Wire(m)
      else id !in t.hold.meta
  {
    if f.Want? { MarkSentCounts(s.hold, AnswerAll(f.ids, snapshot, s.hold.files), now, id); }
  }

  /** One command sends the answers, one WANT per manifest with a gap, or one ACK. */
  lemma CommandSends(c: Node.Config, snapshot: seq<Message>, s: Session, f: Frame)
    ensures var rs := Replies(c, snapshot, s, f);
      && Part(rs, Messages) == MsgFrames(AnswerTo(c, snapshot, s.hold.files, f))
      && Part(rs, Wants) == WantFrames([f], PrefixSet(snapshot))
      && |rs| == |Part(rs, Messages)| + |Part(rs, Wants)| + |ReceivedOne(f)|
  {
    assert [f][..0] == [];
    PartOfMessages(AnswerTo(c, snapshot, s.hold.files, f));
    match f
    case Have(_) =>
    case Want(_) =>
    case Msg(d) => if Parse(d).Some? { PartOfOne(Ack(Parse(d).value.id)); }
    case Ack(_) =>
    case Manifest(ps) => PartOfOne(Want(WantFor(ps, PrefixSet(snapshot))));
  }

  lemma PartOfOne(f: Frame)
    ensures forall k :: Part([f], k) == if IsOf(f, k) then [f] else []
  {
    assert [f][..0] == [];
  }

  lemma WantFramesSnoc(front: seq<Frame>, f: Frame, mine: set<Bytes8>)
    ensures WantFrames(front + [f], mine) == WantFrames(front, mine) + WantFrames([f], mine)
  {
    assert (front + [f])[..|front|] == front;
    assert [f][..0] == [];
  }

  lemma MsgFramesConcat(a: seq<Message>, b: seq<Message>)
    ensures MsgFrames(a + b) == MsgFrames(a) + MsgFrames(b)
  {}

  /** What a connection sent and marked. */
  ghost predicate SentAndMarked(c: Node.Config, snapshot: seq<Message>, s: Session, fs: seq<Frame>, clock: nat -> int)
    requires c.Ok()
  {
    var t := ServeAll(c, snapshot, s, fs, clock);
    var answers, wants := Answers(c, snapshot, s, fs, clock), WantFrames(fs, PrefixSet(snapshot));
    && t.marks == s.marks + AckedIds(fs)
    && Part(t.sent, Messages) == Part(s.sent, Messages) + MsgFrames(answers)
    && Part(t.sent, Wants) == Part(s.sent, Wants) + wants
    && |t.sent| == |s.sent| + |answers| + |wants| + |Received(fs)|
  }

  lemma {:induction false} AllSent(c: Node.Config, snapshot: seq<Message>, s: Session, fs: seq<Frame>, clock: nat -> int)
    requires c.Ok()
    ensures SentAndMarked(c, snapshot, s, fs, clock)
  {
    hide ServeFrame, Replies;
    if fs == [] {
      assert MsgFrames([]) == [];
    } else {
      var front, f := fs[..|fs| - 1], fs[|fs| - 1];
      assert fs == front + [f];
      AllSent(c, snapshot, s, front, clock);
      OneMoreSent(c, snapshot, s, front, f, clock);
    }
  }

  lemma OneMoreSent(c: Node.Config, snapshot: seq<Message>, s: Session, front: seq<Frame>, f: Frame, clock: nat -> int)
    requires c.Ok() && SentAndMarked(c, snapshot, s, front, clock)
    ensures SentAndMarked(c, snapshot, s, front + [f], clock)
  {
    hide ServeFrame, Replies, AnswerTo, WantFrames, Part, Received, AckedIds, ReceivedOne;
    var fs := front + [f];
    assert fs[..|fs| - 1] == front;
    var u := ServeAll(c, snapshot, s, front, clock);
    var rs, ms := Replies(c, snapshot, u, f), AnswerTo(c, snapshot, u.hold.files, f);
    FrameSends(c, snapshot, u, f, clock(|front|));
    CommandMarks(c, snapshot, u, f, clock(|front|));
    CommandSends(c, snapshot, u, f);
    AckedConcat(front, [f]);
    ReceivedSnoc(front, f);
    WantFramesSnoc(front, f, PrefixSet(snapshot));
    PartConcat(u.sent, rs, Messages);
    PartConcat(u.sent, rs, Wants);
    MsgFramesConcat(Answers(c, snapshot, s, front, clock), ms);
  }

  lemma CommandMarks(c: Node.Config, snapshot: seq<Message>, s: Session, f: Frame, now: int)
    requires c.Ok()
    ensures ServeFrame(c, snapshot, s, f, now).marks == s.marks + AckedIds([f])
  {
    assert [f][..0] == [];
  }

  lemma ConnectionMarks(c: Node.Config, snapshot: seq<Message>, s: Session, fs: seq<Frame>, clock: nat -> int)
    requires c.Ok()
    ensures ServeAll(c, snapshot, s, fs, clock).marks == s.marks + AckedIds(fs)
  {
    hide ServeFrame, Replies;
    AllSent(c, snapshot, s, fs, clock);
  }

  /** Over every sequence of commands.  Sent: exactly the answers to HAVE and WANT, in order,
      one WANT per manifest with a gap, and one ACK per message received.  Marked as delivered:
      exactly the acknowledged IDs, in order.  Hold: an acknowledged ID not stored again is
      gone, metadata and file; every other entry stays as it was, except that each message
      sent in answer to a WANT counts as one forward. */
  lemma ConnectionEffects(c: Node.Config, snapshot: seq<Message>, s: Session, fs: seq<Frame>, clock: nat -> int)
    requires c.Ok()
    ensures SentAndMarked(c, snapshot, s, fs, clock)
    ensures forall k: nat, id :: k < |fs| && fs[k] == Ack(id) && NotStoredSince(c, snapshot, s, fs, k + 1, clock, id) ==>
      Hold.Absent(ServeAll(c, snapshot, s, fs, clock).hold, id)
    ensures forall i: nat, id :: i <= |fs| && Ack(id) !in fs[i..] ==> Kept(c, snapshot, s, fs, i, |fs|, clock, id)
  {
    AllSent(c, snapshot, s, fs, clock);
    forall k: nat, id | k < |fs| && fs[k] == Ack(id) && NotStoredSince(c, snapshot, s, fs, k + 1, clock, id)
      ensures Hold.Absent(ServeAll(c, snapshot, s, fs, clock).hold, id)
    {
      AckDeletes(c, snapshot, s, fs, k, clock, id);
    }
    forall i: nat, id | i <= |fs| && Ack(id) !in fs[i..] ensures Kept(c, snapshot, s, fs, i, |fs|, clock, id) {
      assert fs[i..] == fs[i..|fs|];
      EntryKept(c, snapshot, s, fs, i, |fs|, clock, id);
    }
  }

  // ----- single answers -----

  /** HAVE: every snapshot message as often as it is listed, or never if the peer's filter
      reports it. */
  lemma {:induction false} HaveSendsUnreported(sha: HashFn, bloom: seq<byte>, snapshot: seq<Message>, m: Message)
    ensures multiset(HaveAnswer(sha, bloom, snapshot))[m] ==
      if Bloom.RemoteHas(sha, bloom, m.id, 10) then 0 else multiset(snapshot)[m]
  {
    if snapshot != [] {
      var front, x := snapshot[..|snapshot| - 1], snapshot[|snapshot| - 1];
      HaveSendsUnreported(sha, bloom, front, m);
      assert snapshot == front + [x];
    }
  }

  /** Snapshot message i is the first with this ID. */
  predicate FirstWith(snapshot: seq<Message>, id: Id, i: nat) {
    i < |snapshot| && snapshot[i].id == id && forall j :: 0 <= j < i ==> snapshot[j].id != id
  }

  /** A full ID in a WANT is answered with one message of that ID: the first in the snapshot,
      or else the one whose file the hold has; with nothing only if there is neither. */
  lemma FullIdAnswered(id: Id, snapshot: seq<Message>, files: map<Id, seq<byte>>, i: nat)
    requires exists k :: 8 <= k < 32 && id[k] != 0
    ensures FirstWith(snapshot, id, i) ==> Answer(id, snapshot, files) == [snapshot[i]]
    ensures (forall k :: 0 <= k < |snapshot| ==> snapshot[k].id != id) ==>
      Answer(id, snapshot, files) == if id in files && Parses(files[id]) then [Parse(files[id]).value] else []
  {
    if FirstWith(snapshot, id, i) { FirstExactAt(snapshot, id, i); }
    if forall k :: 0 <= k < |snapshot| ==> snapshot[k].id != id { NoExact(snapshot, id); }
  }

  lemma {:induction false} FirstExactAt(snapshot: seq<Message>, id: Id, i: nat)
    requires FirstWith(snapshot, id, i)
    ensures FirstExact(snapshot, id) == [snapshot[i]]
  {
    if i > 0 {
      assert snapshot[0].id != id;
      forall j | 0 <= j < i - 1 ensures snapshot[1..][j].id != id { assert snapshot[1..][j] == snapshot[j + 1]; }
      FirstExactAt(snapshot[1..], id, i - 1);
    }
  }

  lemma {:induction false} NoExact(snapshot: seq<Message>, id: Id)
    requires forall k :: 0 <= k < |snapshot| ==> snapshot[k].id != id
    ensures FirstExact(snapshot, id) == []
  {
    if snapshot != [] { NoExact(snapshot[1..], id); }
  }

  /** An ID whose bytes from the ninth on are zero stands for its prefix: every snapshot message
      sharing the first 8 bytes is sent, as often as it is listed, and nothing else. */
  lemma PrefixAnswered(id: Id, snapshot: seq<Message>, files: map<Id, seq<byte>>, m: Message)
    requires forall k :: 8 <= k < 32 ==> id[k] == 0
    ensures multiset(Answer(id, snapshot, files))[m] == if m.id[..8] == id[..8] then multiset(snapshot)[m] else 0
  {
    WithPrefixCount(snapshot, Prefix(id), m);
  }
}
