/** The DNS relay's queues over whole runs: what polls deliver, and what trimming loses
    (cmd/dns-relay/main.go). */
module DnsQueues {
  import opened Bytes
  import opened Reassembly
  import opened DnsNames
  import opened DnsTunnel
  import Base32

  datatype State = State(clients: Clients, bufs: Buffers)

  /** The labels of a query in front of the domain, and the client a poll finds for its session
      (the program takes the first of a map iteration). */
  datatype Query = Query(ls: seq<string>, pick: string)

  function PendingOf(cs: Clients, id: string): seq<string> { if id in cs then cs[id].pending else [] }

  /** The poll reaches a client of its session. */
  predicate Reaches(cs: Clients, q: Query) {
    |q.ls| >= 2 && q.pick in cs && cs[q.pick].sessionID == q.ls[1]
  }

  function PollCount(queue: seq<string>): (n: nat)
    ensures n <= |queue|
  {
    if |queue| < PER_POLL then |queue| else PER_POLL
  }

  function Took(cs: Clients, q: Query): (Clients, Reply) {
    if !Reaches(cs, q) then (cs, Silent) else
      var queue := cs[q.pick].pending;
      (cs[q.pick := cs[q.pick].(pending := queue[PollCount(queue)..])], Txt(queue[..PollCount(queue)]))
  }

  /** Whatever HandlePoll does is a Took step. */
  lemma PolledIsTook(cs: Clients, ls: seq<string>, cs': Clients, reply: Reply)
    requires Polled(cs, ls, cs', reply)
    ensures exists pick :: (cs', reply) == Took(cs, Query(ls, pick))
  {
    if |ls| < 2 || !HasSession(cs, ls[1]) {
      assert (cs', reply) == Took(cs, Query(ls, ""));
    } else {
      var id :| PolledFrom(cs, ls[1], id, cs', reply);
      var queue := cs[id].pending;
      assert reply.records == queue[..|reply.records|] && cs'[id].pending == queue[|reply.records|..];
      assert (cs', reply) == Took(cs, Query(ls, id));
    }
  }

  predicate IsPoll(q: Query) { q.ls != [] && q.ls[0] == "poll" }

  /** One query, as HandleQuery serves it. */
  function Step(s: State, q: Query): State
    requires q.ls != []
  {
    if q.ls[0] == "reg" then s.(clients := DnsTunnel.Registered(s.clients, q.ls).0)
    else if q.ls[0] == "poll" then s.(clients := Took(s.clients, q).0)
    else
      var r := Sent(s.clients, s.bufs, q.ls);
      State(r.0, r.1)
  }

  predicate Queries(qs: seq<Query>) { forall i :: 0 <= i < |qs| ==> qs[i].ls != [] }

  function Run(s: State, qs: seq<Query>): State
    requires Queries(qs)
  {
    if qs == [] then s else Step(Run(s, qs[..|qs| - 1]), qs[|qs| - 1])
  }

  // ----- what enters a queue -----

  /** The frame a data query completes. */
  function CompletedFrame(s: State, ls: seq<string>): Option<seq<byte>> {
    var c := ReadSend(ls);
    if c.None? then None else
      var done := Arrive(s.bufs, c.value, false).1;
      if done.None? then None else
        var frame := Base32.Decode(Base32.ToUpper(done.value.0));
        if frame.Some? && |frame.value| >= 2 * ID_SIZE then frame else None
  }

  /** The record a data query stands for, if it completes a frame. */
  function CompletedRecord(s: State, ls: seq<string>): string
    requires CompletedFrame(s, ls).Some?
  {
    var c := ReadSend(ls).value;
    MarkerSeq(ls);
    Record(c.key.1, c.key.0, Arrive(s.bufs, c, false).1.value.0)
  }

  /** The record a query appends to the queue of id. */
  function Enqueued(s: State, q: Query, id: string): Option<string>
    requires q.ls != []
  {
    if q.ls[0] == "reg" || q.ls[0] == "poll" || id !in s.clients then None else
      var f := CompletedFrame(s, q.ls);
      if f.Some? && IsFor(f.value, id) then Some(CompletedRecord(s, q.ls)) else None
  }

  lemma SentClients(s: State, ls: seq<string>)
    ensures var cs := Sent(s.clients, s.bufs, ls).0;
      cs == if CompletedFrame(s, ls).None? then s.clients
            else Queued(s.clients, CompletedFrame(s, ls).value, CompletedRecord(s, ls))
  {
    MarkerSeq(ls);
  }

  /** A queue changes by one arrival, by a poll of its client, or not at all. */
  lemma StepQueue(s: State, q: Query, id: string)
    requires q.ls != []
    ensures var (before, after) := (PendingOf(s.clients, id), PendingOf(Step(s, q).clients, id));
      after ==
        if Enqueued(s, q, id).Some? then Trim(before + [Enqueued(s, q, id).value])
        else if IsPoll(q) && Reaches(s.clients, q) && q.pick == id then before[PollCount(before)..]
        else before
  {
    if q.ls[0] != "reg" && q.ls[0] != "poll" { SendQueue(s, q, id); }
  }

  lemma SendQueue(s: State, q: Query, id: string)
    requires q.ls != [] && q.ls[0] != "reg" && q.ls[0] != "poll"
    ensures var (before, after) := (PendingOf(s.clients, id), PendingOf(Sent(s.clients, s.bufs, q.ls).0, id));
      after == if Enqueued(s, q, id).Some? then Trim(before + [Enqueued(s, q, id).value]) else before
  {
    SentClients(s, q.ls);
    var f := CompletedFrame(s, q.ls);
    if f.Some? && id in s.clients { QueuedFor(s.clients, f.value, CompletedRecord(s, q.ls), id); }
  }

  // ----- conservation and order -----

  datatype Fate = Delivered | Trimmed

  /** For one client: all records ever enqueued, the fate of those that left the queue (always
      the oldest ones), and what its polls returned, in order. */
  datatype Log = Log(enqueued: seq<string>, fates: seq<Fate>, polled: seq<string>)

  function Many(n: nat): (fs: seq<Fate>)
    ensures |fs| == n
  { seq(n, _ => Delivered) }

  function Logged(l: Log, s: State, q: Query, id: string): Log
    requires q.ls != []
  {
    var queue := PendingOf(s.clients, id);
    if Enqueued(s, q, id).Some? then
      Log(l.enqueued + [Enqueued(s, q, id).value], l.fates + if |queue| >= MAX_PENDING then [Trimmed] else [], l.polled)
    else if IsPoll(q) && Reaches(s.clients, q) && q.pick == id then
      Log(l.enqueued, l.fates + Many(PollCount(queue)), l.polled + Took(s.clients, q).1.records)
    else l
  }

  function LogOf(s: State, qs: seq<Query>, id: string): Log
    requires Queries(qs)
  {
    if qs == [] then Log(PendingOf(s.clients, id), [], []) else
      var front := qs[..|qs| - 1];
      Logged(LogOf(s, front, id), Run(s, front), qs[|qs| - 1], id)
  }

  /** The records of fate Delivered, in order. */
  function DeliveredOf(enqueued: seq<string>, fates: seq<Fate>): seq<string>
    requires |fates| <= |enqueued|
  {
    if fates == [] then [] else
      var n := |fates| - 1;
      DeliveredOf(enqueued, fates[..n]) + if fates[n] == Delivered then [enqueued[n]] else []
  }

  /** A trimmed record was the oldest of 200 when one more arrived. */
  predicate TrimsLate(l: Log) {
    forall k :: 0 <= k < |l.fates| && l.fates[k] == Trimmed ==> k + 200 < |l.enqueued|
  }

  predicate LogInv(queue: seq<string>, l: Log) {
    && |l.fates| <= |l.enqueued| && |queue| <= 200
    && queue == l.enqueued[|l.fates|..]
    && l.polled == DeliveredOf(l.enqueued, l.fates)
    && TrimsLate(l)
  }

  lemma {:induction false} DeliveredMore(enqueued: seq<string>, r: string, fates: seq<Fate>)
    requires |fates| <= |enqueued|
    ensures DeliveredOf(enqueued + [r], fates) == DeliveredOf(enqueued, fates)
  {
    if fates != [] { DeliveredMore(enqueued, r, fates[..|fates| - 1]); }
  }

  lemma DeliveredTrim(enqueued: seq<string>, fates: seq<Fate>)
    requires |fates| < |enqueued|
    ensures DeliveredOf(enqueued, fates + [Trimmed]) == DeliveredOf(enqueued, fates)
  {
    assert (fates + [Trimmed])[..|fates|] == fates;
  }

  lemma {:induction false} DeliveredPoll(enqueued: seq<string>, fates: seq<Fate>, n: nat)
    requires |fates| + n <= |enqueued|
    ensures DeliveredOf(enqueued, fates + Many(n)) == DeliveredOf(enqueued, fates) + enqueued[|fates|..|fates| + n]
  {
    if n == 0 {
      assert fates + Many(0) == fates;
    } else {
      DeliveredPoll(enqueued, fates, n - 1);
      assert (fates + Many(n))[..|fates| + n - 1] == fates + Many(n - 1);
      assert enqueued[|fates|..|fates| + n] == enqueued[|fates|..|fates| + n - 1] + [enqueued[|fates| + n - 1]];
    }
  }

  lemma ArrivalKeepsLog(queue: seq<string>, l: Log, r: string)
    requires LogInv(queue, l)
    ensures LogInv(Trim(queue + [r]),
                   Log(l.enqueued + [r], l.fates + if |queue| >= MAX_PENDING then [Trimmed] else [], l.polled))
  {
    DeliveredMore(l.enqueued, r, l.fates);
    assert (l.enqueued + [r])[|l.fates|..] == queue + [r];
    assert l.fates + [] == l.fates;
    if |queue| >= MAX_PENDING { DeliveredTrim(l.enqueued + [r], l.fates); }
  }

  lemma PollKeepsLog(queue: seq<string>, l: Log)
    requires LogInv(queue, l)
    ensures var n := PollCount(queue);
      LogInv(queue[n..], Log(l.enqueued, l.fates + Many(n), l.polled + queue[..n]))
  {
    DeliveredPoll(l.enqueued, l.fates, PollCount(queue));
  }

  /** For every client and every run of queries: the records enqueued are, oldest first, those
      that left and those still queued; polls returned exactly the ones that left by delivery,
      in order and without repeats; every other one that left was trimmed, which happens only
      to the oldest of 200 waiting records when one more arrives. */
  lemma {:induction false} QueueConserves(s: State, qs: seq<Query>, id: string)
    requires Queries(qs) && |PendingOf(s.clients, id)| <= MAX_PENDING
    ensures LogInv(PendingOf(Run(s, qs).clients, id), LogOf(s, qs, id))
  {
    if qs != [] {
      var front, q := qs[..|qs| - 1], qs[|qs| - 1];
      var t, l := Run(s, front), LogOf(s, front, id);
      var queue := PendingOf(t.clients, id);
      QueueConserves(s, front, id);
      StepQueue(t, q, id);
      if Enqueued(t, q, id).Some? {
        ArrivalKeepsLog(queue, l, Enqueued(t, q, id).value);
      } else if IsPoll(q) && Reaches(t.clients, q) && q.pick == id {
        PollKeepsLog(queue, l);
      }
    }
  }

  /** So a record is lost only if 200 more arrive while it waits. */
  lemma LostOnlyBehind200(s: State, qs: seq<Query>, id: string, k: nat)
    requires Queries(qs) && |PendingOf(s.clients, id)| <= MAX_PENDING
    requires k < |LogOf(s, qs, id).enqueued| <= k + 200
    ensures var l := LogOf(s, qs, id);
      l.enqueued[k] in if k < |l.fates| then l.polled else PendingOf(Run(s, qs).clients, id)
  {
    QueueConserves(s, qs, id);
    KeptBefore200(PendingOf(Run(s, qs).clients, id), LogOf(s, qs, id), k);
  }

  lemma KeptBefore200(queue: seq<string>, l: Log, k: nat)
    requires LogInv(queue, l) && k < |l.enqueued| <= k + 200
    ensures l.enqueued[k] in if k < |l.fates| then l.polled else queue
  {
    if k < |l.fates| {
      DeliveredIn(l.enqueued, l.fates, k);
    } else {
      assert queue[k - |l.fates|] == l.enqueued[k];
    }
  }

  lemma {:induction false} DeliveredIn(enqueued: seq<string>, fates: seq<Fate>, k: nat)
    requires k < |fates| <= |enqueued| && fates[k] == Delivered
    ensures enqueued[k] in DeliveredOf(enqueued, fates)
  {
    if k < |fates| - 1 { DeliveredIn(enqueued, fates[..|fates| - 1], k); }
  }

  // ----- registration -----

  /** The session the last registration of id named. */
  function SessionNamed(qs: seq<Query>, id: string): Option<string> {
    if qs == [] then None else
      var ls := qs[|qs| - 1].ls;
      if |ls| >= 3 && ls[0] == "reg" && ls[1] == id then Some(ls[2]) else SessionNamed(qs[..|qs| - 1], id)
  }

  /** A registration makes its user a client of the named session, changes no queue and no
      other client; every other query leaves clients and sessions as they are. */
  lemma StepSession(s: State, q: Query, id: string)
    requires q.ls != []
    ensures var (cs, t) := (s.clients, Step(s, q).clients);
      var here := |q.ls| >= 3 && q.ls[0] == "reg" && q.ls[1] == id;
      && (id in t <==> id in cs || here)
      && (id in t ==> t[id].sessionID == if here then q.ls[2] else cs[id].sessionID)
      && (q.ls[0] == "reg" ==> PendingOf(t, id) == PendingOf(cs, id))
      && (q.ls[0] == "reg" && !here && id in cs ==> t[id] == cs[id])
  {
    if q.ls[0] != "reg" && q.ls[0] != "poll" {
      SentClients(s, q.ls);
      var f := CompletedFrame(s, q.ls);
      if f.Some? { SameClients(s.clients, f.value, CompletedRecord(s, q.ls), id); }
    }
  }

  lemma SameClients(cs: Clients, frame: seq<byte>, record: string, id: string)
    requires |frame| >= 2 * ID_SIZE
    ensures var t := Queued(cs, frame, record);
      t.Keys == cs.Keys && (id in cs ==> t[id].sessionID == cs[id].sessionID)
  {}

  /** In every run the clients are those there at the start and those who registered, each with
      the session its last registration named. */
  lemma {:induction false} SessionsAreRegistered(s: State, qs: seq<Query>, id: string)
    requires Queries(qs)
    ensures var t := Run(s, qs).clients; var named := SessionNamed(qs, id);
      && (id in t <==> id in s.clients || named.Some?)
      && (id in t ==> t[id].sessionID == if named.Some? then named.value else s.clients[id].sessionID)
  {
    if qs != [] {
      SessionsAreRegistered(s, qs[..|qs| - 1], id);
      StepSession(Run(s, qs[..|qs| - 1]), qs[|qs| - 1], id);
    }
  }

  /** No other client has the session: none was there with it and kept it, and none last
      registered with it. */
  predicate OnlyNamedBy(s: State, qs: seq<Query>, session: string, u: string)
    requires Queries(qs)
  {
    && (forall v :: v in s.clients && v != u && SessionNamed(qs, v).None? ==> s.clients[v].sessionID != session)
    && (forall i :: 0 <= i < |qs| && |qs[i].ls| >= 3 && qs[i].ls[0] == "reg" && qs[i].ls[1] != u ==>
          SessionNamed(qs, qs[i].ls[1]) != Some(session))
  }

  lemma {:induction false} NamedByQuery(qs: seq<Query>, id: string)
    ensures SessionNamed(qs, id).Some? ==>
      exists i :: 0 <= i < |qs| && |qs[i].ls| >= 3 && qs[i].ls[0] == "reg" && qs[i].ls[1] == id
  {
    if qs != [] {
      var n := |qs| - 1;
      NamedByQuery(qs[..n], id);
      if SessionNamed(qs[..n], id).Some? {
        var i :| 0 <= i < n && |qs[..n][i].ls| >= 3 && qs[..n][i].ls[0] == "reg" && qs[..n][i].ls[1] == id;
        assert qs[i].ls == qs[..n][i].ls;
      }
      assert qs[n] == qs[|qs| - 1];
    }
  }

  /** After any run in which u last registered with a session no other client has, a poll for
      that session reaches u: it is answered with the oldest records of u's queue, at most
      ten, which leave the queue, and nothing else changes. */
  lemma PollReachesRegistered(s: State, qs: seq<Query>, u: string, session: string, cs': Clients, reply: Reply)
    requires Queries(qs) && SessionNamed(qs, u) == Some(session) && OnlyNamedBy(s, qs, session, u)
    requires Polled(Run(s, qs).clients, ["poll", session], cs', reply)
    ensures var cs := Run(s, qs).clients;
      u in cs &&
      var queue := cs[u].pending; var n := if |queue| < 10 then |queue| else 10;
      reply == Txt(queue[..n]) && cs' == cs[u := cs[u].(pending := queue[n..])]
  {
    var cs := Run(s, qs).clients;
    SessionsAreRegistered(s, qs, u);
    assert HasSession(cs, session);
    var id :| PolledFrom(cs, session, id, cs', reply);
    if id != u {
      SessionsAreRegistered(s, qs, id);
      NamedByQuery(qs, id);
      assert false;
    }
    var queue := cs[u].pending;
    assert reply.records == queue[..|reply.records|] && cs'[u].pending == queue[|reply.records|..];
  }

  /** The names of a client's register and poll queries reach those commands with the client's
      ID and session: the hex of the first 20 and of the first 4 bytes of its key. */
  lemma ClientNamesAreRead(pub: Bytes32, domain: string)
    ensures var (u, session) := (Hex(pub[..20]), Hex(pub[..4]));
      && CommandLabels("reg." + (u + ("." + session)) + ("." + domain), domain) == Some(["reg", u, session])
      && CommandLabels("poll." + session + ("." + domain), domain) == Some(["poll", session])
  {
    var u, session := Hex(pub[..20]), Hex(pub[..4]);
    HexLength(pub[..20]);
    HexLength(pub[..4]);
    JoinTwo(u, session);
    JoinTwo("poll", session);
    assert ["reg", u, session][1..] == [u, session];
    assert "reg" + ("." + (u + ("." + session))) == "reg." + (u + ("." + session));
    assert "poll" + ("." + session) == "poll." + session;
    LabelsOfName(["reg", u, session], domain);
    LabelsOfName(["poll", session], domain);
  }

  lemma JoinTwo(b: string, c: string)
    ensures Join([b, c]) == b + ("." + c)
  {
    assert [b, c][1..] == [c];
  }
}
