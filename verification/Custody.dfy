/** Custody of messages between two nodes on a LAN connection: MSG, ACK and delete-on-ACK of
    internal/mesh/transport.go with the handler and ACK callback of cmd/iskra/main.go.

    Two symmetric nodes, two FIFO channels, every interleaving.  A receiver acknowledges a
    message before its handler runs, and whatever the handler then decides; the sender
    deletes on the ACK.  Which snapshot messages are sent (MANIFEST/WANT, HAVE, broadcast) is
    left open, so every choice is covered.  Hold cleanup is not a step here. */
module Custody {
  import opened Bytes
  import opened Messages
  import opened Node
  import Hold

  datatype Packet = M(m: Message) | A(id: Id)

  /** The filter, the hold (each message as its file reads back) and the message in hand.
      `known`, `accepted`, `refused`, `delivered` and `confirmed` are history: what was ever in
      the hold, what the handler took, what it dropped as a duplicate, what it gave to the
      user, and what a delivery confirmation released. */
  datatype Peer = Peer(
    filter: set<nat>,
    hold: map<Id, Message>,
    handling: Option<Message>,
    known: set<Message>,
    accepted: set<Message>,
    refused: set<Message>,
    delivered: set<Message>,
    confirmed: set<Id>)

  /** The system seen from one node: itself, the other, its outgoing and incoming channel. */
  datatype View = View(me: Peer, peer: Peer, out: seq<Packet>, inn: seq<Packet>)

  function Flip(v: View): View { View(v.peer, v.me, v.inn, v.out) }

  /** Both configurations, and the fact that an ID names one message. */
  datatype World = World(a: Config, b: Config, named: Id -> Message)
  {
    predicate Ok() { a.Ok() && b.Ok() }
    function Flip(): World { World(b, a, named) }
  }

  // ----- steps of the node `me` -----

  datatype Step =
    | Create(m: Message)   // the API stores an own message and adds it to the filter
    | Send(m: Message)     // a MSG frame with any message that is or was in the hold
    | Receive              // read a MSG frame: ACK first, then hand over to the handler
    | Deliver              // the handler call
    | GetAck               // read an ACK frame: delete from the hold
    | Confirm(id: Id)      // a delivery confirmation deletes from the hold
    | Close                // the connection breaks: frames in flight are lost

  predicate Enabled(w: World, v: View, s: Step) {
    match s
    case Create(m) => Carried(m) == w.named(m.id) && m.id !in v.me.hold
    case Send(m) => m in v.me.known
    case Receive => v.inn != [] && v.inn[0].M? && v.me.handling.None?
    case Deliver => v.me.handling.Some?
    case GetAck => v.inn != [] && v.inn[0].A? && v.me.handling.None?
    case Confirm(id) => true
    case Close => true
  }

  function Handled(c: Config, p: Peer, m: Message): Peer
    requires c.Ok()
  {
    var q := p.(handling := None);
    match Judge(c, p.filter, m)
    case Duplicate => q.(refused := q.refused + {m})
    case Rejected => q.(filter := q.filter + Probes(c, m.id))
    case Accepted =>
      var r := q.(filter := q.filter + Probes(c, m.id), accepted := q.accepted + {m});
      if IsForRecipient(m, c.me) then r.(delivered := r.delivered + {m})
      else if ShouldStoreInHold(m.contentType) then
        if m.id in r.hold then r else r.(hold := r.hold[m.id := Carried(m)], known := r.known + {Carried(m)})
      else r
  }

  /** The custody hold and the hold of the node module: the same IDs, each with the file of
      its message. */
  predicate SameHold(h: Hold.HoldState, hold: map<Id, Message>) {
    h.meta.Keys == hold.Keys && h.files.Keys == hold.Keys && forall id :: id in hold ==> h.files[id] == Wire(hold[id])
  }

  /** The Deliver step is the handler of the node module: same filter, same API call ... */
  lemma HandledIsIncoming(c: Config, p: Peer, m: Message, s: NodeState)
    requires c.Ok() && s.filter == p.filter
    ensures Handled(c, p, m).filter == Incoming(c, s, m).filter
    ensures Incoming(c, s, m).apiCalls == if m in Handled(c, p.(accepted := {}), m).accepted then s.apiCalls + [m] else s.apiCalls
  {}

  /** ... and the same hold, file by file. */
  lemma HandledHoldIsStored(c: Config, p: Peer, m: Message, h: Hold.HoldState, now: int)
    requires c.Ok() && SameHold(h, p.hold)
    ensures SameHold(
      if Judge(c, p.filter, m).Accepted? && StoresIncoming(c, m)
      then Hold.Stored(h, m, Hold.DEFAULT_HOP_TTL, now) else h,
      Handled(c, p, m).hold)
  {
    HandledHold(c, p, m);
    if Judge(c, p.filter, m).Accepted? && StoresIncoming(c, m) { SameHoldStored(h, p.hold, m, now); }
  }

  lemma HandledHold(c: Config, p: Peer, m: Message)
    requires c.Ok()
    ensures Handled(c, p, m).hold ==
      if Judge(c, p.filter, m).Accepted? && StoresIncoming(c, m) && m.id !in p.hold then p.hold[m.id := Carried(m)] else p.hold
  {}

  lemma SameHoldStored(h: Hold.HoldState, hold: map<Id, Message>, m: Message, now: int)
    requires SameHold(h, hold)
    ensures SameHold(Hold.Stored(h, m, Hold.DEFAULT_HOP_TTL, now), if m.id in hold then hold else hold[m.id := Carried(m)])
  {}

  function Apply(w: World, v: View, s: Step): View
    requires w.Ok() && Enabled(w, v, s)
  {
    match s
    case Create(m) =>
      v.(me := v.me.(filter := v.me.filter + Probes(w.a, m.id), hold := v.me.hold[m.id := Carried(m)], known := v.me.known + {Carried(m)}))
    case Send(m) => v.(out := v.out + [M(m)])
    case Receive => v.(inn := v.inn[1..], out := v.out + [A(v.inn[0].m.id)], me := v.me.(handling := Some(v.inn[0].m)))
    case Deliver => v.(me := Handled(w.a, v.me, v.me.handling.value))
    case GetAck => v.(inn := v.inn[1..], me := v.me.(hold := v.me.hold - {v.inn[0].id}))
    case Confirm(id) => v.(me := v.me.(hold := v.me.hold - {id}, confirmed := v.me.confirmed + {id}))
    case Close => v.(inn := [], out := [])
  }

  /** A run: a step of either node at a time. */
  datatype Move = ByA(s: Step) | ByB(s: Step)

  predicate Possible(w: World, v: View, mv: Move)
    requires w.Ok()
  {
    match mv
    case ByA(s) => Enabled(w, v, s)
    case ByB(s) => Enabled(w.Flip(), Flip(v), s)
  }

  function Next(w: World, v: View, mv: Move): View
    requires w.Ok() && Possible(w, v, mv)
  {
    match mv
    case ByA(s) => Apply(w, v, s)
    case ByB(s) => Flip(Apply(w.Flip(), Flip(v), s))
  }

  /** The state after the moves; None if one of them was not possible. */
  function Run(w: World, v: View, ms: seq<Move>): Option<View>
    requires w.Ok()
  {
    if ms == [] then Some(v) else
      var u := Run(w, v, ms[..|ms| - 1]);
      if u.None? || !Possible(w, u.value, ms[|ms| - 1]) then None
      else Some(Next(w, u.value, ms[|ms| - 1]))
  }

  // ----- custody -----

  /** Messages the theorems speak of: verified, and of a forwardable type. */
  predicate Good(c: Config, m: Message) { Verified(c, m) && ShouldStoreInHold(m.contentType) }

  /** What the files read back as: unchanged by the wire. */
  predicate Normal(m: Message) { Carried(m) == m }

  /** The hold keeps Wire(m) and offers Carried(m).  Whatever verifies m verifies what is
      offered exactly when m is normal: a version 1 message that arrived with a reply key goes
      out without it, and its signature covers the key. */
  lemma OfferStaysVerified(m: Message)
    ensures (forall c: Config :: Verified(c, m) ==> Verified(c, Carried(m))) <==> Normal(m)
  {
    if !Normal(m) {
      var good := SignableBytes(m);
      var c := Config(_ => Zeros(32), (k, d, s) => d == good, Zeros(32), 64, 1, DIFFICULTY);
      ValueZeros(256, Zeros(32));
      assert Verified(c, m);
      if SignableBytes(Carried(m)) == good { SignableInjective(m, Carried(m)); }
      assert !Verified(c, Carried(m));
    }
  }

  predicate Has(p: Peer, m: Message) {
    (m.id in p.hold && p.hold[m.id] == m) || p.handling == Some(m) || m in p.delivered
  }

  /** Some node holds the message, is handling it, or gave it to its user. */
  predicate Located(v: View, m: Message) { Has(v.me, m) || Has(v.peer, m) }

  predicate Known(v: View, m: Message) { m in v.me.known || m in v.peer.known }

  predicate Refused(v: View, m: Message) { m in v.me.refused || m in v.peer.refused }

  predicate Confirmed(v: View, m: Message) { m.id in v.me.confirmed || m.id in v.peer.confirmed }

  /** The node took the message off the wire. */
  predicate Took(p: Peer, m: Message) { p.handling == Some(m) || m in p.accepted || m in p.refused }

  /** This node deleted m, and the other one, which never had it, dropped it as a duplicate. */
  predicate Blocked(v: View, m: Message) {
    && m in v.me.known && m.id !in v.me.hold
    && m in v.peer.refused && m !in v.peer.accepted && m !in v.peer.known && v.peer.handling != Some(m)
  }

  /** Both nodes had m in their hold at some time, and both took it off the wire. */
  predicate BothWays(v: View, m: Message) {
    m in v.me.known && m in v.peer.known && Took(v.me, m) && Took(v.peer, m)
  }

  /** Whatever carries the ID of m is m. */
  ghost predicate NamedPeer(p: Peer, m: Message) {
    && (forall x :: (x in p.known || x in p.accepted || x in p.refused || p.handling == Some(x)) && x.id == m.id ==> x == m)
    && (m.id in p.hold ==> p.hold[m.id] == m && m in p.known)
    && (m in p.delivered ==> m in p.accepted)
  }

  ghost predicate NamedPackets(ps: seq<Packet>, m: Message) {
    forall i :: 0 <= i < |ps| && ps[i].M? && ps[i].m.id == m.id ==> ps[i].m == m
  }

  ghost predicate Named(v: View, m: Message) {
    NamedPeer(v.me, m) && NamedPeer(v.peer, m) && NamedPackets(v.out, m) && NamedPackets(v.inn, m)
  }

  /** Where m came from and where it went: what this node took was in the other's hold
      before, and what it accepted it kept; m left this node's hold only because the other
      node took it. */
  ghost predicate HalfInv(v: View, m: Message) {
    && (M(m) in v.inn || Took(v.me, m) ==> m in v.peer.known)
    && (m in v.me.accepted ==> m in v.me.known || m in v.me.delivered)
    && (m in v.me.known && m.id !in v.me.hold && m.id !in v.me.confirmed ==> Took(v.peer, m))
    && (A(m.id) in v.inn ==> Took(v.peer, m))
  }

  ghost predicate Inv(w: World, v: View, m: Message) {
    Named(v, m) && m == w.named(m.id) && HalfInv(v, m) && HalfInv(Flip(v), m)
  }

  // ----- each step keeps the invariant -----

  lemma CreateKeeps(w: World, v: View, x: Message, m: Message)
    requires w.Ok() && Enabled(w, v, Create(x)) && Inv(w, v, m)
    ensures Inv(w, Apply(w, v, Create(x)), m)
  {}

  lemma SendKeeps(w: World, v: View, x: Message, m: Message)
    requires w.Ok() && Enabled(w, v, Send(x)) && Inv(w, v, m) && Normal(m)
    ensures Inv(w, Apply(w, v, Send(x)), m)
  {}

  lemma ReceiveKeeps(w: World, v: View, m: Message)
    requires w.Ok() && Enabled(w, v, Receive) && Inv(w, v, m)
    ensures Inv(w, Apply(w, v, Receive), m)
  {}

  lemma GetAckKeeps(w: World, v: View, m: Message)
    requires w.Ok() && Enabled(w, v, GetAck) && Inv(w, v, m)
    ensures Inv(w, Apply(w, v, GetAck), m)
  {}

  lemma ReleaseKeeps(w: World, v: View, s: Step, m: Message)
    requires w.Ok() && Inv(w, v, m) && (s.Confirm? || s.Close?)
    ensures Inv(w, Apply(w, v, s), m)
  {}

  lemma HandleKeepsNames(w: World, v: View, m: Message)
    requires w.Ok() && Enabled(w, v, Deliver) && Inv(w, v, m) && Normal(m)
    ensures Named(Apply(w, v, Deliver), m)
  {
    HandledNamed(w.a, v.me, v.me.handling.value, m);
  }

  lemma HandledNamed(c: Config, p: Peer, x: Message, m: Message)
    requires c.Ok() && NamedPeer(p, m) && Normal(m) && (x.id == m.id ==> x == m)
    ensures NamedPeer(Handled(c, p, x), m)
  {}

  /** The handler takes what it has in hand, keeps what it accepts, and deletes nothing. */
  lemma HandleKeepsHalves(w: World, v: View, m: Message)
    requires w.Ok() && Enabled(w, v, Deliver) && Inv(w, v, m) && Normal(m)
    requires v.me.handling == Some(m) ==> Good(w.a, m)
    ensures HalfInv(Apply(w, v, Deliver), m) && HalfInv(Flip(Apply(w, v, Deliver)), m)
  {
    var (p, q) := (v.me, Handled(w.a, v.me, v.me.handling.value));
    assert Took(q, m) <==> Took(p, m);
    assert m in p.known ==> m in q.known;
    assert m in q.accepted ==> m in q.known || m in q.delivered;
    assert m in q.known && m.id !in q.hold ==> m in p.known && m.id !in p.hold;
  }

  lemma HandleKeeps(w: World, v: View, m: Message)
    requires w.Ok() && Enabled(w, v, Deliver) && Inv(w, v, m) && Normal(m)
    requires v.me.handling == Some(m) ==> Good(w.a, m)
    ensures Inv(w, Apply(w, v, Deliver), m)
  {
    HandleKeepsNames(w, v, m);
    HandleKeepsHalves(w, v, m);
  }

  /** Only a node that handles m itself must find it good. */
  lemma StepKeepsInv(w: World, v: View, s: Step, m: Message)
    requires w.Ok() && Enabled(w, v, s) && Inv(w, v, m) && Normal(m)
    requires v.me.handling == Some(m) ==> Good(w.a, m)
    ensures Inv(w, Apply(w, v, s), m)
  {
    match s
    case Create(x) => CreateKeeps(w, v, x, m);
    case Send(x) => SendKeeps(w, v, x, m);
    case Receive => ReceiveKeeps(w, v, m);
    case Deliver => HandleKeeps(w, v, m);
    case GetAck => GetAckKeeps(w, v, m);
    case Confirm(id) => ReleaseKeeps(w, v, s, m);
    case Close => ReleaseKeeps(w, v, s, m);
  }

  /** The start of a session: nothing in flight, no history beyond what the holds contain.
      The filters are arbitrary, as after a restart that loaded the hold from disk. */
  ghost predicate StartPeer(w: World, p: Peer) {
    && (forall id :: id in p.hold ==> p.hold[id].id == id && p.hold[id] == w.named(id) && Normal(p.hold[id]))
    && p.known == p.hold.Values && p.handling.None?
    && p.accepted == {} && p.refused == {} && p.delivered == {} && p.confirmed == {}
  }

  ghost predicate Start(w: World, v: View) {
    StartPeer(w, v.me) && StartPeer(w, v.peer) && v.out == [] && v.inn == []
  }

  lemma StartIsInv(w: World, v: View, m: Message)
    requires Start(w, v) && m == w.named(m.id)
    ensures Inv(w, v, m)
  {}

  /** B never sends m.  It may send anything else. */
  predicate NeverBack(ms: seq<Move>, m: Message) {
    forall i :: 0 <= i < |ms| ==> ms[i] != ByB(Send(m))
  }

  /** A has never been sent m. */
  predicate NotTaken(v: View, m: Message) { M(m) !in v.inn && !Took(v.me, m) }

  lemma NotTakenStepA(w: World, v: View, s: Step, m: Message)
    requires w.Ok() && Enabled(w, v, s) && NotTaken(v, m)
    ensures NotTaken(Apply(w, v, s), m)
  {}

  lemma NotTakenStepB(w: World, v: View, s: Step, m: Message)
    requires w.Ok() && Enabled(w.Flip(), Flip(v), s) && Inv(w, v, m) && NotTaken(v, m) && s != Send(m)
    ensures NotTaken(Flip(Apply(w.Flip(), Flip(v), s)), m)
  {}

  /** Whatever was in a hold is as its file reads back. */
  lemma {:induction false} KnownIsNormal(w: World, v: View, ms: seq<Move>, m: Message)
    requires w.Ok() && Start(w, v) && Run(w, v, ms).Some? && Known(Run(w, v, ms).value, m)
    ensures Normal(m)
  {
    if ms == [] {
      assert m in v.me.hold.Values || m in v.peer.hold.Values;
    } else {
      var front := ms[..|ms| - 1];
      var u := Run(w, v, front).value;
      if Known(u, m) { KnownIsNormal(w, v, front, m); } else { NewIsNormal(w, u, ms[|ms| - 1], m); }
    }
  }

  lemma NewIsNormal(w: World, v: View, mv: Move, m: Message)
    requires w.Ok() && Possible(w, v, mv) && Known(Next(w, v, mv), m) && !Known(v, m)
    ensures Normal(m)
  {}

  lemma {:induction false} RunKeepsInv(w: World, v: View, ms: seq<Move>, m: Message)
    requires w.Ok() && Start(w, v) && Run(w, v, ms).Some?
    requires m == w.named(m.id) && Normal(m) && Good(w.b, m) && (Good(w.a, m) || NeverBack(ms, m))
    ensures Inv(w, Run(w, v, ms).value, m)
    ensures NeverBack(ms, m) ==> NotTaken(Run(w, v, ms).value, m)
  {
    if ms == [] {
      StartIsInv(w, v, m);
    } else {
      var front := ms[..|ms| - 1];
      var u := Run(w, v, front).value;
      RunKeepsInv(w, v, front, m);
      match ms[|ms| - 1]
      case ByA(s) =>
        StepKeepsInv(w, u, s, m);
        if NeverBack(ms, m) { NotTakenStepA(w, u, s, m); }
      case ByB(s) =>
        StepKeepsInv(w.Flip(), Flip(u), s, m);
        if NeverBack(ms, m) {
          assert ms[|ms| - 1] != ByB(Send(m));
          NotTakenStepB(w, u, s, m);
        }
    }
  }

  /** In a reachable state in which m did not travel both ways. */
  lemma InvLocates(w: World, v: View, m: Message)
    requires w.Ok() && Inv(w, v, m) && Known(v, m) && !Confirmed(v, m) && !BothWays(v, m)
    ensures !Located(v, m) <==> Blocked(v, m) || Blocked(Flip(v), m)
  {}

  /** Custody in every interleaving, from every start: a good message that ever was in either
      hold, was not released by a confirmation and did not travel both ways is in a hold, in a
      handler or with its user, if and only if it is not Blocked: deleted by one node while
      the other, which never had it, dropped it as a duplicate. */
  lemma CustodyKept(w: World, v: View, ms: seq<Move>, m: Message)
    requires w.Ok() && Start(w, v) && Run(w, v, ms).Some?
    requires m == w.named(m.id) && Good(w.a, m) && Good(w.b, m)
    ensures var u := Run(w, v, ms).value;
      Known(u, m) && !Confirmed(u, m) && !BothWays(u, m) ==>
        (!Located(u, m) <==> Blocked(u, m) || Blocked(Flip(u), m))
  {
    var u := Run(w, v, ms).value;
    if Known(u, m) && !Confirmed(u, m) && !BothWays(u, m) {
      KnownIsNormal(w, v, ms, m);
      RunKeepsInv(w, v, ms, m);
      InvLocates(w, u, m);
    }
  }

  /** When B never sends m back (it may send anything else, and A need not verify m), A's
      delete-on-ACK loses a message of A's hold if and only if B never took it because its
      filter already reported the ID when B handled it. */
  lemma OneWayCustody(w: World, v: View, ms: seq<Move>, m: Message)
    requires w.Ok() && Start(w, v) && NeverBack(ms, m) && Run(w, v, ms).Some?
    requires m == w.named(m.id) && Good(w.b, m)
    ensures var u := Run(w, v, ms).value;
      m in u.me.known && !Confirmed(u, m) ==>
        (!Located(u, m) <==>
          m.id !in u.me.hold && m in u.peer.refused && m !in u.peer.accepted && m !in u.peer.known
          && u.peer.handling != Some(m))
  {
    var u := Run(w, v, ms).value;
    if m in u.me.known && !Confirmed(u, m) {
      KnownIsNormal(w, v, ms, m);
      RunKeepsInv(w, v, ms, m);
      InvLocates(w, u, m);
    }
  }

  // ----- filters that cover the holds -----

  /** Each filter reports what its node ever held or accepted, and only one node accepted m. */
  ghost predicate Covered(w: World, v: View, m: Message)
    requires w.Ok()
  {
    && (m in v.me.known || m in v.me.accepted ==> Seen(w.a, v.me.filter, m.id))
    && (m in v.peer.known || m in v.peer.accepted ==> Seen(w.b, v.peer.filter, m.id))
    && !(m in v.me.accepted && m in v.peer.accepted)
  }

  lemma StepKeepsCovered(w: World, v: View, s: Step, m: Message)
    requires w.Ok() && Enabled(w, v, s) && Inv(w, v, m) && Covered(w, v, m)
    ensures Covered(w, Apply(w, v, s), m)
  {
    match s
    case Create(x) =>
    case Send(x) =>
    case Receive =>
    case Deliver =>
    case GetAck =>
    case Confirm(id) =>
    case Close =>
  }

  lemma {:induction false} RunKeepsCovered(w: World, v: View, ms: seq<Move>, m: Message)
    requires w.Ok() && Start(w, v) && Run(w, v, ms).Some? && Covered(w, v, m)
    requires m == w.named(m.id) && Normal(m) && Good(w.a, m) && Good(w.b, m)
    ensures Covered(w, Run(w, v, ms).value, m)
  {
    if ms != [] {
      var front := ms[..|ms| - 1];
      var u := Run(w, v, front).value;
      RunKeepsCovered(w, v, front, m);
      RunKeepsInv(w, v, front, m);
      match ms[|ms| - 1]
      case ByA(s) => StepKeepsCovered(w, u, s, m);
      case ByB(s) => StepKeepsCovered(w.Flip(), Flip(u), s, m);
    }
  }

  /** When each filter reports m if its hold contains it, as within one process run, a loss
      needs a filter's refusal, also when m travels both ways. */
  lemma CoveredLossIsRefusal(w: World, v: View, ms: seq<Move>, m: Message)
    requires w.Ok() && Start(w, v) && Run(w, v, ms).Some? && Covered(w, v, m)
    requires m == w.named(m.id) && Good(w.a, m) && Good(w.b, m)
    ensures var u := Run(w, v, ms).value;
      Known(u, m) && !Located(u, m) ==> Confirmed(u, m) || Refused(u, m)
  {
    if Known(Run(w, v, ms).value, m) {
      KnownIsNormal(w, v, ms, m);
      RunKeepsInv(w, v, ms, m);
      RunKeepsCovered(w, v, ms, m);
    }
  }

  // ----- which step loses a message -----

  /** The step deletes or drops this node's only copy while the other node has none. */
  predicate Drops(w: World, v: View, s: Step, m: Message)
    requires w.Ok() && Enabled(w, v, s)
  {
    && !Has(v.peer, m) && m !in v.me.delivered
    && match s
       case GetAck => v.inn[0].id == m.id && m.id in v.me.hold
       case Confirm(id) => id == m.id && m.id in v.me.hold && v.me.handling != Some(m)
       case Deliver => v.me.handling == Some(m) && m.id !in v.me.hold && Seen(w.a, v.me.filter, m.id)
       case _ => false
  }

  /** The step reads m off the wire or stores it as an own message. */
  predicate Brings(w: World, v: View, s: Step, m: Message)
    requires w.Ok() && Enabled(w, v, s)
  {
    (s.Receive? && v.inn[0].m == m) || (s.Create? && Carried(s.m) == m)
  }

  /** Exactly these steps lose and bring a message. */
  lemma StepLocates(w: World, v: View, s: Step, m: Message)
    requires w.Ok() && Enabled(w, v, s) && Inv(w, v, m) && Normal(m) && Good(w.a, m)
    ensures Located(Apply(w, v, s), m) <==> (Located(v, m) && !Drops(w, v, s, m)) || Brings(w, v, s, m)
  {
    match s
    case Create(x) =>
    case Send(x) =>
    case Receive =>
    case Deliver => DeliverLocates(w, v, m);
    case GetAck =>
    case Confirm(id) =>
    case Close =>
  }

  lemma DeliverLocates(w: World, v: View, m: Message)
    requires w.Ok() && Enabled(w, v, Deliver) && Inv(w, v, m) && Normal(m) && Good(w.a, m)
    ensures Located(Apply(w, v, Deliver), m) <==> Located(v, m) && !Drops(w, v, Deliver, m)
  {
    var x := v.me.handling.value;
    if x != m { assert Has(Handled(w.a, v.me, x), m) <==> Has(v.me, m); }
  }

  /** Move j of the run loses m; move j of the run brings it. */
  ghost predicate DropsAt(w: World, v: View, ms: seq<Move>, j: nat, m: Message)
    requires w.Ok() && j < |ms|
  {
    var u := Run(w, v, ms[..j]);
    u.Some? && Possible(w, u.value, ms[j]) &&
      match ms[j]
      case ByA(s) => Drops(w, u.value, s, m)
      case ByB(s) => Drops(w.Flip(), Flip(u.value), s, m)
  }

  ghost predicate BringsAt(w: World, v: View, ms: seq<Move>, j: nat, m: Message)
    requires w.Ok() && j < |ms|
  {
    var u := Run(w, v, ms[..j]);
    u.Some? && Possible(w, u.value, ms[j]) &&
      match ms[j]
      case ByA(s) => Brings(w, u.value, s, m)
      case ByB(s) => Brings(w.Flip(), Flip(u.value), s, m)
  }

  /** Some move drops the last copy, and no later move brings m back. */
  ghost predicate DroppedForGood(w: World, v: View, ms: seq<Move>, m: Message)
    requires w.Ok()
  {
    exists j :: 0 <= j < |ms| && DropsAt(w, v, ms, j, m) && forall k :: j < k < |ms| ==> !BringsAt(w, v, ms, k, m)
  }

  /** What happened before the last move does not depend on it. */
  lemma SameAtFront(w: World, v: View, ms: seq<Move>, j: nat, m: Message)
    requires w.Ok() && j < |ms| - 1
    ensures DropsAt(w, v, ms[..|ms| - 1], j, m) <==> DropsAt(w, v, ms, j, m)
    ensures BringsAt(w, v, ms[..|ms| - 1], j, m) <==> BringsAt(w, v, ms, j, m)
  {
    assert ms[..|ms| - 1][..j] == ms[..j];
  }

  lemma DroppedSnoc(w: World, v: View, ms: seq<Move>, m: Message)
    requires w.Ok() && ms != []
    ensures var n := |ms| - 1;
      DroppedForGood(w, v, ms, m) <==>
        DropsAt(w, v, ms, n, m) || (DroppedForGood(w, v, ms[..n], m) && !BringsAt(w, v, ms, n, m))
  {
    var n := |ms| - 1;
    if DroppedForGood(w, v, ms, m) && !DropsAt(w, v, ms, n, m) { DroppedInFront(w, v, ms, m); }
    if DroppedForGood(w, v, ms[..n], m) && !BringsAt(w, v, ms, n, m) { StaysDropped(w, v, ms, m); }
  }

  lemma StaysDropped(w: World, v: View, ms: seq<Move>, m: Message)
    requires w.Ok() && ms != [] && DroppedForGood(w, v, ms[..|ms| - 1], m) && !BringsAt(w, v, ms, |ms| - 1, m)
    ensures DroppedForGood(w, v, ms, m)
  {
    var n := |ms| - 1;
    var j :| 0 <= j < n && DropsAt(w, v, ms[..n], j, m) && forall k :: j < k < n ==> !BringsAt(w, v, ms[..n], k, m);
    SameAtFront(w, v, ms, j, m);
    forall k | j < k < |ms| ensures !BringsAt(w, v, ms, k, m) {
      if k < n { SameAtFront(w, v, ms, k, m); }
    }
  }

  lemma DroppedInFront(w: World, v: View, ms: seq<Move>, m: Message)
    requires w.Ok() && ms != [] && DroppedForGood(w, v, ms, m) && !DropsAt(w, v, ms, |ms| - 1, m)
    ensures DroppedForGood(w, v, ms[..|ms| - 1], m) && !BringsAt(w, v, ms, |ms| - 1, m)
  {
    var n := |ms| - 1;
    var j :| 0 <= j < |ms| && DropsAt(w, v, ms, j, m) && forall k :: j < k < |ms| ==> !BringsAt(w, v, ms, k, m);
    SameAtFront(w, v, ms, j, m);
    forall k | j < k < n ensures !BringsAt(w, v, ms[..n], k, m) { SameAtFront(w, v, ms, k, m); }
  }

  /** Every run, messages travelling both ways included: a message that started in a hold is
      lost at the end if and only if some move dropped its last copy for good. */
  lemma {:induction false} LostIffDropped(w: World, v: View, ms: seq<Move>, m: Message)
    requires w.Ok() && Start(w, v) && Run(w, v, ms).Some? && Located(v, m)
    requires m == w.named(m.id) && Good(w.a, m) && Good(w.b, m)
    ensures !Located(Run(w, v, ms).value, m) <==> DroppedForGood(w, v, ms, m)
  {
    KnownIsNormal(w, v, [], m);
    if ms != [] {
      var front := ms[..|ms| - 1];
      var u := Run(w, v, front).value;
      LostIffDropped(w, v, front, m);
      RunKeepsInv(w, v, front, m);
      DroppedSnoc(w, v, ms, m);
      match ms[|ms| - 1]
      case ByA(s) => StepLocates(w, u, s, m);
      case ByB(s) => StepLocates(w.Flip(), Flip(u), s, m);
    }
  }

  /** Move j is B's handler dropping m because its filter reports the ID, the first time it has
      m in hand. */
  ghost predicate RefusedAt(w: World, v: View, ms: seq<Move>, j: nat, m: Message)
    requires w.Ok() && j < |ms|
  {
    var u := Run(w, v, ms[..j]);
    && u.Some? && ms[j] == ByB(Deliver)
    && u.value.peer.handling == Some(m) && m !in u.value.peer.accepted && m !in u.value.peer.refused
    && Seen(w.b, u.value.peer.filter, m.id)
  }

  /** What the exception of OneWayCustody means: at some move B's handler had m in hand, had
      never taken it, and found its ID already reported by the filter. */
  lemma {:induction false} RefusalWitness(w: World, v: View, ms: seq<Move>, m: Message)
    requires w.Ok() && Run(w, v, ms).Some? && v.peer.refused == {}
    requires m in Run(w, v, ms).value.peer.refused && m !in Run(w, v, ms).value.peer.accepted
    ensures exists j :: 0 <= j < |ms| && RefusedAt(w, v, ms, j, m)
  {
    var n := |ms| - 1;
    var front := ms[..n];
    var u := Run(w, v, front).value;
    if m in u.peer.refused {
      RefusalWitness(w, v, front, m);
      var j :| 0 <= j < n && RefusedAt(w, v, front, j, m);
      assert front[..j] == ms[..j];
      assert RefusedAt(w, v, ms, j, m);
    } else {
      assert RefusedAt(w, v, ms, n, m);
    }
  }

  // ----- how custody is lost -----

  lemma Extend(w: World, v: View, ms: seq<Move>, u: View, mv: Move)
    requires w.Ok() && Run(w, v, ms) == Some(u) && Possible(w, u, mv)
    ensures Run(w, v, ms + [mv]) == Some(Next(w, u, mv))
  {
    assert (ms + [mv])[..|ms|] == ms;
  }

  lemma {:induction false} RunConcat(w: World, v: View, ms: seq<Move>, u: View, ns: seq<Move>)
    requires w.Ok() && Run(w, v, ms) == Some(u)
    ensures Run(w, v, ms + ns) == Run(w, u, ns)
  {
    if ns == [] {
      assert ms + ns == ms;
    } else {
      assert (ms + ns)[..|ms + ns| - 1] == ms + ns[..|ns| - 1];
      RunConcat(w, v, ms, u, ns[..|ns| - 1]);
    }
  }

  function Mirror(ms: seq<Move>): (r: seq<Move>)
    ensures |r| == |ms|
  {
    seq(|ms|, i requires 0 <= i < |ms| => if ms[i].ByA? then ByB(ms[i].s) else ByA(ms[i].s))
  }

  function FlipAll(u: Option<View>): Option<View> { if u.None? then None else Some(Flip(u.value)) }

  /** The two nodes are interchangeable. */
  lemma {:induction false} RunMirror(w: World, v: View, ms: seq<Move>)
    requires w.Ok()
    ensures Run(w.Flip(), Flip(v), Mirror(ms)) == FlipAll(Run(w, v, ms))
  {
    if ms != [] {
      var front := ms[..|ms| - 1];
      RunMirror(w, v, front);
      assert Mirror(ms)[..|ms| - 1] == Mirror(front);
    }
  }

  /** A hands m over to B: sent, acknowledged, handled, deleted at A. */
  function HandOver(m: Message): seq<Move> {
    [ByA(Send(m))] + [ByB(Receive)] + [ByB(Deliver)] + [ByA(GetAck)]
  }

  lemma HandOverRun(w: World, v: View, m: Message)
    requires w.Ok() && v.out == [] && v.inn == [] && v.me.handling.None? && v.peer.handling.None?
    requires m in v.me.known && Normal(m)
    ensures Run(w, v, HandOver(m))
         == Some(View(v.me.(hold := v.me.hold - {m.id}), Handled(w.b, v.peer.(handling := Some(m)), m), [], []))
  {
    var v1 := v.(out := [M(m)]);
    var v2 := View(v.me, v.peer.(handling := Some(m)), [], [A(m.id)]);
    var v3 := v2.(peer := Handled(w.b, v2.peer, m));
    assert Run(w, v, []) == Some(v);
    Extend(w, v, [], v, ByA(Send(m)));
    assert [] + [ByA(Send(m))] == [ByA(Send(m))];
    assert Next(w, v, ByA(Send(m))) == v1;
    Extend(w, v, [ByA(Send(m))], v1, ByB(Receive));
    assert Next(w, v1, ByB(Receive)) == v2;
    Extend(w, v, [ByA(Send(m))] + [ByB(Receive)], v2, ByB(Deliver));
    assert Next(w, v2, ByB(Deliver)) == v3;
    Extend(w, v, [ByA(Send(m))] + [ByB(Receive)] + [ByB(Deliver)], v3, ByA(GetAck));
    assert [A(m.id)][1..] == [];
  }

  /** That B never sends m back is needed in OneWayCustody: from every start in which A holds
      a good message its filter reports, new to B and not addressed to it, A hands it to B, B
      hands it back, A acknowledges and drops it as a duplicate, and B deletes it on that ACK. */
  lemma PingPongLoses(w: World, v: View, m: Message)
    requires w.Ok() && Start(w, v) && m.id in v.me.hold && v.me.hold[m.id] == m
    requires Good(w.b, m) && !IsForRecipient(m, w.b.me) && Seen(w.a, v.me.filter, m.id)
    requires m.id !in v.peer.hold && !Seen(w.b, v.peer.filter, m.id)
    ensures var u := Run(w, v, HandOver(m) + Mirror(HandOver(m)));
      u.Some? && !Located(u.value, m) && !Confirmed(u.value, m) && u.value.me.refused == {m}
  {
    HandOverRun(w, v, m);
    var u := Run(w, v, HandOver(m)).value;
    assert u.peer.hold[m.id] == m && m in u.peer.known;
    HandOverRun(w.Flip(), Flip(u), m);
    RunMirror(w.Flip(), Flip(u), HandOver(m));
    assert Flip(Flip(u)) == u && w.Flip().Flip() == w;
    RunConcat(w, v, HandOver(m), u, Mirror(HandOver(m)));
  }

  /** Both nodes offer m at once and read each other's offer. */
  function Offers(m: Message): seq<Move> { [ByA(Send(m))] + [ByB(Send(m))] + [ByB(Receive)] + [ByA(Receive)] }

  /** Both handlers run, then both ACKs are read. */
  function Acks(): seq<Move> { [ByB(Deliver)] + [ByA(Deliver)] + [ByA(GetAck)] + [ByB(GetAck)] }

  predicate Idle(v: View) { v.out == [] && v.inn == [] && v.me.handling.None? && v.peer.handling.None? }

  function BothHandling(v: View, m: Message): View {
    View(v.me.(handling := Some(m)), v.peer.(handling := Some(m)), [A(m.id)], [A(m.id)])
  }

  lemma OffersRun(w: World, v: View, m: Message)
    requires w.Ok() && Idle(v) && m in v.me.known && m in v.peer.known && Normal(m)
    ensures Run(w, v, Offers(m)) == Some(BothHandling(v, m))
  {
    var v1 := v.(out := [M(m)]);
    var v2 := v1.(inn := [M(m)]);
    var v3 := View(v.me, v.peer.(handling := Some(m)), [], [M(m), A(m.id)]);
    assert Run(w, v, []) == Some(v);
    Extend(w, v, [], v, ByA(Send(m)));
    assert [] + [ByA(Send(m))] == [ByA(Send(m))];
    assert Next(w, v, ByA(Send(m))) == v1;
    Extend(w, v, [ByA(Send(m))], v1, ByB(Send(m)));
    assert Next(w, v1, ByB(Send(m))) == v2;
    Extend(w, v, [ByA(Send(m))] + [ByB(Send(m))], v2, ByB(Receive));
    assert Next(w, v2, ByB(Receive)) == v3;
    Extend(w, v, [ByA(Send(m))] + [ByB(Send(m))] + [ByB(Receive)], v3, ByA(Receive));
    assert Next(w, v3, ByA(Receive)) == BothHandling(v, m);
  }

  lemma AcksRun(w: World, v: View, m: Message)
    requires w.Ok() && v.me.handling == Some(m) && v.peer.handling == Some(m)
    requires v.out == [A(m.id)] && v.inn == [A(m.id)]
    ensures var (a, b) := (Handled(w.a, v.me, m), Handled(w.b, v.peer, m));
      Run(w, v, Acks()) == Some(View(a.(hold := a.hold - {m.id}), b.(hold := b.hold - {m.id}), [], []))
  {
    var (a, b) := (Handled(w.a, v.me, m), Handled(w.b, v.peer, m));
    var v1 := v.(peer := b);
    var v2 := v1.(me := a);
    var v3 := v2.(me := a.(hold := a.hold - {m.id}), inn := []);
    assert [A(m.id)][1..] == [];
    assert Run(w, v, []) == Some(v);
    Extend(w, v, [], v, ByB(Deliver));
    assert [] + [ByB(Deliver)] == [ByB(Deliver)];
    assert Next(w, v, ByB(Deliver)) == v1;
    Extend(w, v, [ByB(Deliver)], v1, ByA(Deliver));
    assert Next(w, v1, ByA(Deliver)) == v2;
    Extend(w, v, [ByB(Deliver)] + [ByA(Deliver)], v2, ByA(GetAck));
    assert Next(w, v2, ByA(GetAck)) == v3;
    Extend(w, v, [ByB(Deliver)] + [ByA(Deliver)] + [ByA(GetAck)], v3, ByB(GetAck));
  }

  /** Held, good, for someone else, and not reported by the own filter. */
  ghost predicate HeldUnseen(c: Config, p: Peer, m: Message)
    requires c.Ok()
  {
    && m.id in p.hold && p.hold[m.id] == m && m in p.known && Normal(m)
    && Good(c, m) && !IsForRecipient(m, c.me) && !Seen(c, p.filter, m.id)
    && p.delivered == {} && p.refused == {}
  }

  /** The filter is not kept across restarts, the hold is.  If both nodes hold m and neither
      filter reports it, crossing offers lose it although no filter refused it: each handler
      finds m already in its hold, and each ACK deletes the other copy.  So the assumption
      Covered of CoveredLossIsRefusal cannot be dropped. */
  lemma FilterLostOnRestart(w: World, v: View, m: Message)
    requires w.Ok() && Idle(v) && HeldUnseen(w.a, v.me, m) && HeldUnseen(w.b, v.peer, m)
    ensures var u := Run(w, v, Offers(m) + Acks()); u.Some? && !Located(u.value, m) && !Refused(u.value, m)
  {
    OffersRun(w, v, m);
    AcksRun(w, BothHandling(v, m), m);
    RunConcat(w, v, Offers(m), BothHandling(v, m), Acks());
  }
}
