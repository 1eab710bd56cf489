/** What a node does with an incoming message: the handleMessage closure and the ACK callback
    of cmd/iskra/main.go, and Node.ProcessIncoming of internal/mesh/sync.go.

    One handler call is one step.  Ed25519 verification and SHA-256 are parameters. */
module Node {
  import opened Bytes
  import opened Messages
  import Bloom
  import Hold
  import PoW

  type Id = Bytes32

  /** The difficulty handleMessage and ProcessIncoming ask for. */
  const DIFFICULTY: byte := 16

  datatype Config = Config(
    sha: HashFn,
    verify: (Bytes32, seq<byte>, Bytes64) -> bool,
    me: Bytes32,
    numBits: nat,
    numHash: nat,
    difficulty: byte)
  {
    predicate Ok() { difficulty == DIFFICULTY && 0 < numBits < 0x1_0000_0000_0000_0000 && numBits % 64 == 0 && 1 <= numHash <= 20 }
  }

  /** Signature and proof of work hold. */
  predicate Verified(c: Config, m: Message) {
    c.verify(m.authorPub, SignableBytes(m), m.signature)
    && PoW.Meets(c.sha, m.id, m.timestamp, m.powNonce, c.difficulty)
  }

  function Probes(c: Config, id: Id): set<nat>
    requires c.Ok()
  { Bloom.Positions(c.sha, id, c.numHash, c.numBits) }

  /** The filter reports the ID. */
  predicate Seen(c: Config, filter: set<nat>, id: Id)
    requires c.Ok()
  { Probes(c, id) <= filter }

  /** The three outcomes of a handler call. */
  datatype Verdict = Duplicate | Rejected | Accepted

  function Judge(c: Config, filter: set<nat>, m: Message): Verdict
    requires c.Ok()
  {
    if Seen(c, filter, m.id) then Duplicate
    else if Verified(c, m) then Accepted
    else Rejected
  }

  /** handleMessage stores what is not for this node and may be forwarded. */
  predicate StoresIncoming(c: Config, m: Message) {
    !IsForRecipient(m, c.me) && ShouldStoreInHold(m.contentType)
  }

  /** ProcessIncoming stores broadcasts and whatever is not for this node, of any type. */
  predicate StoresProcessed(c: Config, m: Message) {
    (!IsForRecipient(m, c.me) && !IsBroadcast(m)) || IsBroadcast(m)
  }

  /** The filter and the calls made so far to the API and to hold.Store. */
  datatype NodeState = NodeState(filter: set<nat>, apiCalls: seq<Message>, storeCalls: seq<Message>)

  function One(b: bool, m: Message): seq<Message> { if b then [m] else [] }

  function Incoming(c: Config, s: NodeState, m: Message): NodeState
    requires c.Ok()
  {
    match Judge(c, s.filter, m)
    case Duplicate => s
    case Rejected => s.(filter := s.filter + Probes(c, m.id))
    case Accepted => NodeState(s.filter + Probes(c, m.id), s.apiCalls + [m], s.storeCalls + One(StoresIncoming(c, m), m))
  }

  function Processed(c: Config, s: NodeState, m: Message): NodeState
    requires c.Ok()
  {
    match Judge(c, s.filter, m)
    case Duplicate => s
    case Rejected => s
    case Accepted => NodeState(s.filter + Probes(c, m.id), s.apiCalls + [m], s.storeCalls + One(StoresProcessed(c, m), m))
  }

  class Handler {
    const c: Config
    const bloom: Bloom.SimpleBloom
    const hold: Hold.HoldStore
    var apiCalls: seq<Message>
    var storeCalls: seq<Message>
    var deliveredMarks: seq<Id>   // calls of Inbox.MarkDelivered

    ghost predicate Valid()
      reads this, bloom
    {
      bloom.Valid() && c.Ok()
      && bloom.sha == c.sha && bloom.numBits == c.numBits && bloom.numHash == c.numHash
    }

    ghost function State(): NodeState
      reads this, bloom, bloom.bits
    {
      NodeState(bloom.Set(), apiCalls, storeCalls)
    }

    constructor (c: Config)
      requires c.Ok()
      ensures Valid() && this.c == c && fresh(bloom) && fresh(bloom.bits) && fresh(hold)
      ensures State() == NodeState({}, [], []) && hold.State() == Hold.EMPTY
      ensures deliveredMarks == []
    {
      this.c := c;
      bloom := new Bloom.SimpleBloom(c.sha, c.numBits, c.numHash);
      hold := new Hold.HoldStore();
      apiCalls, storeCalls, deliveredMarks := [], [], [];
    }

    method VerifyMessage(m: Message) returns (ok: bool)
      ensures ok <==> Verified(c, m)
    {
      var data := BuildSignable(m);
      if !c.verify(m.authorPub, data, m.signature) { return false; }
      ok := PoW.VerifyPoW(c.sha, m.id, m.timestamp, m.powNonce, c.difficulty);
    }

    /** The hold ends up as one Store call leaves it when the message is to be kept, and
        untouched otherwise. */
    method HandleMessage(m: Message, now: int)
      requires Valid()
      modifies this`apiCalls, this`storeCalls, bloom.bits, hold
      ensures Valid() && State() == Incoming(c, old(State()), m)
      ensures hold.State() ==
        if Judge(c, old(State().filter), m).Accepted? && StoresIncoming(c, m)
        then Hold.Stored(old(hold.State()), m, Hold.DEFAULT_HOP_TTL, now) else old(hold.State())
    {
      var seen := bloom.Contains(m.id);
      if seen { return; }
      var ok := VerifyMessage(m);
      if !ok {
        bloom.Add(m.id);
        return;
      }
      bloom.Add(m.id);
      apiCalls := apiCalls + [m];
      if !IsForRecipient(m, c.me) && ShouldStoreInHold(m.contentType) {
        storeCalls := storeCalls + [m];
        hold.Store(m, now);
      }
    }

    method ProcessIncoming(m: Message, now: int)
      requires Valid()
      modifies this`apiCalls, this`storeCalls, bloom.bits, hold
      ensures Valid() && State() == Processed(c, old(State()), m)
      ensures hold.State() ==
        if Judge(c, old(State().filter), m).Accepted? && StoresProcessed(c, m)
        then Hold.Stored(old(hold.State()), m, Hold.DEFAULT_HOP_TTL, now) else old(hold.State())
    {
      var seen := bloom.Contains(m.id);
      if seen { return; }
      var ok := VerifyMessage(m);
      if !ok { return; }
      bloom.Add(m.id);
      apiCalls := apiCalls + [m];
      var forMe := IsForRecipient(m, c.me);
      if !forMe && !IsBroadcast(m) {
        storeCalls := storeCalls + [m];
        hold.Store(m, now);
      }
      if IsBroadcast(m) {
        storeCalls := storeCalls + [m];
        hold.Store(m, now);
      }
    }

    /** An ACK from a LAN peer marks the message as delivered in the inbox and deletes it from
        the hold. */
    method HandleAck(id: Id)
      modifies this`deliveredMarks, hold
      ensures hold.State() == Hold.Deleted(old(hold.State()), id)
      ensures hold.meta == old(hold.meta) - {id} && hold.files == old(hold.files) - {id}
      ensures deliveredMarks == old(deliveredMarks) + [id]
    {
      deliveredMarks := deliveredMarks + [id];
      hold.Delete(id);
    }
  }

  // ----- runs of a process -----

  /** What can happen to the filter and the call logs: incoming messages by either handler,
      own messages added by the API, and anything that only touches the hold (ACKs, cleanup,
      confirmations). */
  datatype Event = Handle(m: Message) | Process(m: Message) | Own(id: Id) | HoldOnly

  function Step(c: Config, s: NodeState, e: Event): NodeState
    requires c.Ok()
  {
    match e
    case Handle(m) => Incoming(c, s, m)
    case Process(m) => Processed(c, s, m)
    case Own(id) => s.(filter := s.filter + Probes(c, id))
    case HoldOnly => s
  }

  function Run(c: Config, es: seq<Event>): NodeState
    requires c.Ok()
  {
    if es == [] then NodeState({}, [], []) else Step(c, Run(c, es[..|es| - 1]), es[|es| - 1])
  }

  predicate DistinctIds(ms: seq<Message>) {
    forall i, j :: 0 <= i < j < |ms| ==> ms[i].id != ms[j].id
  }

  predicate Inv(c: Config, s: NodeState)
    requires c.Ok()
  {
    && DistinctIds(s.apiCalls) && DistinctIds(s.storeCalls)
    && (forall m :: m in s.apiCalls ==> Seen(c, s.filter, m.id) && Genuine(c, m))
    && (forall m :: m in s.storeCalls ==> m in s.apiCalls)
  }

  /** Signed by its author, and the hash of ID, timestamp and nonce starts with 16 zero bits. */
  predicate Genuine(c: Config, m: Message) {
    && c.verify(m.authorPub, SignableBytes(m), m.signature)
    && GetBE(c.sha(m.id + Put64(ToU64(m.timestamp)) + Put64(m.powNonce))) < Pow(2, 240)
  }

  lemma StepKeepsInv(c: Config, s: NodeState, e: Event)
    requires c.Ok() && Inv(c, s)
    ensures Inv(c, Step(c, s, e))
    ensures s.filter <= Step(c, s, e).filter
  {
    match e
    case Handle(m) => if Judge(c, s.filter, m) == Accepted { AcceptKeepsInv(c, s, m, StoresIncoming(c, m)); }
    case Process(m) => if Judge(c, s.filter, m) == Accepted { AcceptKeepsInv(c, s, m, StoresProcessed(c, m)); }
    case Own(_) =>
    case HoldOnly =>
  }

  lemma AcceptKeepsInv(c: Config, s: NodeState, m: Message, store: bool)
    requires c.Ok() && Inv(c, s) && Judge(c, s.filter, m) == Accepted
    ensures Inv(c, NodeState(s.filter + Probes(c, m.id), s.apiCalls + [m], s.storeCalls + One(store, m)))
  {
    forall x | x in s.apiCalls ensures x.id != m.id { assert Seen(c, s.filter, x.id); }
  }

  /** In every run of a process the API is called, and the hold written, at most once per
      message ID and only for messages with valid signature and proof of work, whatever
      happens to the hold in between. */
  lemma {:induction false} AtMostOnce(c: Config, es: seq<Event>)
    requires c.Ok()
    ensures Inv(c, Run(c, es))
    ensures forall m :: m in Run(c, es).apiCalls || m in Run(c, es).storeCalls ==>
      c.verify(m.authorPub, SignableBytes(m), m.signature) && PoW.Meets(c.sha, m.id, m.timestamp, m.powNonce, 16)
  {
    if es != [] {
      AtMostOnce(c, es[..|es| - 1]);
      StepKeepsInv(c, Run(c, es[..|es| - 1]), es[|es| - 1]);
    }
  }

  /** The event is a handler call with m. */
  predicate Brings(e: Event, m: Message) { e == Handle(m) || e == Process(m) }

  /** Event k brings m while the filter does not report its ID. */
  predicate NewArrival(c: Config, es: seq<Event>, k: nat, m: Message)
    requires c.Ok() && k < |es|
  {
    Brings(es[k], m) && !Seen(c, Run(c, es[..k]).filter, m.id)
  }

  lemma ArrivalInFront(c: Config, es: seq<Event>, n: nat, k: nat, m: Message)
    requires c.Ok() && k < n <= |es|
    ensures NewArrival(c, es[..n], k, m) <==> NewArrival(c, es, k, m)
  {
    assert es[..n][..k] == es[..k];
  }

  /** The event's handler stores the message: handleMessage all but the own messages, file
      chunks (type 6) and delivery confirmations (type 1); ProcessIncoming all but the own
      ones, broadcasts included. */
  predicate Keeps(c: Config, e: Event, m: Message) {
    if e.Handle? then m.recipientID != c.me[..20] && m.contentType != 1 && m.contentType != 6
    else m.recipientID != c.me[..20] || m.recipientID == Zeros(20)
  }

  /** An event delivers exactly a genuine message it brings that the filter did not report, and
      stores it if its handler is to keep it. */
  lemma StepDelivers(c: Config, s: NodeState, e: Event, m: Message)
    requires c.Ok()
    ensures var first := Brings(e, m) && Genuine(c, m) && !Seen(c, s.filter, m.id);
      && (m in Step(c, s, e).apiCalls <==> m in s.apiCalls || first)
      && (m in Step(c, s, e).storeCalls <==> m in s.storeCalls || (first && Keeps(c, e, m)))
  {
    match e
    case Handle(x) =>
    case Process(x) =>
    case Own(_) =>
    case HoldOnly =>
  }

  /** In every run a message reaches the API exactly when its signature and proof of work hold
      and at one of its arrivals the filter did not report its ID; and it is stored exactly
      when, moreover, the handler of such an arrival keeps it. */
  lemma {:induction false} DeliveredIff(c: Config, es: seq<Event>, m: Message)
    requires c.Ok()
    ensures m in Run(c, es).apiCalls <==> Genuine(c, m) && exists k :: 0 <= k < |es| && NewArrival(c, es, k, m)
    ensures m in Run(c, es).storeCalls <==> Genuine(c, m) && exists k :: 0 <= k < |es| && NewArrival(c, es, k, m) && Keeps(c, es[k], m)
  {
    if es != [] {
      var n := |es| - 1;
      DeliveredIff(c, es[..n], m);
      StepDelivers(c, Run(c, es[..n]), es[n], m);
      assert NewArrival(c, es, n, m) <==> Brings(es[n], m) && !Seen(c, Run(c, es[..n]).filter, m.id);
      forall k | 0 <= k < n ensures NewArrival(c, es[..n], k, m) <==> NewArrival(c, es, k, m) {
        ArrivalInFront(c, es, n, k, m);
      }
    }
  }

  /** What an event leaves in the filter: handleMessage remembers every message, good or bad,
      ProcessIncoming only genuine ones. */
  function Remembers(c: Config, e: Event): set<nat>
    requires c.Ok()
  {
    match e
    case Handle(m) => Probes(c, m.id)
    case Process(m) => if Genuine(c, m) then Probes(c, m.id) else {}
    case Own(id) => Probes(c, id)
    case HoldOnly => {}
  }

  function Remembered(c: Config, es: seq<Event>): set<nat>
    requires c.Ok()
  {
    if es == [] then {} else Remembered(c, es[..|es| - 1]) + Remembers(c, es[|es| - 1])
  }

  /** The filter after a run depends on what came, not on the order or on what was seen. */
  lemma {:induction false} FilterRemembers(c: Config, es: seq<Event>)
    requires c.Ok()
    ensures Run(c, es).filter == Remembered(c, es)
  {
    if es != [] {
      FilterRemembers(c, es[..|es| - 1]);
      StepRemembers(c, Run(c, es[..|es| - 1]), es[|es| - 1]);
    }
  }

  lemma StepRemembers(c: Config, s: NodeState, e: Event)
    requires c.Ok()
    ensures Step(c, s, e).filter == s.filter + Remembers(c, e)
  {
    if (e.Handle? || e.Process?) && Seen(c, s.filter, e.m.id) { assert s.filter + Probes(c, e.m.id) == s.filter; }
  }
}
