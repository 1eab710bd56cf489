/** The WebSocket relay (cmd/relay/main.go): sessions, aliases, the offline hold and the
    NEWSYNC cooldown.

    One method per lock region, as in the program: checking whether the recipient is online
    and appending to its hold are separate.  Connections are numbers; writing to a socket,
    the peer directory, statistics and persistence are not part of the model. */
module Relay {
  import opened Bytes
  import opened Messages

  type Uid = Bytes20
  type ConnId = nat

  const HOLD_TTL: int := 48 * 3600
  const HOLD_MAX_PER_UID: nat := 200
  const SYNC_COOLDOWN: int := 5 * 60

  datatype Entry = Entry(data: seq<byte>, timestamp: int)

  datatype RelayState = RelayState(
    clients: map<Uid, ConnId>,
    aliases: map<Uid, string>,
    hold: map<Uid, seq<Entry>>,
    lastSync: map<Uid, int>)

  /** The randomness of pickAlias: a shuffle of the name indices, and the base and number of
      the fallback. */
  datatype Dice = Dice(perm: seq<nat>, base: nat, number: nat)

  ghost predicate Rolls(d: Dice, names: seq<string>) {
    && |d.perm| == |names| && (forall i :: 0 <= i < |d.perm| ==> d.perm[i] < |names|)
    && (forall k: nat :: k < |names| ==> k in d.perm)
    && d.base < |names| && d.number < 999
  }

  function Decimal(n: nat): string
    requires n < 1000
  {
    var d := (k: nat) requires k < 10 => (48 + k) as char;
    if n < 10 then [d(n)] else if n < 100 then [d(n / 10), d(n % 10)] else [d(n / 100), d(n / 10 % 10), d(n % 10)]
  }

  predicate Used(aliases: map<Uid, string>, name: string) { exists u | u in aliases :: aliases[u] == name }

  /** The first unused name in shuffled order, or a numbered one. */
  function FirstFree(names: seq<string>, aliases: map<Uid, string>, perm: seq<nat>): Option<string>
    requires forall i :: 0 <= i < |perm| ==> perm[i] < |names|
  {
    if perm == [] then None
    else if !Used(aliases, names[perm[0]]) then Some(names[perm[0]])
    else FirstFree(names, aliases, perm[1..])
  }

  ghost function Pick(names: seq<string>, aliases: map<Uid, string>, d: Dice): string
    requires Rolls(d, names)
  {
    var f := FirstFree(names, aliases, d.perm);
    if f.Some? then f.value else names[d.base] + "-" + Decimal(d.number)
  }

  /** What the online check asks. */
  predicate Online(s: RelayState, u: Uid) { u in s.clients }

  function QueueOf(s: RelayState, u: Uid): seq<Entry> { if u in s.hold then s.hold[u] else [] }

  // ----- lock regions as functions -----

  ghost function Registered(names: seq<string>, s: RelayState, u: Uid, c: ConnId, d: Dice): RelayState
    requires Rolls(d, names)
  {
    s.(clients := s.clients[u := c], aliases := s.aliases[u := Pick(names, s.aliases, d)], hold := s.hold - {u})
  }

  predicate SyncDue(s: RelayState, u: Uid, now: int) {
    u !in s.lastSync || now - s.lastSync[u] > SYNC_COOLDOWN
  }

  function Cooled(s: RelayState, u: Uid, now: int): RelayState {
    if SyncDue(s, u, now) then s.(lastSync := s.lastSync[u := now]) else s
  }

  function Appended(s: RelayState, u: Uid, e: Entry): RelayState {
    if |QueueOf(s, u)| < HOLD_MAX_PER_UID then s.(hold := s.hold[u := QueueOf(s, u) + [e]]) else s
  }

  function Unregistered(s: RelayState, u: Uid, c: ConnId): RelayState {
    if u in s.clients && s.clients[u] == c then s.(clients := s.clients - {u}, aliases := s.aliases - {u}) else s
  }

  /** Entries younger than the TTL, in order. */
  function Unexpired(q: seq<Entry>, cutoff: int): seq<Entry> {
    if q == [] then [] else
      Unexpired(q[..|q| - 1], cutoff) + if q[|q| - 1].timestamp > cutoff then [q[|q| - 1]] else []
  }

  ghost function Swept(s: RelayState, now: int): RelayState {
    s.(hold := map u | u in s.hold && Unexpired(s.hold[u], now - HOLD_TTL) != [] :: Unexpired(s.hold[u], now - HOLD_TTL))
  }

  // ----- the mutable relay -----

  class Server {
    const names: seq<string>
    var clients: map<Uid, ConnId>
    var aliases: map<Uid, string>
    var hold: map<Uid, seq<Entry>>
    var lastSync: map<Uid, int>

    function State(): RelayState
      reads this
    {
      RelayState(clients, aliases, hold, lastSync)
    }

    /** loadHold's result is the initial hold. */
    constructor (names: seq<string>, hold: map<Uid, seq<Entry>>)
      ensures this.names == names && State() == RelayState(map[], map[], hold, map[])
    {
      this.names, this.hold := names, hold;
      clients, aliases, lastSync := map[], map[], map[];
    }

    method PickAlias(d: Dice) returns (alias: string)
      requires Rolls(d, names)
      ensures alias == Pick(names, aliases, d)
    {
      for i := 0 to |d.perm|
        invariant FirstFree(names, aliases, d.perm) == FirstFree(names, aliases, d.perm[i..])
      {
        assert d.perm[i..][1..] == d.perm[i + 1..];
        if !(exists u | u in aliases :: aliases[u] == names[d.perm[i]]) {
          return names[d.perm[i]];
        }
      }
      alias := names[d.base] + "-" + Decimal(d.number);
    }

    /** The registration region: closes a previous connection of the user, picks an alias and
        takes the held messages, which are then written to the new connection. */
    method Register(u: Uid, c: ConnId, d: Dice) returns (held: seq<Entry>, closed: Option<ConnId>)
      requires Rolls(d, names)
      modifies this
      ensures State() == Registered(names, old(State()), u, c, d)
      ensures held == QueueOf(old(State()), u)
      ensures closed == if u in old(clients) then Some(old(clients)[u]) else None
    {
      closed := if u in clients then Some(clients[u]) else None;
      clients := clients[u := c];
      var alias := PickAlias(d);
      aliases := aliases[u := alias];
      held := if u in hold then hold[u] else [];
      hold := hold - {u};
    }

    method SyncCooldown(u: Uid, now: int) returns (shouldSync: bool)
      modifies this`lastSync
      ensures State() == Cooled(old(State()), u, now)
      ensures shouldSync <==> SyncDue(old(State()), u, now)
    {
      shouldSync := u !in lastSync || now - lastSync[u] > SYNC_COOLDOWN;
      if shouldSync { lastSync := lastSync[u := now]; }
    }

    /** The online check is a region of its own: nothing keeps its outcome true afterwards. */
    method IsOnline(u: Uid) returns (online: bool)
      ensures online <==> Online(State(), u)
    {
      online := u in clients;
    }

    method HoldAppend(u: Uid, frame: seq<byte>, now: int)
      modifies this`hold
      ensures State() == Appended(old(State()), u, Entry(frame, now))
    {
      var q := if u in hold then hold[u] else [];
      if |q| < HOLD_MAX_PER_UID {
        hold := hold[u := q + [Entry(frame, now)]];
      }
    }

    method Unregister(u: Uid, c: ConnId)
      modifies this`clients, this`aliases
      ensures State() == Unregistered(old(State()), u, c)
    {
      if u in clients && clients[u] == c {
        clients := clients - {u};
        aliases := aliases - {u};
      }
    }

    method CleanupHold(now: int)
      modifies this`hold
      ensures State() == Swept(old(State()), now)
    {
      var cutoff := now - HOLD_TTL;
      ghost var before := hold;
      var rest := hold.Keys;
      while rest != {}
        invariant rest <= before.Keys
        invariant forall u :: u in hold <==> u in before && (u in rest || Unexpired(before[u], cutoff) != [])
        invariant forall u :: u in hold ==> hold[u] == if u in rest then before[u] else Unexpired(before[u], cutoff)
        decreases rest
      {
        var u :| u in rest;
        rest := rest - {u};
        var valid: seq<Entry> := [];
        for i := 0 to |hold[u]|
          invariant valid == Unexpired(hold[u][..i], cutoff)
        {
          assert hold[u][..i + 1][..i] == hold[u][..i];
          if hold[u][i].timestamp > cutoff { valid := valid + [hold[u][i]]; }
        }
        assert hold[u][..|hold[u]|] == hold[u];
        if |valid| > 0 { hold := hold[u := valid]; } else { hold := hold - {u}; }
      }
      assert hold == Swept(old(State()), now).hold;
    }
  }

  // ----- runs -----

  datatype Op =
    | Register(u: Uid, c: ConnId, d: Dice)
    | Check(u: Uid)
    | Append(u: Uid, e: Entry)
    | Unregister(u: Uid, c: ConnId)
    | Sweep(now: int)
    | Sync(u: Uid, now: int)

  ghost predicate DiceOk(names: seq<string>, ops: seq<Op>) {
    forall i :: 0 <= i < |ops| && ops[i].Register? ==> Rolls(ops[i].d, names)
  }

  ghost function Step(names: seq<string>, s: RelayState, op: Op): RelayState
    requires op.Register? ==> Rolls(op.d, names)
  {
    match op
    case Register(u, c, d) => Registered(names, s, u, c, d)
    case Check(u) => s
    case Append(u, e) => Appended(s, u, e)
    case Unregister(u, c) => Unregistered(s, u, c)
    case Sweep(now) => Swept(s, now)
    case Sync(u, now) => Cooled(s, u, now)
  }

  ghost function Run(names: seq<string>, s: RelayState, ops: seq<Op>): RelayState
    requires DiceOk(names, ops)
  {
    if ops == [] then s else Step(names, Run(names, s, ops[..|ops| - 1]), ops[|ops| - 1])
  }

  // ----- the offline hold: conservation and order -----

  datatype Fate = Held | HandedOver | Expired

  /** What happened to the frames accepted for one recipient: one fate per acceptance, and the
      hand-overs in the order they happened. */
  datatype Log = Log(accepted: seq<Entry>, fates: seq<Fate>, handed: seq<Entry>)

  function Select(l: Log, f: Fate): seq<Entry>
    requires |l.accepted| == |l.fates|
    decreases |l.accepted|
  {
    if l.accepted == [] then [] else
      Select(Front(l), f) + if l.fates[|l.fates| - 1] == f then [l.accepted[|l.accepted| - 1]] else []
  }

  /** The log without its last acceptance. */
  function Front(l: Log): Log
    requires |l.accepted| == |l.fates| > 0
  {
    l.(accepted := l.accepted[..|l.accepted| - 1], fates := l.fates[..|l.fates| - 1])
  }

  function HandAll(fates: seq<Fate>): (r: seq<Fate>)
    ensures |r| == |fates|
  {
    seq(|fates|, i requires 0 <= i < |fates| => if fates[i] == Held then HandedOver else fates[i])
  }

  function ExpireOld(l: Log, cutoff: int): (r: seq<Fate>)
    requires |l.accepted| == |l.fates|
    ensures |r| == |l.fates|
  {
    seq(|l.fates|, i requires 0 <= i < |l.fates| =>
      if l.fates[i] == Held && l.accepted[i].timestamp <= cutoff then Expired else l.fates[i])
  }

  /** How an operation on the relay changes the log of recipient u. */
  function Logged(l: Log, s: RelayState, op: Op, u: Uid): (r: Log)
    requires |l.accepted| == |l.fates|
    ensures |r.accepted| == |r.fates|
  {
    match op
    case Register(v, c, d) => if v == u then Log(l.accepted, HandAll(l.fates), l.handed + QueueOf(s, u)) else l
    case Check(v) => l
    case Append(v, e) =>
      if v == u && |QueueOf(s, u)| < 200 then Log(l.accepted + [e], l.fates + [Held], l.handed) else l
    case Unregister(v, c) => l
    case Sweep(now) => l.(fates := ExpireOld(l, now - 48 * 3600))
    case Sync(v, now) => l
  }

  ghost function LogOf(names: seq<string>, s: RelayState, ops: seq<Op>, u: Uid): (l: Log)
    requires DiceOk(names, ops)
    ensures |l.accepted| == |l.fates|
  {
    if ops == [] then Log(QueueOf(s, u), seq(|QueueOf(s, u)|, _ => Held), []) else
      var front := ops[..|ops| - 1];
      Logged(LogOf(names, s, front, u), Run(names, s, front), ops[|ops| - 1], u)
  }

  /** Nothing accepted later is handed over while something accepted earlier is still held. */
  predicate InOrder(l: Log) {
    forall i, j :: 0 <= i < j < |l.fates| && l.fates[j] == HandedOver ==> l.fates[i] != Held
  }

  ghost predicate LogInv(s: RelayState, l: Log, u: Uid) {
    && |l.accepted| == |l.fates|
    && QueueOf(s, u) == Select(l, Held)
    && l.handed == Select(l, HandedOver)
    && InOrder(l)
    && |QueueOf(s, u)| <= 200
  }

  lemma {:induction false} SelectAllHeld(l: Log)
    requires |l.accepted| == |l.fates| && forall i :: 0 <= i < |l.fates| ==> l.fates[i] == Held
    ensures Select(l, Held) == l.accepted && Select(l, HandedOver) == []
    decreases |l.accepted|
  {
    if l.accepted != [] { SelectAllHeld(Front(l)); }
  }

  lemma SelectSnoc(l: Log, e: Entry, f: Fate, g: Fate)
    requires |l.accepted| == |l.fates|
    ensures Select(l.(accepted := l.accepted + [e], fates := l.fates + [f]), g)
         == Select(l, g) + if f == g then [e] else []
  {
    var m := l.(accepted := l.accepted + [e], fates := l.fates + [f]);
    assert Front(m) == l;
  }

  lemma FrontOfHandAll(l: Log)
    requires |l.accepted| == |l.fates| > 0
    ensures Front(l.(fates := HandAll(l.fates))) == Front(l).(fates := HandAll(Front(l).fates))
  {}

  lemma {:induction false} NothingHeldAfterHandAll(l: Log)
    requires |l.accepted| == |l.fates|
    ensures Select(l.(fates := HandAll(l.fates)), Held) == []
  {
    NothingHeld(l.(fates := HandAll(l.fates)));
  }

  /** Handing over everything held: since nothing held precedes a hand-over, the new
      hand-overs come last. */
  lemma {:induction false} SelectAfterHandAll(l: Log)
    requires |l.accepted| == |l.fates| && InOrder(l)
    ensures Select(l.(fates := HandAll(l.fates)), HandedOver) == Select(l, HandedOver) + Select(l, Held)
    decreases |l.accepted|
  {
    if l.accepted != [] {
      var n := |l.accepted| - 1;
      SelectAfterHandAll(Front(l));
      FrontOfHandAll(l);
      if l.fates[n] == HandedOver {
        NothingHeld(Front(l));
      }
    }
  }

  lemma {:induction false} NothingHeld(l: Log)
    requires |l.accepted| == |l.fates| && forall i :: 0 <= i < |l.fates| ==> l.fates[i] != Held
    ensures Select(l, Held) == []
    decreases |l.accepted|
  {
    if l.accepted != [] { NothingHeld(Front(l)); }
  }

  lemma UnexpiredSnoc(q: seq<Entry>, e: Entry, cutoff: int)
    ensures Unexpired(q + [e], cutoff) == Unexpired(q, cutoff) + if e.timestamp > cutoff then [e] else []
  {
    assert (q + [e])[..|q|] == q;
  }

  /** Expiry filters the queue. */
  lemma {:induction false} HeldAfterExpiry(l: Log, cutoff: int)
    requires |l.accepted| == |l.fates|
    ensures Select(l.(fates := ExpireOld(l, cutoff)), Held) == Unexpired(Select(l, Held), cutoff)
    decreases |l.accepted|
  {
    if l.accepted != [] {
      var n := |l.accepted| - 1;
      HeldAfterExpiry(Front(l), cutoff);
      FrontOfExpired(l, cutoff);
      UnexpiredSnoc(Select(Front(l), Held), l.accepted[n], cutoff);
      assert Select(Front(l), Held) + [] == Select(Front(l), Held);
    }
  }

  lemma FrontOfExpired(l: Log, cutoff: int)
    requires |l.accepted| == |l.fates| > 0
    ensures Front(l.(fates := ExpireOld(l, cutoff))) == Front(l).(fates := ExpireOld(Front(l), cutoff))
  {}

  /** Expiry touches no hand-over. */
  lemma {:induction false} HandedAfterExpiry(l: Log, cutoff: int)
    requires |l.accepted| == |l.fates|
    ensures Select(l.(fates := ExpireOld(l, cutoff)), HandedOver) == Select(l, HandedOver)
    ensures InOrder(l) ==> InOrder(l.(fates := ExpireOld(l, cutoff)))
    decreases |l.accepted|
  {
    if l.accepted != [] {
      HandedAfterExpiry(Front(l), cutoff);
      FrontOfExpired(l, cutoff);
    }
  }

  lemma {:induction false} UnexpiredShorter(q: seq<Entry>, cutoff: int)
    ensures |Unexpired(q, cutoff)| <= |q|
  {
    if q != [] { UnexpiredShorter(q[..|q| - 1], cutoff); }
  }

  lemma RegisterKeepsLog(names: seq<string>, s: RelayState, l: Log, op: Op, u: Uid)
    requires op.Register? && Rolls(op.d, names) && LogInv(s, l, u)
    ensures LogInv(Step(names, s, op), Logged(l, s, op, u), u)
  {
    if op.u == u {
      NothingHeldAfterHandAll(l);
      SelectAfterHandAll(l);
      SameSelect(Logged(l, s, op, u), l.(fates := HandAll(l.fates)));
    }
  }

  /** Select looks at acceptances and fates only. */
  lemma {:induction false} SameSelect(l: Log, m: Log)
    requires |l.accepted| == |l.fates| && l.accepted == m.accepted && l.fates == m.fates
    ensures forall f :: Select(l, f) == Select(m, f)
    decreases |l.accepted|
  {
    if l.accepted != [] { SameSelect(Front(l), Front(m)); }
  }

  lemma AppendKeepsLog(names: seq<string>, s: RelayState, l: Log, op: Op, u: Uid)
    requires op.Append? && LogInv(s, l, u)
    ensures LogInv(Step(names, s, op), Logged(l, s, op, u), u)
  {
    if op.u == u && |QueueOf(s, u)| < HOLD_MAX_PER_UID {
      var m := l.(accepted := l.accepted + [op.e], fates := l.fates + [Held]);
      assert Logged(l, s, op, u) == m;
      SelectSnoc(l, op.e, Held, Held);
      SelectSnoc(l, op.e, Held, HandedOver);
      InOrderSnoc(l, op.e);
    }
  }

  lemma InOrderSnoc(l: Log, e: Entry)
    requires InOrder(l)
    ensures InOrder(l.(accepted := l.accepted + [e], fates := l.fates + [Held]))
  {}

  lemma SweepKeepsLog(names: seq<string>, s: RelayState, l: Log, op: Op, u: Uid)
    requires op.Sweep? && LogInv(s, l, u)
    ensures LogInv(Step(names, s, op), Logged(l, s, op, u), u)
  {
    HeldAfterExpiry(l, op.now - HOLD_TTL);
    HandedAfterExpiry(l, op.now - HOLD_TTL);
    UnexpiredShorter(QueueOf(s, u), op.now - HOLD_TTL);
    SweptQueue(s, op.now, u);
  }

  lemma SweptQueue(s: RelayState, now: int, u: Uid)
    ensures QueueOf(Swept(s, now), u) == Unexpired(QueueOf(s, u), now - HOLD_TTL)
  {}

  lemma StepKeepsLog(names: seq<string>, s: RelayState, l: Log, op: Op, u: Uid)
    requires (op.Register? ==> Rolls(op.d, names)) && LogInv(s, l, u)
    ensures LogInv(Step(names, s, op), Logged(l, s, op, u), u)
  {
    match op
    case Register(_, _, _) => RegisterKeepsLog(names, s, l, op, u);
    case Check(_) =>
    case Append(_, _) => AppendKeepsLog(names, s, l, op, u);
    case Unregister(_, _) =>
    case Sweep(_) => SweepKeepsLog(names, s, l, op, u);
    case Sync(_, _) =>
  }

  /** For every recipient and every run: each accepted frame is held, handed over or expired,
      exactly one of them; the queue and the hand-overs across all reconnects are the accepted
      frames of that fate, in acceptance order and without repeats; the queue stays within
      its cap. */
  lemma {:induction false} HoldConserves(names: seq<string>, s: RelayState, ops: seq<Op>, u: Uid)
    requires DiceOk(names, ops) && |QueueOf(s, u)| <= HOLD_MAX_PER_UID
    ensures LogInv(Run(names, s, ops), LogOf(names, s, ops, u), u)
  {
    if ops == [] {
      SelectAllHeld(LogOf(names, s, [], u));
    } else {
      var front := ops[..|ops| - 1];
      HoldConserves(names, s, front, u);
      StepKeepsLog(names, Run(names, s, front), LogOf(names, s, front, u), ops[|ops| - 1], u);
    }
  }

  // ----- sessions -----

  predicate Mentions(op: Op, c: ConnId) { (op.Register? || op.Unregister?) && op.c == c }

  /** A connection registers once, before it unregisters, and for one user. */
  predicate FreshConns(ops: seq<Op>) {
    && (forall i, j :: 0 <= i < j < |ops| && ops[j].Register? ==> !Mentions(ops[i], ops[j].c))
  }

  /** The connection of the last registration of a user. */
  function Newest(ops: seq<Op>, u: Uid): Option<ConnId> {
    if ops == [] then None else
      var op := ops[|ops| - 1];
      if op.Register? && op.u == u then Some(op.c) else Newest(ops[..|ops| - 1], u)
  }

  predicate HasLeft(ops: seq<Op>, u: Uid, c: ConnId) { Op.Unregister(u, c) in ops }

  predicate SessionOk(s: RelayState, ops: seq<Op>, u: Uid) {
    && s.clients.Keys == s.aliases.Keys
    && (u in s.clients <==> Newest(ops, u).Some? && !HasLeft(ops, u, Newest(ops, u).value))
    && (u in s.clients ==> Newest(ops, u) == Some(s.clients[u]))
  }

  /** A registration puts its user online with the new connection and concerns no other user. */
  lemma RegisterKeepsSession(names: seq<string>, s: RelayState, front: seq<Op>, op: Op, u: Uid)
    requires op.Register? && Rolls(op.d, names) && SessionOk(s, front, u)
    requires forall i :: 0 <= i < |front| ==> !Mentions(front[i], op.c)
    ensures SessionOk(Step(names, s, op), front + [op], u)
  {
    var ops := front + [op];
    assert ops[..|ops| - 1] == front;
    forall i | 0 <= i < |ops| ensures ops[i] != Op.Unregister(u, op.c) {
      if i < |front| { assert !Mentions(front[i], op.c); }
    }
    if op.u != u && Newest(front, u).Some? {
      HasLeftSnoc(front, op, u, Newest(front, u).value);
    }
  }

  lemma HasLeftSnoc(front: seq<Op>, op: Op, u: Uid, c: ConnId)
    ensures HasLeft(front + [op], u, c) <==> HasLeft(front, u, c) || op == Op.Unregister(u, c)
  {}

  lemma OtherKeepsSession(names: seq<string>, s: RelayState, front: seq<Op>, op: Op, u: Uid)
    requires !op.Register? && SessionOk(s, front, u)
    ensures SessionOk(Step(names, s, op), front + [op], u)
  {
    assert (front + [op])[..|front|] == front;
    if Newest(front, u).Some? { HasLeftSnoc(front, op, u, Newest(front, u).value); }
  }

  /** From any state in which the user is offline, as at the start of the relay: a user is
      online exactly when their newest connection has not unregistered, and then with that
      connection, so a stale connection's exit never evicts its successor.  Clients and
      aliases always have the same users. */
  lemma {:induction false} SessionSafety(names: seq<string>, s: RelayState, ops: seq<Op>, u: Uid)
    requires DiceOk(names, ops) && FreshConns(ops)
    requires u !in s.clients && s.clients.Keys == s.aliases.Keys
    ensures SessionOk(Run(names, s, ops), ops, u)
  {
    if ops != [] {
      var front, op := ops[..|ops| - 1], ops[|ops| - 1];
      SessionSafety(names, s, front, u);
      assert ops == front + [op];
      if op.Register? {
        RegisterKeepsSession(names, Run(names, s, front), front, op, u);
      } else {
        OtherKeepsSession(names, Run(names, s, front), front, op, u);
      }
    }
  }

  lemma {:induction false} RunConcat(names: seq<string>, s: RelayState, a: seq<Op>, b: seq<Op>)
    requires DiceOk(names, a) && DiceOk(names, b)
    ensures DiceOk(names, a + b) && Run(names, s, a + b) == Run(names, Run(names, s, a), b)
  {
    if b == [] {
      assert a + b == a;
    } else {
      var n := |b| - 1;
      RunConcat(names, s, a, b[..n]);
      assert (a + b)[..|a + b| - 1] == a + b[..n];
    }
  }

  /** A frame for u: region i of the run is the online check, and found u offline; region j is
      the append that follows from it. */
  ghost predicate Forwards(names: seq<string>, s: RelayState, ops: seq<Op>, i: nat, j: nat, u: Uid, e: Entry)
    requires DiceOk(names, ops)
  {
    && i < j < |ops| && ops[i] == Check(u) && ops[j] == Append(u, e)
    && !Online(Run(names, s, ops[..i]), u)
  }

  /** The frame is held for a recipient who is online. */
  ghost predicate HeldOnline(names: seq<string>, s: RelayState, ops: seq<Op>, j: nat, u: Uid)
    requires DiceOk(names, ops) && j < |ops|
  {
    var (before, after) := (Run(names, s, ops[..j]), Run(names, s, ops[..j + 1]));
    Online(after, u) && |QueueOf(after, u)| > |QueueOf(before, u)|
  }

  /** The same, between two states of the relay: u is offline in s, the operations mid follow,
      then e is appended. */
  lemma HeldAfter(names: seq<string>, s: RelayState, mid: seq<Op>, u: Uid, e: Entry)
    requires DiceOk(names, mid) && FreshConns(mid)
    requires u !in s.clients && s.clients.Keys == s.aliases.Keys
    ensures var t := Run(names, s, mid); var a := Appended(t, u, e);
      u in a.clients && |QueueOf(a, u)| > |QueueOf(t, u)| <==>
        && Newest(mid, u).Some? && !HasLeft(mid, u, Newest(mid, u).value)
        && |QueueOf(t, u)| < HOLD_MAX_PER_UID
  {
    SessionSafety(names, s, mid, u);
  }

  lemma FreshSlice(ops: seq<Op>, i: nat, j: nat)
    requires i <= j <= |ops| && FreshConns(ops)
    ensures FreshConns(ops[i..j])
  {
    var part := ops[i..j];
    forall k, l | 0 <= k < l < |part| && part[l].Register? ensures !Mentions(part[k], part[l].c) {
      assert part[k] == ops[i + k] && part[l] == ops[i + l];
    }
  }

  /** The run up to region j continues from the check at region i. */
  lemma RunFromCheck(names: seq<string>, s: RelayState, ops: seq<Op>, i: nat, j: nat)
    requires DiceOk(names, ops) && i < j < |ops| && ops[i].Check?
    ensures Run(names, s, ops[..j]) == Run(names, Run(names, s, ops[..i]), ops[i + 1..j])
  {
    assert ops[..i + 1][..i] == ops[..i];
    assert ops[..j] == ops[..i + 1] + ops[i + 1..j];
    RunConcat(names, s, ops[..i + 1], ops[i + 1..j]);
  }

  lemma RunStep(names: seq<string>, s: RelayState, ops: seq<Op>, j: nat)
    requires DiceOk(names, ops) && j < |ops|
    ensures Run(names, s, ops[..j + 1]) == Step(names, Run(names, s, ops[..j]), ops[j])
  {
    assert ops[..j + 1][..j] == ops[..j];
  }

  lemma SameUsers(names: seq<string>, s: RelayState, ops: seq<Op>, i: nat, u: Uid)
    requires DiceOk(names, ops) && FreshConns(ops) && i <= |ops| && s.clients == map[] && s.aliases == map[]
    ensures Run(names, s, ops[..i]).clients.Keys == Run(names, s, ops[..i]).aliases.Keys
  {
    FreshSlice(ops, 0, i);
    assert ops[0..i] == ops[..i];
    SessionSafety(names, s, ops[..i], u);
  }

  /** Since the check and the append are separate regions, a frame can be held for a recipient
      who is online: exactly when, between the two, the recipient registered and that
      connection has not left, and the queue has room.  The frame then waits for the next
      registration. */
  lemma HeldWhileOnline(names: seq<string>, s: RelayState, ops: seq<Op>, i: nat, j: nat, u: Uid, e: Entry)
    requires DiceOk(names, ops) && FreshConns(ops) && s.clients == map[] && s.aliases == map[]
    requires Forwards(names, s, ops, i, j, u, e)
    ensures HeldOnline(names, s, ops, j, u) <==>
      && Newest(ops[i + 1..j], u).Some? && !HasLeft(ops[i + 1..j], u, Newest(ops[i + 1..j], u).value)
      && |QueueOf(Run(names, s, ops[..j]), u)| < HOLD_MAX_PER_UID
  {
    FreshSlice(ops, i + 1, j);
    SameUsers(names, s, ops, i, u);
    RunFromCheck(names, s, ops, i, j);
    RunStep(names, s, ops, j);
    HeldAfter(names, Run(names, s, ops[..i]), ops[i + 1..j], u, e);
  }

  // ----- aliases -----

  predicate Distinct(names: seq<string>) {
    forall i, j :: 0 <= i < j < |names| ==> names[i] != names[j]
  }

  predicate DistinctAliases(aliases: map<Uid, string>) {
    forall u, v | u in aliases && v in aliases :: u != v ==> aliases[u] != aliases[v]
  }

  predicate SomeFree(names: seq<string>, aliases: map<Uid, string>) {
    exists i :: 0 <= i < |names| && !Used(aliases, names[i])
  }

  lemma {:induction false} FirstFreeFacts(names: seq<string>, aliases: map<Uid, string>, perm: seq<nat>)
    requires forall i :: 0 <= i < |perm| ==> perm[i] < |names|
    ensures FirstFree(names, aliases, perm).Some? <==> exists i :: 0 <= i < |perm| && !Used(aliases, names[perm[i]])
    ensures FirstFree(names, aliases, perm).Some? ==> !Used(aliases, FirstFree(names, aliases, perm).value)
  {
    if perm != [] {
      FirstFreeFacts(names, aliases, perm[1..]);
      if exists i :: 0 <= i < |perm| && !Used(aliases, names[perm[i]]) {
        var i :| 0 <= i < |perm| && !Used(aliases, names[perm[i]]);
        if i > 0 { assert perm[1..][i - 1] == perm[i]; }
      }
    }
  }

  /** It is the first unused one in the shuffled order. */
  lemma {:induction false} FirstFreeIsFirst(names: seq<string>, aliases: map<Uid, string>, perm: seq<nat>, i: nat)
    requires forall k :: 0 <= k < |perm| ==> perm[k] < |names|
    requires i < |perm| && !Used(aliases, names[perm[i]]) && forall k :: 0 <= k < i ==> Used(aliases, names[perm[k]])
    ensures FirstFree(names, aliases, perm) == Some(names[perm[i]])
  {
    if i > 0 {
      assert forall k :: 0 <= k < i - 1 ==> perm[1..][k] == perm[k + 1];
      FirstFreeIsFirst(names, aliases, perm[1..], i - 1);
    }
  }

  /** The decimal digits of the number behind a numbered alias. */
  lemma DecimalDigits(n: nat)
    requires n < 1000
    ensures var s := Decimal(n);
      && (n < 10 ==> s == ["0123456789"[n]])
      && (10 <= n < 100 ==> s == ["0123456789"[n / 10], "0123456789"[n % 10]])
      && (100 <= n ==> s == ["0123456789"[n / 100], "0123456789"[n / 10 % 10], "0123456789"[n % 10]])
  {}

  /** pickAlias returns an unused name whenever a base name is free. */
  lemma PickIsUnused(names: seq<string>, aliases: map<Uid, string>, d: Dice)
    requires Rolls(d, names) && SomeFree(names, aliases)
    ensures !Used(aliases, Pick(names, aliases, d))
  {
    FirstFreeFacts(names, aliases, d.perm);
    var k :| 0 <= k < |names| && !Used(aliases, names[k]);
    assert k in d.perm;
    var i :| 0 <= i < |d.perm| && d.perm[i] == k;
    assert !Used(aliases, names[d.perm[i]]);
  }

  /** A numbered fallback name. */
  predicate Numbered(names: seq<string>, alias: string) {
    exists b, k :: 0 <= b < |names| && 0 <= k < 999 && alias == names[b] + "-" + Decimal(k)
  }

  /** A base name is free, or no other user has a numbered name. */
  predicate Safe(names: seq<string>, aliases: map<Uid, string>, u: Uid) {
    SomeFree(names, aliases) || forall v :: v in aliases && v != u ==> !Numbered(names, aliases[v])
  }

  /** Whatever the registration rolls, the aliases stay distinct. */
  ghost predicate SafeForAllRolls(names: seq<string>, s: RelayState, u: Uid, c: ConnId) {
    forall d :: Rolls(d, names) ==> DistinctAliases(Registered(names, s, u, c, d).aliases)
  }

  lemma PickIsNumbered(names: seq<string>, aliases: map<Uid, string>, d: Dice)
    requires Rolls(d, names) && !SomeFree(names, aliases)
    ensures Pick(names, aliases, d) == names[d.base] + "-" + Decimal(d.number)
    ensures Numbered(names, Pick(names, aliases, d))
  {
    FirstFreeFacts(names, aliases, d.perm);
  }

  /** A registration keeps the aliases distinct, whatever it rolls, exactly when a base name is
      free or no other user has a numbered name. */
  lemma RegistrationSafe(names: seq<string>, s: RelayState, u: Uid, c: ConnId)
    requires names != [] && DistinctAliases(s.aliases)
    ensures SafeForAllRolls(names, s, u, c) <==> Safe(names, s.aliases, u)
  {
    if Safe(names, s.aliases, u) {
      forall d | Rolls(d, names) ensures DistinctAliases(Registered(names, s, u, c, d).aliases) {
        if SomeFree(names, s.aliases) { PickIsUnused(names, s.aliases, d); } else { PickIsNumbered(names, s.aliases, d); }
      }
    } else {
      var v :| v in s.aliases && v != u && Numbered(names, s.aliases[v]);
      var b, k :| 0 <= b < |names| && 0 <= k < 999 && s.aliases[v] == names[b] + "-" + Decimal(k);
      var d := Dice(seq(|names|, i => i), b, k);
      forall n: nat | n < |names| ensures n in d.perm { assert d.perm[n] == n; }
      assert Rolls(d, names);
      PickIsNumbered(names, s.aliases, d);
      var t := Registered(names, s, u, c, d);
      assert u in t.aliases && v in t.aliases && t.aliases[u] == t.aliases[v];
    }
  }

  /** Region i, if it is a registration, is safe. */
  ghost predicate SafeAt(names: seq<string>, s: RelayState, ops: seq<Op>, i: nat)
    requires DiceOk(names, ops) && i < |ops|
  {
    ops[i].Register? ==> Safe(names, Run(names, s, ops[..i]).aliases, ops[i].u)
  }

  /** Region i, if it is a registration, could not have rolled a taken alias. */
  ghost predicate NoRiskAt(names: seq<string>, s: RelayState, ops: seq<Op>, i: nat)
    requires DiceOk(names, ops) && i < |ops|
  {
    ops[i].Register? ==> SafeForAllRolls(names, Run(names, s, ops[..i]), ops[i].u, ops[i].c)
  }

  ghost predicate AlwaysSafe(names: seq<string>, s: RelayState, ops: seq<Op>)
    requires DiceOk(names, ops)
  { forall i :: 0 <= i < |ops| ==> SafeAt(names, s, ops, i) }

  ghost predicate NeverAtRisk(names: seq<string>, s: RelayState, ops: seq<Op>)
    requires DiceOk(names, ops)
  { forall i :: 0 <= i < |ops| ==> NoRiskAt(names, s, ops, i) }

  /** In a state with distinct aliases, safe and without risk are the same. */
  lemma SafeIsNoRisk(names: seq<string>, s: RelayState, ops: seq<Op>, i: nat)
    requires names != [] && DiceOk(names, ops) && i < |ops| && DistinctAliases(Run(names, s, ops[..i]).aliases)
    ensures SafeAt(names, s, ops, i) <==> NoRiskAt(names, s, ops, i)
  {
    if ops[i].Register? { RegistrationSafe(names, Run(names, s, ops[..i]), ops[i].u, ops[i].c); }
  }

  /** As long as every registration was safe, or every one was without risk, the aliases are
      distinct at every moment of the run. */
  lemma {:induction false} DistinctUpTo(names: seq<string>, s: RelayState, ops: seq<Op>, n: nat)
    requires names != [] && DiceOk(names, ops) && DistinctAliases(s.aliases) && n <= |ops|
    requires forall i :: 0 <= i < n ==> SafeAt(names, s, ops, i) || NoRiskAt(names, s, ops, i)
    ensures DistinctAliases(Run(names, s, ops[..n]).aliases)
  {
    if n > 0 {
      DistinctUpTo(names, s, ops, n - 1);
      SafeIsNoRisk(names, s, ops, n - 1);
      RunStep(names, s, ops, n - 1);
      NoRiskStep(names, Run(names, s, ops[..n - 1]), ops[n - 1]);
    }
  }

  lemma NoRiskStep(names: seq<string>, s: RelayState, op: Op)
    requires DistinctAliases(s.aliases)
    requires op.Register? ==> Rolls(op.d, names) && SafeForAllRolls(names, s, op.u, op.c)
    ensures DistinctAliases(Step(names, s, op).aliases)
  {}

  /** Over whole runs: the aliases of online users are distinct, and no registration could have
      rolled a taken one, exactly when each registration found a free base name or no other
      user with a numbered name. */
  lemma AliasesDistinct(names: seq<string>, s: RelayState, ops: seq<Op>)
    requires names != [] && DiceOk(names, ops) && DistinctAliases(s.aliases)
    ensures NeverAtRisk(names, s, ops) <==> AlwaysSafe(names, s, ops)
    ensures AlwaysSafe(names, s, ops) ==> DistinctAliases(Run(names, s, ops).aliases)
  {
    if AlwaysSafe(names, s, ops) || NeverAtRisk(names, s, ops) {
      forall i | 0 <= i < |ops| ensures SafeAt(names, s, ops, i) <==> NoRiskAt(names, s, ops, i) {
        DistinctUpTo(names, s, ops, i);
        SafeIsNoRisk(names, s, ops, i);
      }
      DistinctUpTo(names, s, ops, |ops|);
      assert ops[..|ops|] == ops;
    }
  }

  /** A base name is free whenever fewer users are online than there are names. */
  lemma FewOnline(names: seq<string>, aliases: map<Uid, string>)
    requires Distinct(names) && |aliases| < |names|
    ensures SomeFree(names, aliases)
  {
    if !SomeFree(names, aliases) { Pigeonhole(names, aliases); }
  }

  /** If every name is used, there are at least as many users as names. */
  lemma {:induction false} Pigeonhole(names: seq<string>, aliases: map<Uid, string>)
    requires Distinct(names) && forall i :: 0 <= i < |names| ==> Used(aliases, names[i])
    ensures |names| <= |aliases|
    decreases |names|
  {
    if names != [] {
      var n := |names| - 1;
      assert Used(aliases, names[n]);
      var u :| u in aliases && aliases[u] == names[n];
      var rest := aliases - {u};
      forall i | 0 <= i < n ensures Used(rest, names[..n][i]) {
        assert Used(aliases, names[i]);
        var v :| v in aliases && aliases[v] == names[i];
        assert v in rest && rest[v] == names[i];
      }
      Pigeonhole(names[..n], rest);
      assert aliases.Keys == rest.Keys + {u};
      assert |aliases| == |aliases.Keys| && |rest| == |rest.Keys|;
    }
  }

  /** So once all base names are taken, two newcomers who roll the same share an alias. */
  lemma FallbackCollides(names: seq<string>, s: RelayState, u: Uid, v: Uid, c: ConnId, c': ConnId, d: Dice)
    requires Rolls(d, names) && !SomeFree(names, s.aliases) && u !in s.aliases && v !in s.aliases && u != v
    ensures var t := Registered(names, Registered(names, s, u, c, d), v, c', d);
      u in t.aliases && v in t.aliases && t.aliases[u] == t.aliases[v]
  {
    FirstFreeFacts(names, s.aliases, d.perm);
    var s1 := Registered(names, s, u, c, d);
    forall i | 0 <= i < |names| ensures Used(s1.aliases, names[i]) {
      assert Used(s.aliases, names[i]);
      var w :| w in s.aliases && s.aliases[w] == names[i];
      assert w in s1.aliases && s1.aliases[w] == names[i];
    }
    FirstFreeFacts(names, s1.aliases, d.perm);
  }

  // ----- NEWSYNC -----

  /** The times at which a user's registrations triggered a NEWSYNC broadcast. */
  ghost function SyncTimes(names: seq<string>, s: RelayState, ops: seq<Op>, u: Uid): seq<int>
    requires DiceOk(names, ops)
  {
    if ops == [] then [] else
      var front, op := ops[..|ops| - 1], ops[|ops| - 1];
      SyncTimes(names, s, front, u)
        + if op.Sync? && op.u == u && SyncDue(Run(names, s, front), u, op.now) then [op.now] else []
  }

  predicate LastIs(s: RelayState, ts: seq<int>, u: Uid) {
    (u in s.lastSync <==> ts != []) && (ts != [] ==> u in s.lastSync && s.lastSync[u] == ts[|ts| - 1])
  }

  /** NEWSYNC broadcasts of one user are more than five minutes apart. */
  lemma {:induction false} SyncsAreApart(names: seq<string>, s: RelayState, ops: seq<Op>, u: Uid)
    requires DiceOk(names, ops) && u !in s.lastSync
    ensures var ts := SyncTimes(names, s, ops, u);
      LastIs(Run(names, s, ops), ts, u) && forall i :: 0 <= i < |ts| - 1 ==> ts[i + 1] - ts[i] > SYNC_COOLDOWN
  {
    if ops != [] {
      var front, op := ops[..|ops| - 1], ops[|ops| - 1];
      SyncsAreApart(names, s, front, u);
      SyncStep(names, Run(names, s, front), op, SyncTimes(names, s, front, u), u);
    }
  }

  lemma SyncStep(names: seq<string>, s: RelayState, op: Op, ts: seq<int>, u: Uid)
    requires (op.Register? ==> Rolls(op.d, names)) && LastIs(s, ts, u)
    ensures LastIs(Step(names, s, op), ts + if op.Sync? && op.u == u && SyncDue(s, u, op.now) then [op.now] else [], u)
  {
    assert ts + [] == ts;
  }

  /** A registration announces its user exactly when no earlier one did, or the last one that
      did is more than five minutes old. */
  lemma AnnouncesIff(names: seq<string>, s: RelayState, ops: seq<Op>, u: Uid, now: int)
    requires DiceOk(names, ops) && u !in s.lastSync
    ensures var ts := SyncTimes(names, s, ops, u);
      SyncDue(Run(names, s, ops), u, now) <==> ts == [] || now - ts[|ts| - 1] > 5 * 60
  {
    SyncsAreApart(names, s, ops, u);
  }

  // ----- what the relay does with a client's message -----

  datatype Action = Ignored | Blocked | Broadcast(frame: seq<byte>) | Direct(to: Uid, frame: seq<byte>)

  /** The read loop's decision: too short, a file chunk, a broadcast, or one recipient. */
  function Classify(edPub: Bytes32, data: seq<byte>): Action {
    if |data| < 20 then Ignored
    else if |data| - 20 > 65 && data[85] == CONTENT_FILE_CHUNK then Blocked
    else
      var frame := edPub[..20] + data[20..];
      if data[..20] == Zeros(20) then Broadcast(frame) else Direct(data[..20], frame)
  }

  method ClassifyMessage(edPub: Bytes32, data: seq<byte>) returns (a: Action)
    ensures a == Classify(edPub, data)
    ensures a.Ignored? <==> |data| < 20
  {
    if |data| < 20 { return Ignored; }
    var msgData := data[20..];
    if |msgData| > 65 && msgData[65] == CONTENT_FILE_CHUNK { return Blocked; }
    var frame := edPub[..20] + msgData;
    var isBroadcast := true;
    for i := 0 to 20
      invariant isBroadcast && forall k :: 0 <= k < i ==> data[k] == 0
    {
      if data[i] != 0 {
        isBroadcast := false;
        break;
      }
    }
    if isBroadcast {
      assert data[..20] == Zeros(20);
      a := Broadcast(frame);
    } else {
      a := Direct(data[..20], frame);
    }
  }

  /** Of serialised messages, exactly the file chunks are blocked; every other one is passed
      on whole, behind the sender's ID, to the recipient the client named. */
  lemma OnlyFileChunksBlocked(edPub: Bytes32, to: Uid, m: Message)
    ensures Classify(edPub, to + Wire(m)).Blocked? <==> m.contentType == CONTENT_FILE_CHUNK
    ensures m.contentType != CONTENT_FILE_CHUNK ==>
      Classify(edPub, to + Wire(m)) ==
        if to == Zeros(20) then Broadcast(edPub[..20] + Wire(m)) else Direct(to, edPub[..20] + Wire(m))
  {
    var rest := Wire(m)[122..];
    assert Wire(m) == Header(m) + rest;
    HeaderFields(m, rest);
    assert (to + Wire(m))[85] == Wire(m)[65];
    assert (to + Wire(m))[..20] == to && (to + Wire(m))[20..] == Wire(m);
  }
}
