/** The store-and-forward hold (internal/store/hold.go).

    `HoldState` is what the directory and the metadata map contain; the class updates both
    in place.  File names are the hex of message IDs, so files are keyed by ID.  The clock
    is an argument (Unix seconds) and writes succeed. */
module Hold {
  import opened Bytes
  import opened Messages

  type Id = Bytes32

  const DEFAULT_HOP_TTL: int := 10
  const DEFAULT_FWD_LIMIT: nat := 15
  const MORGUE_TIMEOUT: int := 3 * 3600
  const KILL_SWITCH_TTL: int := 30 * 24 * 3600

  datatype HoldMeta = HoldMeta(
    hopTTL: int,
    forwardCount: nat,
    storedAt: int,
    msgTimestamp: int,
    exhausted: bool,
    morgueAt: int)

  datatype HoldState = HoldState(meta: map<Id, HoldMeta>, files: map<Id, seq<byte>>)

  const EMPTY: HoldState := HoldState(map[], map[])

  // ----- one operation -----

  function Stored(s: HoldState, m: Message, hopTTL: int, now: int): HoldState {
    if m.id in s.meta || hopTTL <= 0 then s
    else HoldState(s.meta[m.id := HoldMeta(hopTTL, 0, now, m.timestamp, false, 0)], s.files[m.id := Wire(m)])
  }

  function Forward(e: HoldMeta, now: int): HoldMeta {
    var c := e.forwardCount + 1;
    if c >= DEFAULT_FWD_LIMIT then e.(forwardCount := c, exhausted := true, morgueAt := now)
    else e.(forwardCount := c)
  }

  function Forwarded(s: HoldState, id: Id, now: int): HoldState {
    if id !in s.meta then s else s.(meta := s.meta[id := Forward(s.meta[id], now)])
  }

  function Deleted(s: HoldState, id: Id): HoldState {
    HoldState(s.meta - {id}, s.files - {id})
  }

  function Origin(e: HoldMeta): int { if e.msgTimestamp > 0 then e.msgTimestamp else e.storedAt }

  /** The kill switch or the morgue timeout has passed. */
  predicate Expired(e: HoldMeta, now: int) {
    now - Origin(e) > KILL_SWITCH_TTL || (e.morgueAt > 0 && now - e.morgueAt > MORGUE_TIMEOUT)
  }

  ghost function ExpiredIds(s: HoldState, now: int): set<Id> {
    set id | id in s.meta && Expired(s.meta[id], now)
  }

  ghost function Cleaned(s: HoldState, now: int): HoldState {
    HoldState(s.meta - ExpiredIds(s, now), s.files - ExpiredIds(s, now))
  }

  /** GetForSync's own move to the morgue, for an entry over the limit not yet marked. */
  predicate Overdue(e: HoldMeta) {
    !e.exhausted && e.morgueAt <= 0 && e.forwardCount >= DEFAULT_FWD_LIMIT
  }

  ghost function Marked(meta: map<Id, HoldMeta>, ids: set<Id>, now: int): map<Id, HoldMeta> {
    map id | id in meta ::
      if id in ids && Overdue(meta[id]) then meta[id].(exhausted := true, morgueAt := now) else meta[id]
  }

  /** Marking entries in turn is marking them together, and marking others does not change
      whether and how an entry is offered. */
  lemma MarkedOnce(c: HoldState, seen: set<Id>, id: Id, now: int)
    requires id !in seen
    ensures Marked(Marked(c.meta, seen, now), {id}, now) == Marked(c.meta, seen + {id}, now)
    ensures var s := c.(meta := Marked(c.meta, seen, now));
      MsgOf(s, id) == MsgOf(c, id) && TTLOf(s, id) == TTLOf(c, id)
  {
    assert Marked(Marked(c.meta, seen, now), {id}, now) == Marked(c.meta, seen + {id}, now);
  }

  ghost function Synced(s: HoldState, now: int): HoldState {
    var c := Cleaned(s, now);
    c.(meta := Marked(c.meta, c.files.Keys, now))
  }

  /** The entry is offered to peers. */
  predicate Offered(s: HoldState, id: Id) {
    && id in s.meta && id in s.files
    && !s.meta[id].exhausted && s.meta[id].morgueAt <= 0 && s.meta[id].forwardCount < DEFAULT_FWD_LIMIT
    && Parses(s.files[id])
  }

  function OfferedIds(s: HoldState, listing: seq<Id>): (ids: seq<Id>)
    ensures forall i :: 0 <= i < |ids| ==> Offered(s, ids[i])
  {
    if listing == [] then [] else
      var n := |listing| - 1;
      OfferedIds(s, listing[..n]) + if Offered(s, listing[n]) then [listing[n]] else []
  }

  function OfferedMsg(s: HoldState, id: Id): Message
    requires Offered(s, id)
  { Parse(s.files[id]).value }

  function OfferedTTL(s: HoldState, id: Id): int
    requires Offered(s, id)
  { s.meta[id].hopTTL - 1 }

  /** What one directory entry contributes: one message and one TTL, or nothing. */
  function MsgOf(s: HoldState, id: Id): seq<Message> { if Offered(s, id) then [OfferedMsg(s, id)] else [] }

  function TTLOf(s: HoldState, id: Id): seq<int> { if Offered(s, id) then [OfferedTTL(s, id)] else [] }

  /** The messages offered for a listing, in its order, and the TTL each receiver gets. */
  function SyncMsgs(s: HoldState, listing: seq<Id>): seq<Message> {
    if listing == [] then [] else
      var n := |listing| - 1;
      SyncMsgs(s, listing[..n]) + MsgOf(s, listing[n])
  }

  function SyncTTLs(s: HoldState, listing: seq<Id>): seq<int> {
    if listing == [] then [] else
      var n := |listing| - 1;
      SyncTTLs(s, listing[..n]) + TTLOf(s, listing[n])
  }

  lemma SyncStep(s: HoldState, listing: seq<Id>, i: nat)
    requires i < |listing|
    ensures SyncMsgs(s, listing[..i + 1])
         == SyncMsgs(s, listing[..i]) + MsgOf(s, listing[i])
    ensures SyncTTLs(s, listing[..i + 1])
         == SyncTTLs(s, listing[..i]) + TTLOf(s, listing[i])
    ensures forall id :: id in listing[..i + 1] <==> id in listing[..i] || id == listing[i]
  {
    assert listing[..i + 1][..i] == listing[..i];
    assert listing[..i + 1] == listing[..i] + [listing[i]];
  }

  predicate Distinct(l: seq<Id>) {
    forall i, j :: 0 <= i < j < |l| ==> l[i] != l[j]
  }

  /** os.ReadDir: every file once, in some order. */
  ghost predicate IsListing(l: seq<Id>, files: map<Id, seq<byte>>) {
    Distinct(l) && forall id :: id in l <==> id in files
  }

  function IdSet(l: seq<Id>): set<Id> { set id | id in l }

  /** The state of GetForSync's loop after the first i directory entries. */
  ghost predicate Offering(c: HoldState, listing: seq<Id>, i: nat, now: int, meta: map<Id, HoldMeta>, msgs: seq<Message>, ttls: seq<int>) {
    && i <= |listing| && meta == Marked(c.meta, IdSet(listing[..i]), now)
    && msgs == SyncMsgs(c, listing[..i]) && ttls == SyncTTLs(c, listing[..i])
  }

  lemma OfferingStart(c: HoldState, listing: seq<Id>, now: int)
    ensures Offering(c, listing, 0, now, c.meta, [], [])
  {
    assert Marked(c.meta, {}, now) == c.meta;
  }

  lemma OfferingStep(c: HoldState, listing: seq<Id>, i: nat, now: int, meta: map<Id, HoldMeta>, msgs: seq<Message>, ttls: seq<int>)
    requires Distinct(listing) && i < |listing| && Offering(c, listing, i, now, meta, msgs, ttls)
    ensures var (s, id) := (c.(meta := meta), listing[i]);
      Offering(c, listing, i + 1, now, Marked(meta, {id}, now), msgs + MsgOf(s, id), ttls + TTLOf(s, id))
  {
    SyncStep(c, listing, i);
    MarkedOnce(c, IdSet(listing[..i]), listing[i], now);
    assert IdSet(listing[..i + 1]) == IdSet(listing[..i]) + {listing[i]};
  }

  // ----- the mutable hold -----

  class HoldStore {
    var meta: map<Id, HoldMeta>
    var files: map<Id, seq<byte>>

    function State(): HoldState
      reads this
    {
      HoldState(meta, files)
    }

    constructor ()
      ensures State() == EMPTY
    {
      meta, files := map[], map[];
    }

    method Store(m: Message, now: int)
      modifies this
      ensures State() == Stored(old(State()), m, DEFAULT_HOP_TTL, now)
    {
      StoreWithTTL(m, DEFAULT_HOP_TTL, now);
    }

    method StoreWithTTL(m: Message, hopTTL: int, now: int)
      modifies this
      ensures State() == Stored(old(State()), m, hopTTL, now)
      ensures m.id !in old(meta) && hopTTL > 0 ==>
        && files == old(files)[m.id := Wire(m)]
        && m.id in meta && Origin(meta[m.id]) == if m.timestamp > 0 then m.timestamp else now
    {
      if m.id in meta { return; }
      if hopTTL <= 0 { return; }
      var data := Serialize(m);
      files := files[m.id := data];
      meta := meta[m.id := HoldMeta(hopTTL, 0, now, m.timestamp, false, 0)];
    }

    method MarkForwarded(id: Id, now: int)
      modifies this
      ensures State() == Forwarded(old(State()), id, now)
    {
      if id !in meta { return; }
      meta := meta[id := meta[id].(forwardCount := meta[id].forwardCount + 1)];
      if meta[id].forwardCount >= DEFAULT_FWD_LIMIT {
        meta := meta[id := meta[id].(exhausted := true, morgueAt := now)];
      }
    }

    method Delete(id: Id)
      modifies this
      ensures State() == Deleted(old(State()), id)
      ensures id !in meta && id !in files
    {
      files := files - {id};
      meta := meta - {id};
    }

    /** One pass collects what is expired, a second one removes it. */
    method Cleanup(now: int)
      modifies this
      ensures State() == Cleaned(old(State()), now)
    {
      ghost var s := State();
      var toDelete: seq<Id> := [];
      var rest := meta.Keys;
      while rest != {}
        invariant rest <= s.meta.Keys
        invariant forall id :: id in toDelete <==> id in s.meta && id !in rest && Expired(s.meta[id], now)
        decreases rest
      {
        var id :| id in rest;
        rest := rest - {id};
        var e := meta[id];
        var originTime := e.storedAt;
        if e.msgTimestamp > 0 { originTime := e.msgTimestamp; }
        if now - originTime > KILL_SWITCH_TTL {
          toDelete := toDelete + [id];
        } else if e.morgueAt > 0 && now - e.morgueAt > MORGUE_TIMEOUT {
          toDelete := toDelete + [id];
        }
      }
      for i := 0 to |toDelete|
        invariant meta == s.meta - (set id | id in toDelete[..i])
        invariant files == s.files - (set id | id in toDelete[..i])
      {
        files := files - {toDelete[i]};
        meta := meta - {toDelete[i]};
        assert toDelete[..i + 1] == toDelete[..i] + [toDelete[i]];
      }
      assert toDelete[..|toDelete|] == toDelete;
      assert (set id | id in toDelete) == ExpiredIds(s, now);
    }

    /** The body of GetForSync's loop for one directory entry: appends to both slices. */
    method OfferOne(id: Id, now: int, msgs: seq<Message>, hopTTLs: seq<int>)
      returns (msgs': seq<Message>, hopTTLs': seq<int>)
      requires id in files
      modifies this`meta
      ensures meta == Marked(old(meta), {id}, now)
      ensures msgs' == msgs + MsgOf(old(State()), id) && hopTTLs' == hopTTLs + TTLOf(old(State()), id)
    {
      msgs', hopTTLs' := msgs, hopTTLs;
      if id !in meta || meta[id].exhausted || meta[id].morgueAt > 0 { return; }
      if meta[id].forwardCount >= DEFAULT_FWD_LIMIT {
        meta := meta[id := meta[id].(exhausted := true, morgueAt := now)];
        return;
      }
      var msg := Deserialize(files[id]);
      if msg.None? { return; }
      var receiverTTL := meta[id].hopTTL - 1;
      msgs' := msgs + [msg.value];
      hopTTLs' := hopTTLs + [receiverTTL];
    }

    /** Messages to offer with the TTL each receiver gets; the listing is the directory after
        the cleanup.  Offering does not count as forwarding. */
    method GetForSync(listing: seq<Id>, now: int) returns (msgs: seq<Message>, hopTTLs: seq<int>)
      requires IsListing(listing, Cleaned(State(), now).files)
      modifies this
      ensures State() == Synced(old(State()), now)
      ensures var c := Cleaned(old(State()), now);
        msgs == SyncMsgs(c, listing) && hopTTLs == SyncTTLs(c, listing)
    {
      Cleanup(now);
      msgs, hopTTLs := OfferAll(listing, now);
    }

    /** The loop of GetForSync over the directory entries. */
    method OfferAll(listing: seq<Id>, now: int) returns (msgs: seq<Message>, hopTTLs: seq<int>)
      requires IsListing(listing, files)
      modifies this`meta
      ensures meta == Marked(old(meta), files.Keys, now)
      ensures msgs == SyncMsgs(old(State()), listing) && hopTTLs == SyncTTLs(old(State()), listing)
    {
      ghost var c := State();
      msgs, hopTTLs := [], [];
      OfferingStart(c, listing, now);
      for i := 0 to |listing|
        invariant Offering(c, listing, i, now, meta, msgs, hopTTLs)
      {
        OfferingStep(c, listing, i, now, meta, msgs, hopTTLs);
        msgs, hopTTLs := OfferOne(listing[i], now, msgs, hopTTLs);
      }
      assert listing[..|listing|] == listing;
      assert IdSet(listing) == files.Keys;
    }

    method Get(id: Id) returns (r: Option<Message>)
      ensures r == if id in files then Parse(files[id]) else None
    {
      if id !in files { return None; }
      r := Deserialize(files[id]);
    }

    method Count() returns (count: nat)
      ensures count == |Active(meta, meta.Keys)|
    {
      count := 0;
      var rest := meta.Keys;
      ghost var seen: set<Id> := {};
      while rest != {}
        invariant rest <= meta.Keys && seen == meta.Keys - rest
        invariant count == |Active(meta, seen)|
        decreases rest
      {
        var id :| id in rest;
        rest := rest - {id};
        if meta[id].morgueAt == 0 {
          assert Active(meta, seen + {id}) == Active(meta, seen) + {id};
          count := count + 1;
        } else {
          assert Active(meta, seen + {id}) == Active(meta, seen);
        }
        seen := seen + {id};
      }
      assert seen == meta.Keys;
    }
  }

  /** In every run Count is the number of entries forwarded fewer than 15 times. */
  lemma CountIsUnspent(es: seq<Event>)
    requires PositiveClock(es)
    ensures var meta := Run(EMPTY, es).meta;
      Active(meta, meta.Keys) == set id | id in meta && meta[id].forwardCount < 15
  {
    RunKeepsInv(es);
  }

  /** The entries among ids that are not in the morgue. */
  ghost function Active(meta: map<Id, HoldMeta>, ids: set<Id>): set<Id> {
    set id | id in ids && id in meta && meta[id].morgueAt == 0
  }

  // ----- runs -----

  datatype Op = Store(m: Message, hopTTL: int) | Mark(id: Id) | Delete(id: Id) | Cleanup | Sync

  datatype Event = Event(op: Op, now: int)

  ghost function Step(s: HoldState, e: Event): HoldState {
    match e.op
    case Store(m, hopTTL) => Stored(s, m, hopTTL, e.now)
    case Mark(id) => Forwarded(s, id, e.now)
    case Delete(id) => Deleted(s, id)
    case Cleanup => Cleaned(s, e.now)
    case Sync => Synced(s, e.now)
  }

  ghost function Run(s: HoldState, es: seq<Event>): HoldState {
    if es == [] then s else Step(Run(s, es[..|es| - 1]), es[|es| - 1])
  }

  predicate PositiveClock(es: seq<Event>) {
    forall i :: 0 <= i < |es| ==> es[i].now > 0
  }

  /** The file holds the wire form of a message with this ID. */
  ghost predicate HoldsMessage(file: seq<byte>, id: Id) {
    exists m: Message :: m.id == id && file == Wire(m)
  }

  predicate GoodMeta(e: HoldMeta) {
    && e.hopTTL >= 1 && e.morgueAt >= 0
    && (e.exhausted <==> e.forwardCount >= DEFAULT_FWD_LIMIT)
    && (e.exhausted <==> e.morgueAt > 0)
  }

  ghost predicate Inv(s: HoldState) {
    s.meta.Keys == s.files.Keys && forall id :: id in s.meta ==> GoodMeta(s.meta[id])
  }

  ghost predicate FilesHoldMessages(s: HoldState) {
    forall id :: id in s.files ==> HoldsMessage(s.files[id], id)
  }

  lemma StepKeepsInv(s: HoldState, e: Event)
    requires Inv(s) && e.now > 0
    ensures Inv(Step(s, e))
  {
    match e.op
    case Store(m, hopTTL) =>
    case Mark(id) =>
    case Delete(id) =>
    case Cleanup =>
    case Sync => NothingOverdue(s, e.now);
  }

  lemma StepKeepsFiles(s: HoldState, e: Event)
    requires FilesHoldMessages(s)
    ensures FilesHoldMessages(Step(s, e))
  {
    if e.op.Store? { assert HoldsMessage(Wire(e.op.m), e.op.m.id); }
  }

  /** In every run: metadata and files have the same keys, every file is the wire form of a
      message with its ID, the hop TTL is at least 1, and exhausted, over the limit and in
      the morgue are the same thing. */
  lemma {:induction false} RunKeepsInv(es: seq<Event>)
    requires PositiveClock(es)
    ensures Inv(Run(EMPTY, es)) && FilesHoldMessages(Run(EMPTY, es))
  {
    if es != [] {
      RunKeepsInv(es[..|es| - 1]);
      StepKeepsInv(Run(EMPTY, es[..|es| - 1]), es[|es| - 1]);
      StepKeepsFiles(Run(EMPTY, es[..|es| - 1]), es[|es| - 1]);
    }
  }

  lemma {:induction false} OfferedIdsAre(s: HoldState, l: seq<Id>)
    ensures forall id :: id in OfferedIds(s, l) <==> id in l && Offered(s, id)
    ensures Distinct(l) ==> Distinct(OfferedIds(s, l))
  {
    if l != [] {
      var n := |l| - 1;
      OfferedIdsAre(s, l[..n]);
      assert l == l[..n] + [l[n]];
    }
  }

  /** The offers of a listing, one by one. */
  lemma {:induction false} SyncPointwise(s: HoldState, l: seq<Id>)
    ensures var ids := OfferedIds(s, l);
      && |SyncMsgs(s, l)| == |ids| == |SyncTTLs(s, l)|
      && (forall i :: 0 <= i < |ids| ==> SyncMsgs(s, l)[i] == OfferedMsg(s, ids[i]))
      && (forall i :: 0 <= i < |ids| ==> SyncTTLs(s, l)[i] == s.meta[ids[i]].hopTTL - 1)
  {
    if l != [] { SyncPointwise(s, l[..|l| - 1]); }
  }

  lemma NothingOverdue(s: HoldState, now: int)
    requires Inv(s)
    ensures Synced(s, now) == Cleaned(s, now)
  {
    var c := Cleaned(s, now);
    assert Marked(c.meta, c.files.Keys, now) == c.meta;
  }

  /** GetForSync offers every survivor that is not exhausted (and whose payload fits the
      parser's cap) exactly once, with a receiver TTL of at least zero; and it changes
      nothing but the cleanup. */
  lemma SyncOffersSurvivors(s: HoldState, now: int, listing: seq<Id>)
    requires Inv(s) && IsListing(listing, Cleaned(s, now).files)
    ensures var c := Cleaned(s, now); var ids := OfferedIds(c, listing);
      && Synced(s, now) == c
      && Distinct(ids)
      && (forall id :: id in ids <==>
            id in s.meta && !Expired(s.meta[id], now) && !s.meta[id].exhausted && Parses(s.files[id]))
      && |SyncTTLs(c, listing)| == |ids|
      && (forall i :: 0 <= i < |ids| ==> SyncTTLs(c, listing)[i] == s.meta[ids[i]].hopTTL - 1 >= 0)
  {
    OfferedIdsAre(Cleaned(s, now), listing);
    SyncPointwise(Cleaned(s, now), listing);
    NothingOverdue(s, now);
  }

  /** An entry over the limit that was never marked (an old metadata file may have one) goes to
      the morgue at the next sync, if it survives the cleanup, and is not offered. */
  lemma OverdueGoesToMorgue(s: HoldState, id: Id, now: int)
    requires id in s.meta && id in s.files && !Expired(s.meta[id], now)
    requires !s.meta[id].exhausted && s.meta[id].morgueAt <= 0 && s.meta[id].forwardCount >= 15
    ensures var t := Step(s, Event(Sync, now));
      id in t.meta && t.meta[id] == s.meta[id].(exhausted := true, morgueAt := now) && !Offered(Cleaned(s, now), id)
  {}

  /** An offered message is the one that was stored, up to what the wire carries. */
  lemma OfferIsWhatWasStored(s: HoldState, l: seq<Id>, i: nat, m: Message)
    requires i < |OfferedIds(s, l)|
    requires s.files[OfferedIds(s, l)[i]] == Wire(m)
    requires |m.payload| <= MAX_PAYLOAD_LEN
    ensures |SyncMsgs(s, l)| == |OfferedIds(s, l)| && SyncMsgs(s, l)[i] == Carried(m)
  {
    SyncPointwise(s, l);
    RoundTrip(m);
  }

  /** Cleanup removes exactly the expired entries: afterwards nothing is older than 30 days
      from its origin or 3 hours from its morgue time, and every other entry is untouched. */
  lemma CleanupIsExact(s: HoldState, now: int)
    requires Inv(s)
    ensures var c := Cleaned(s, now);
      && (forall id :: id in c.meta <==> id in s.meta && !Expired(s.meta[id], now))
      && (forall id :: id in c.meta ==> c.meta[id] == s.meta[id] && c.files[id] == s.files[id])
      && (forall id :: id in c.meta ==> now - Origin(c.meta[id]) <= KILL_SWITCH_TTL)
      && (forall id :: id in c.meta && c.meta[id].exhausted ==> now - c.meta[id].morgueAt <= MORGUE_TIMEOUT)
  {}

  predicate NeverStores(es: seq<Event>, id: Id) {
    forall i :: 0 <= i < |es| && es[i].op.Store? ==> es[i].op.m.id != id
  }

  predicate Spent(s: HoldState, id: Id) { id !in s.meta || s.meta[id].exhausted }

  lemma StepKeepsSpent(s: HoldState, e: Event, id: Id)
    requires Inv(s) && Spent(s, id) && (e.op.Store? ==> e.op.m.id != id)
    ensures Spent(Step(s, e), id)
  {
    match e.op
    case Store(m, hopTTL) =>
    case Mark(x) =>
    case Delete(x) =>
    case Cleanup =>
    case Sync => NothingOverdue(s, e.now);
  }

  /** Once exhausted (or gone), an entry is never offered again in any continuation that
      does not store the same ID anew. */
  lemma {:induction false} NeverOfferedAgain(s: HoldState, es: seq<Event>, id: Id)
    requires Inv(s) && PositiveClock(es) && Spent(s, id) && NeverStores(es, id)
    ensures Inv(Run(s, es)) && Spent(Run(s, es), id) && !Offered(Run(s, es), id)
  {
    if es != [] {
      var front, e := es[..|es| - 1], es[|es| - 1];
      NeverOfferedAgain(s, front, id);
      StepKeepsInv(Run(s, front), e);
      StepKeepsSpent(Run(s, front), e, id);
    }
  }

  /** Time of the last MarkForwarded(id) of a run. */
  function LastMark(es: seq<Event>, id: Id): int {
    if es == [] then 0 else
      var e := es[|es| - 1];
      if e.op.Mark? && e.op.id == id then e.now else LastMark(es[..|es| - 1], id)
  }

  predicate MorgueSince(s: HoldState, id: Id, t: int) {
    id in s.meta && s.meta[id].exhausted ==> s.meta[id].morgueAt == t
  }

  lemma StepMovesMorgue(s: HoldState, e: Event, id: Id, t: int)
    requires Inv(s) && MorgueSince(s, id, t)
    ensures MorgueSince(Step(s, e), id, if e.op.Mark? && e.op.id == id then e.now else t)
  {
    match e.op
    case Store(m, hopTTL) =>
    case Mark(x) =>
    case Delete(x) =>
    case Cleanup =>
    case Sync => NothingOverdue(s, e.now);
  }

  /** The morgue time of an exhausted entry is that of the last forward, not of the first
      exhaustion: each further forward restarts it. */
  lemma {:induction false} MorgueIsLastMark(es: seq<Event>, id: Id)
    requires PositiveClock(es)
    ensures MorgueSince(Run(EMPTY, es), id, LastMark(es, id))
  {
    if es != [] {
      var front := es[..|es| - 1];
      MorgueIsLastMark(front, id);
      RunKeepsInv(front);
      StepMovesMorgue(Run(EMPTY, front), es[|es| - 1], id, LastMark(front, id));
    }
  }

  /** So a cleanup at time now removes an exhausted entry exactly when 3 hours have passed
      since its last forward, or 30 days since its origin. */
  lemma ExhaustedRemoval(es: seq<Event>, id: Id, now: int)
    requires PositiveClock(es) && Spent(Run(EMPTY, es), id) && id in Run(EMPTY, es).meta
    ensures id !in Cleaned(Run(EMPTY, es), now).meta <==>
      now - LastMark(es, id) > MORGUE_TIMEOUT || now - Origin(Run(EMPTY, es).meta[id]) > KILL_SWITCH_TTL
  {
    MorgueIsLastMark(es, id);
    RunKeepsInv(es);
  }

  // ----- the history of one entry -----

  function MarkCount(es: seq<Event>, id: Id): nat {
    if es == [] then 0 else
      MarkCount(es[..|es| - 1], id) + if es[|es| - 1].op == Mark(id) then 1 else 0
  }

  /** After the events `before`, event e leaves an entry of this origin in the hold: it does
      not delete it, and a cleanup comes neither 30 days after the origin nor, from the 15th
      forward on, 3 hours after the last one. */
  predicate Spares(e: Event, id: Id, origin: int, before: seq<Event>) {
    match e.op
    case Store(_, _) => true
    case Mark(_) => true
    case Delete(x) => x != id
    case _ => e.now - origin <= 30 * 24 * 3600 && (MarkCount(before, id) >= 15 ==> e.now - LastMark(before, id) <= 3 * 3600)
  }

  predicate Survives(since: seq<Event>, id: Id, origin: int) {
    forall j :: 0 <= j < |since| ==> Spares(since[j], id, origin, since[..j])
  }

  /** The file and entry of m, stored at time t, after the events `since`. */
  predicate HeldAs(s: HoldState, m: Message, hopTTL: int, t: int, since: seq<Event>) {
    var n := MarkCount(since, m.id);
    && m.id in s.files && s.files[m.id] == Wire(m)
    && m.id in s.meta
    && s.meta[m.id] == HoldMeta(hopTTL, n, t, m.timestamp, n >= 15, if n >= 15 then LastMark(since, m.id) else 0)
  }

  lemma StepKeepsHeld(s: HoldState, m: Message, hopTTL: int, t: int, since: seq<Event>, e: Event)
    requires Inv(s) && HeldAs(s, m, hopTTL, t, since)
    ensures var origin := if m.timestamp > 0 then m.timestamp else t;
      if Spares(e, m.id, origin, since) then HeldAs(Step(s, e), m, hopTTL, t, since + [e])
      else m.id !in Step(s, e).meta && m.id !in Step(s, e).files
  {
    assert (since + [e])[..|since|] == since;
    match e.op
    case Store(x, ttl) =>
    case Mark(x) =>
    case Delete(x) =>
    case Cleanup =>
    case Sync => NothingOverdue(s, e.now);
  }

  predicate Absent(s: HoldState, id: Id) { id !in s.meta && id !in s.files }

  lemma StepKeepsAbsent(s: HoldState, e: Event, id: Id)
    requires Absent(s, id) && (e.op.Store? ==> e.op.m.id != id)
    ensures Absent(Step(s, e), id)
  {
    match e.op
    case Store(_, _) =>
    case Mark(_) =>
    case Delete(_) =>
    case Cleanup =>
    case Sync =>
  }

  lemma SurvivesSnoc(since: seq<Event>, e: Event, id: Id, origin: int)
    ensures Survives(since + [e], id, origin) <==> Survives(since, id, origin) && Spares(e, id, origin, since)
  {
    var all := since + [e];
    assert all[..|since|] == since && all[|since|] == e;
    forall j | 0 <= j < |since| ensures all[j] == since[j] && all[..j] == since[..j] {}
  }

  /** The whole life of an entry.  A new message stored at time t is held, with its file and
      the given hop TTL, its origin (the message's own time if positive, else t) and all later
      forwards on record, as long as it is not deleted, no cleanup comes 30 days after its
      origin, and none 3 hours after its last forward once there are 15.  The first of these
      events ends it: without a new store of the ID it is gone from metadata and files. */
  lemma {:induction false} HeldUntil(s: HoldState, m: Message, hopTTL: int, t: int, since: seq<Event>)
    requires Inv(s) && t > 0 && PositiveClock(since) && m.id !in s.meta && hopTTL > 0
    ensures var h := Run(Step(s, Event(Store(m, hopTTL), t)), since);
      var origin := if m.timestamp > 0 then m.timestamp else t;
      && Inv(h)
      && (Survives(since, m.id, origin) ==> HeldAs(h, m, hopTTL, t, since))
      && (!Survives(since, m.id, origin) && NeverStores(since, m.id) ==> Absent(h, m.id))
  {
    StepKeepsInv(s, Event(Store(m, hopTTL), t));
    if since != [] {
      var front, e := since[..|since| - 1], since[|since| - 1];
      var origin := if m.timestamp > 0 then m.timestamp else t;
      var h := Run(Step(s, Event(Store(m, hopTTL), t)), front);
      assert since == front + [e];
      HeldUntil(s, m, hopTTL, t, front);
      StepKeepsInv(h, e);
      SurvivesSnoc(front, e, m.id, origin);
      if Survives(front, m.id, origin) {
        StepKeepsHeld(h, m, hopTTL, t, front, e);
      } else if NeverStores(since, m.id) {
        StepKeepsAbsent(h, e, m.id);
      }
    }
  }

  /** A deletion takes out the file and the entry of its ID and nothing else. */
  lemma DeleteIsPointwise(s: HoldState, id: Id, now: int)
    ensures var t := Step(s, Event(Delete(id), now));
      && Absent(t, id)
      && (forall x :: x != id ==> (x in t.meta <==> x in s.meta) && (x in t.files <==> x in s.files))
      && (forall x :: x != id && x in s.meta ==> t.meta[x] == s.meta[x])
      && (forall x :: x != id && x in s.files ==> t.files[x] == s.files[x])
  {}

  /** In every run, from every state: an ID deleted and not stored again is not there. */
  lemma {:induction false} DeletedIsGone(s: HoldState, es: seq<Event>, k: nat, id: Id)
    requires k < |es| && es[k].op == Delete(id) && NeverStores(es[k + 1..], id)
    ensures Absent(Run(s, es), id)
  {
    var n := |es| - 1;
    if k == n {
      DeleteIsPointwise(Run(s, es[..n]), id, es[n].now);
    } else {
      assert es[..n][k + 1..] == es[k + 1..][..n - k - 1];
      assert es[k + 1..][n - k - 1] == es[n];
      DeletedIsGone(s, es[..n], k, id);
      StepKeepsAbsent(Run(s, es[..n]), es[n], id);
    }
  }

  /** n forwards of one ID at one time. */
  function Marks(id: Id, now: int, n: nat): seq<Event> { seq(n, _ => Event(Mark(id), now)) }

  lemma {:induction false} RunMarks(s: HoldState, id: Id, now: int, n: nat)
    requires id in s.meta && s.meta[id].forwardCount == 0 && n <= DEFAULT_FWD_LIMIT
    requires !s.meta[id].exhausted && s.meta[id].morgueAt == 0
    ensures Run(s, Marks(id, now, n)) == s.(meta := s.meta[id := s.meta[id].(
      forwardCount := n, exhausted := n == DEFAULT_FWD_LIMIT, morgueAt := if n == DEFAULT_FWD_LIMIT then now else 0)])
  {
    if n > 0 {
      RunMarks(s, id, now, n - 1);
      assert Marks(id, now, n)[..n - 1] == Marks(id, now, n - 1);
    }
  }

  /** A deletion 3 hours after the first exhaustion cannot be promised: stored and exhausted
      at time t, forwarded once more 3 hours later, the entry survives a cleanup after that. */
  lemma FirstExhaustionIsNotTheDeadline(m: Message, t: int)
    requires t > 0 && m.timestamp == t
    ensures var first := Run(Stored(EMPTY, m, DEFAULT_HOP_TTL, t), Marks(m.id, t, DEFAULT_FWD_LIMIT));
      var again := Forwarded(first, m.id, t + MORGUE_TIMEOUT);
      && m.id in first.meta && first.meta[m.id].exhausted && first.meta[m.id].morgueAt == t
      && m.id in Cleaned(again, t + 2 * MORGUE_TIMEOUT).meta
  {
    RunMarks(Stored(EMPTY, m, DEFAULT_HOP_TTL, t), m.id, t, DEFAULT_FWD_LIMIT);
  }
}
