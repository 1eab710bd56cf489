/** Collecting numbered chunks until all are present: the pattern shared by the DNS relay and
    client (cmd/dns-relay/main.go, internal/mesh/dns.go) and the file transfer manager
    (internal/filetransfer/transfer.go). */
module Reassembly {
  import opened Bytes

  /** One incoming chunk.  File chunk 0 also brings metadata. */
  datatype Chunk<K, T, D> = Chunk(key: K, idx: nat, total: nat, data: seq<T>, meta: Option<D>)

  datatype Buffer<T, D> = Buffer(chunks: map<nat, seq<T>>, total: nat, meta: Option<D>)

  /** The chunks of indices 0 to n-1 in order; a missing one contributes nothing. */
  function Assemble<T>(chunks: map<nat, seq<T>>, n: nat): seq<T> {
    if n == 0 then [] else
      Assemble(chunks, n - 1) + if n - 1 in chunks then chunks[n - 1] else []
  }

  /** The assembly loop of all three programs. */
  method AssembleLoop<T>(chunks: map<nat, seq<T>>, total: nat) returns (full: seq<T>)
    ensures full == Assemble(chunks, total)
  {
    full := [];
    for i := 0 to total
      invariant full == Assemble(chunks, i)
    {
      if i in chunks { full := full + chunks[i]; }
    }
  }

  function Concat<T>(parts: seq<seq<T>>): seq<T> {
    if parts == [] then [] else Concat(parts[..|parts| - 1]) + parts[|parts| - 1]
  }

  /** The program's completeness test: the relay and the file manager ask whether at least
      `total` chunks are there, the DNS client (exact) whether exactly so many are. */
  predicate Full(have: nat, total: nat, exact: bool) {
    if exact then have == total else have >= total
  }

  /** The buffer after a chunk arrived; the first chunk of a key fixes the total. */
  function Added<K, T, D>(bufs: map<K, Buffer<T, D>>, c: Chunk<K, T, D>): Buffer<T, D> {
    var b := if c.key in bufs then bufs[c.key] else Buffer(map[], c.total, None);
    b.(chunks := b.chunks[c.idx := c.data], meta := if c.meta.Some? then c.meta else b.meta)
  }

  /** One arrival: the new buffers, and the assembled data when the chunk completed its key. */
  function Arrive<K, T, D>(bufs: map<K, Buffer<T, D>>, c: Chunk<K, T, D>, exact: bool)
    : (map<K, Buffer<T, D>>, Option<(seq<T>, Option<D>)>)
  {
    var b := Added(bufs, c);
    if Full(|b.chunks|, b.total, exact) then
      (bufs - {c.key}, Some((Assemble(b.chunks, b.total), b.meta)))
    else
      (bufs[c.key := b], None)
  }

  /** The step all three programs share, on their reassembly map: find or create the buffer,
      store the chunk, and if that completes it, join the chunks and forget the buffer. */
  method Collect<K(==), T, D>(bufs: map<K, Buffer<T, D>>, c: Chunk<K, T, D>, exact: bool)
    returns (bufs': map<K, Buffer<T, D>>, done: Option<(seq<T>, Option<D>)>)
    ensures (bufs', done) == Arrive(bufs, c, exact)
  {
    var buf := Buffer(map[], c.total, None);
    if c.key in bufs { buf := bufs[c.key]; }
    if c.meta.Some? { buf := buf.(meta := c.meta); }
    buf := buf.(chunks := buf.chunks[c.idx := c.data]);
    bufs' := bufs[c.key := buf];
    done := None;
    if (exact && |buf.chunks| == buf.total) || (!exact && !(|buf.chunks| < buf.total)) {
      var full := AssembleLoop(buf.chunks, buf.total);
      bufs' := bufs' - {c.key};
      assert bufs' == bufs - {c.key};
      done := Some((full, buf.meta));
    }
  }

  function Run<K, T, D>(bufs: map<K, Buffer<T, D>>, cs: seq<Chunk<K, T, D>>, exact: bool): map<K, Buffer<T, D>> {
    if cs == [] then bufs else Arrive(Run(bufs, cs[..|cs| - 1], exact), cs[|cs| - 1], exact).0
  }

  // ----- counting -----

  function UpTo(n: nat): (s: set<nat>)
    ensures forall i: nat :: i in s <==> i < n
  {
    if n == 0 then {} else UpTo(n - 1) + {n - 1}
  }

  lemma {:induction false} UpToSize(n: nat)
    ensures |UpTo(n)| == n
  {
    if n > 0 { UpToSize(n - 1); }
  }

  ghost predicate Below(s: set<nat>, n: nat) { forall i :: i in s ==> i < n }

  /** Every index below n is there. */
  ghost predicate Covers(s: set<nat>, n: nat) { forall i: nat :: i < n ==> i in s }

  /** A set of indices below n has n elements exactly when it is all of them. */
  lemma FullIsAll(s: set<nat>, n: nat)
    requires Below(s, n)
    ensures |s| <= n
    ensures |s| == n <==> Covers(s, n)
  {
    UpToSize(n);
    SubsetSize(s, UpTo(n));
    if Covers(s, n) { assert s == UpTo(n); }
  }

  lemma {:induction false} SubsetSize(s: set<nat>, t: set<nat>)
    requires s <= t
    ensures |s| <= |t|
    ensures |s| == |t| ==> s == t
  {
    if s != {} {
      var x :| x in s;
      SubsetSize(s - {x}, t - {x});
    } else if t != {} {
      var x :| x in t;
      assert |t| == |t - {x}| + 1;
    }
  }

  lemma {:induction false} AssembleParts<T>(chunks: map<nat, seq<T>>, parts: seq<seq<T>>, n: nat)
    requires n <= |parts| && forall i: nat :: i < n ==> i in chunks && chunks[i] == parts[i]
    ensures Assemble(chunks, n) == Concat(parts[..n])
  {
    if n > 0 {
      AssembleParts(chunks, parts, n - 1);
      assert parts[..n][..n - 1] == parts[..n - 1];
    }
  }

  // ----- the transfer theorem -----

  /** Every chunk of the key is a genuine one: it carries part idx of the parts, their number,
      and metadata exactly with part 0. */
  ghost predicate Genuine<K, T, D>(cs: seq<Chunk<K, T, D>>, k: K, parts: seq<seq<T>>, meta: Option<D>) {
    forall i :: 0 <= i < |cs| ==> GenuineChunk(cs[i], k, parts, meta)
  }

  ghost predicate GenuineChunk<K, T, D>(c: Chunk<K, T, D>, k: K, parts: seq<seq<T>>, meta: Option<D>) {
    c.key == k ==>
      c.idx < |parts| && c.total == |parts| && c.data == parts[c.idx]
      && c.meta == if c.idx == 0 then meta else None
  }

  /** The indices of the key that have arrived. */
  ghost function SeenIdx<K, T, D>(cs: seq<Chunk<K, T, D>>, k: K): set<nat> {
    if cs == [] then {} else
      SeenIdx(cs[..|cs| - 1], k) + if cs[|cs| - 1].key == k then {cs[|cs| - 1].idx} else {}
  }

  lemma {:induction false} SeenBounded<K, T, D>(cs: seq<Chunk<K, T, D>>, k: K, parts: seq<seq<T>>, meta: Option<D>)
    requires Genuine(cs, k, parts, meta)
    ensures Below(SeenIdx(cs, k), |parts|)
  {
    if cs != [] { SeenBounded(cs[..|cs| - 1], k, parts, meta); }
  }

  /** The buffer of a key that has seen a set of genuine chunks. */
  ghost predicate Holds<K, T, D>(bufs: map<K, Buffer<T, D>>, k: K, seen: set<nat>, parts: seq<seq<T>>, meta: Option<D>) {
    (k in bufs <==> seen != {}) && (k in bufs ==> HoldsBuffer(bufs[k], seen, parts, meta))
  }

  ghost predicate HoldsBuffer<T, D>(b: Buffer<T, D>, seen: set<nat>, parts: seq<seq<T>>, meta: Option<D>) {
    && b.total == |parts| && b.chunks.Keys == seen
    && (forall i :: i in seen && i < |parts| ==> b.chunks[i] == parts[i])
    && b.meta == if 0 in seen then meta else None
  }

  /** A chunk of another key leaves the buffer of k alone. */
  lemma OtherKey<K, T, D>(bufs: map<K, Buffer<T, D>>, c: Chunk<K, T, D>, exact: bool, k: K)
    requires c.key != k
    ensures var r := Arrive(bufs, c, exact).0; (k in r <==> k in bufs) && (k in bufs ==> r[k] == bufs[k])
  {}

  /** A genuine chunk joins the buffer of its key. */
  lemma AddedHolds<K, T, D>(bufs: map<K, Buffer<T, D>>, c: Chunk<K, T, D>, seen: set<nat>, parts: seq<seq<T>>, meta: Option<D>)
    requires GenuineChunk(c, c.key, parts, meta) && Holds(bufs, c.key, seen, parts, meta)
    ensures HoldsBuffer(Added(bufs, c), seen + {c.idx}, parts, meta)
  {
    assert Added(bufs, c).chunks.Keys == seen + {c.idx};
  }

  /** A genuine chunk: completes exactly when it fills the last gap, with all parts in order. */
  lemma OwnKey<K, T, D>(bufs: map<K, Buffer<T, D>>, c: Chunk<K, T, D>, exact: bool, seen: set<nat>, parts: seq<seq<T>>, meta: Option<D>)
    requires GenuineChunk(c, c.key, parts, meta) && Below(seen, |parts|)
    requires Holds(bufs, c.key, seen, parts, meta)
    ensures var r := Arrive(bufs, c, exact);
      if Covers(seen + {c.idx}, |parts|)
      then r.1 == Some((Concat(parts), meta)) && c.key !in r.0
      else r.1 == None && Holds(r.0, c.key, seen + {c.idx}, parts, meta)
  {
    AddedHolds(bufs, c, seen, parts, meta);
    BufferFull(Added(bufs, c), exact, seen + {c.idx}, parts, meta);
  }

  lemma BufferFull<T, D>(b: Buffer<T, D>, exact: bool, s: set<nat>, parts: seq<seq<T>>, meta: Option<D>)
    requires HoldsBuffer(b, s, parts, meta) && Below(s, |parts|) && s != {}
    ensures Full(|b.chunks|, b.total, exact) <==> Covers(s, |parts|)
    ensures Covers(s, |parts|) ==> Assemble(b.chunks, b.total) == Concat(parts) && b.meta == meta
  {
    KeyCount(b.chunks, s);
    FullIsAll(s, |parts|);
    if Covers(s, |parts|) {
      AssembleParts(b.chunks, parts, |parts|);
      assert parts[..|parts|] == parts;
      var i :| i in s;
      assert i < |parts|;
      assert 0 in s;
    }
  }

  lemma KeyCount<T>(m: map<nat, T>, s: set<nat>)
    requires m.Keys == s
    ensures |m| == |s|
  {}

  lemma {:induction false} Collects<K, T, D>(bufs: map<K, Buffer<T, D>>, cs: seq<Chunk<K, T, D>>, exact: bool, k: K, parts: seq<seq<T>>, meta: Option<D>)
    requires Genuine(cs, k, parts, meta) && k !in bufs && parts != []
    requires !Covers(SeenIdx(cs, k), |parts|)
    ensures Holds(Run(bufs, cs, exact), k, SeenIdx(cs, k), parts, meta)
  {
    if cs != [] {
      var front, c := cs[..|cs| - 1], cs[|cs| - 1];
      SeenBounded(cs, k, parts, meta);
      SeenBounded(front, k, parts, meta);
      Collects(bufs, front, exact, k, parts, meta);
      if c.key == k {
        OwnKey(Run(bufs, front, exact), c, exact, SeenIdx(front, k), parts, meta);
      } else {
        OtherKey(Run(bufs, front, exact), c, exact, k);
      }
    }
  }

  /** Whatever the order, duplication and interleaving with other keys: up to the first moment
      at which all indices of a key have arrived, its last chunk completes it exactly when
      that moment has come, and then yields the parts in order with their metadata. */
  lemma CompletesExactly<K, T, D>(bufs: map<K, Buffer<T, D>>, cs: seq<Chunk<K, T, D>>, exact: bool, k: K, parts: seq<seq<T>>, meta: Option<D>)
    requires cs != [] && cs[|cs| - 1].key == k
    requires Genuine(cs, k, parts, meta) && k !in bufs
    requires !Covers(SeenIdx(cs[..|cs| - 1], k), |parts|)
    ensures var r := Arrive(Run(bufs, cs[..|cs| - 1], exact), cs[|cs| - 1], exact);
      && (Covers(SeenIdx(cs, k), |parts|) ==> r.1 == Some((Concat(parts), meta)) && k !in r.0)
      && (!Covers(SeenIdx(cs, k), |parts|) ==> r.1 == None)
  {
    var front, c := cs[..|cs| - 1], cs[|cs| - 1];
    SeenBounded(front, k, parts, meta);
    Collects(bufs, front, exact, k, parts, meta);
    OwnKey(Run(bufs, front, exact), c, exact, SeenIdx(front, k), parts, meta);
  }

  // ----- chunks of any kind -----

  /** The number of chunks the first chunk of the key announced. */
  ghost function FirstTotal<K, T, D>(cs: seq<Chunk<K, T, D>>, k: K): Option<nat> {
    if cs == [] then None
    else if FirstTotal(cs[..|cs| - 1], k).Some? then FirstTotal(cs[..|cs| - 1], k)
    else if cs[|cs| - 1].key == k then Some(cs[|cs| - 1].total) else None
  }

  /** The last chunk of the key with this index. */
  ghost function LastChunk<K, T, D>(cs: seq<Chunk<K, T, D>>, k: K, i: nat): Option<seq<T>> {
    if cs == [] then None else
      var c := cs[|cs| - 1];
      if c.key == k && c.idx == i then Some(c.data) else LastChunk(cs[..|cs| - 1], k, i)
  }

  ghost predicate HoldsLatest<K, T, D>(b: Buffer<T, D>, cs: seq<Chunk<K, T, D>>, k: K) {
    && FirstTotal(cs, k) == Some(b.total) && b.chunks.Keys == SeenIdx(cs, k)
    && forall i :: i in b.chunks ==> LastChunk(cs, k, i) == Some(b.chunks[i])
  }

  /** At no moment there were as many different chunks as the first one announced. */
  ghost predicate StillOpen<K, T, D>(cs: seq<Chunk<K, T, D>>, k: K) {
    FirstTotal(cs, k).Some? ==> |SeenIdx(cs, k)| < FirstTotal(cs, k).value
  }

  lemma AnyChunk<K, T, D>(bufs: map<K, Buffer<T, D>>, front: seq<Chunk<K, T, D>>, c: Chunk<K, T, D>)
    requires (c.key in bufs <==> SeenIdx(front, c.key) != {}) && (SeenIdx(front, c.key) != {} <==> FirstTotal(front, c.key).Some?)
    requires c.key in bufs ==> HoldsLatest(bufs[c.key], front, c.key)
    ensures HoldsLatest(Added(bufs, c), front + [c], c.key)
  {
    assert (front + [c])[..|front|] == front;
    var b := Added(bufs, c);
    forall i | i in b.chunks ensures LastChunk(front + [c], c.key, i) == Some(b.chunks[i]) {}
  }

  lemma AnyStaysOpen<K, T, D>(bufs: map<K, Buffer<T, D>>, front: seq<Chunk<K, T, D>>, c: Chunk<K, T, D>, exact: bool)
    requires (c.key in bufs <==> SeenIdx(front, c.key) != {}) && (SeenIdx(front, c.key) != {} <==> FirstTotal(front, c.key).Some?)
    requires c.key in bufs ==> HoldsLatest(bufs[c.key], front, c.key)
    requires StillOpen(front + [c], c.key)
    ensures var r := Arrive(bufs, c, exact).0; c.key in r && HoldsLatest(r[c.key], front + [c], c.key)
  {
    AnyChunk(bufs, front, c);
    KeyCount(Added(bufs, c).chunks, SeenIdx(front + [c], c.key));
  }

  lemma {:induction false} SeenIffTotal<K, T, D>(cs: seq<Chunk<K, T, D>>, k: K)
    ensures SeenIdx(cs, k) != {} <==> FirstTotal(cs, k).Some?
    ensures cs != [] ==> SeenIdx(cs[..|cs| - 1], k) <= SeenIdx(cs, k)
  {
    if cs != [] { SeenIffTotal(cs[..|cs| - 1], k); }
  }

  lemma OpenBefore<K, T, D>(cs: seq<Chunk<K, T, D>>, k: K)
    requires cs != [] && StillOpen(cs, k)
    ensures StillOpen(cs[..|cs| - 1], k)
  {
    SeenIffTotal(cs, k);
    SubsetSize(SeenIdx(cs[..|cs| - 1], k), SeenIdx(cs, k));
  }

  /** Whatever chunks arrive, genuine or not: while a key is open its buffer keeps the number
      announced first and, for every index seen, the data that came last. */
  lemma {:induction false} CollectsAny<K, T, D>(bufs: map<K, Buffer<T, D>>, cs: seq<Chunk<K, T, D>>, exact: bool, k: K)
    requires k !in bufs && StillOpen(cs, k)
    ensures var r := Run(bufs, cs, exact);
      (k in r <==> SeenIdx(cs, k) != {}) && (k in r ==> HoldsLatest(r[k], cs, k))
  {
    if cs != [] {
      var front, c := cs[..|cs| - 1], cs[|cs| - 1];
      var r := Run(bufs, front, exact);
      assert cs == front + [c];
      OpenBefore(cs, k);
      CollectsAny(bufs, front, exact, k);
      SeenIffTotal(front, k);
      if c.key == k {
        AnyStaysOpen(r, front, c, exact);
      } else {
        OtherKey(r, c, exact, k);
      }
    }
  }

  /** And the next chunk of the key completes it exactly when the number of different indices
      reaches the number announced first; what it yields are the latest chunks in order of
      index, up to that number. */
  lemma CompletesAny<K, T, D>(bufs: map<K, Buffer<T, D>>, front: seq<Chunk<K, T, D>>, c: Chunk<K, T, D>, exact: bool)
    returns (chunks: map<nat, seq<T>>)
    requires c.key !in bufs && StillOpen(front, c.key)
    ensures chunks.Keys == SeenIdx(front + [c], c.key)
    ensures forall i :: i in chunks ==> LastChunk(front + [c], c.key, i) == Some(chunks[i])
    ensures var total := FirstTotal(front + [c], c.key); var r := Arrive(Run(bufs, front, exact), c, exact);
      && total.Some?
      && (r.1.Some? <==> if exact then |chunks.Keys| == total.value else |chunks.Keys| >= total.value)
      && (r.1.Some? ==> c.key !in r.0 && r.1.value.0 == Assemble(chunks, total.value))
  {
    CollectsAny(bufs, front, exact, c.key);
    SeenIffTotal(front, c.key);
    AnyChunk(Run(bufs, front, exact), front, c);
    chunks := Added(Run(bufs, front, exact), c).chunks;
    KeyCount(chunks, chunks.Keys);
  }
}
