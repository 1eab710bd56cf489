/** The LAN frame stream (internal/mesh/transport.go): the send* functions and the command
    loop of handleConnection as a parser.

    A connection is a byte string.  Reading past its end is io.ReadFull's error, which makes
    the loop return; so do an unknown command and an over-limit length.  Deadlines and
    write errors are not part of the model. */
module Frames {
  import opened Bytes

  const CMD_HAVE: byte := 2
  const CMD_WANT: byte := 3
  const CMD_MSG: byte := 4
  const CMD_ACK: byte := 5
  const CMD_MANIFEST: byte := 6

  const MAX_HAVE: nat := 10 * 1024 * 1024
  const MAX_MSG: nat := 1024 * 1024
  const MAX_WANT: nat := 10000
  const MAX_MANIFEST: nat := 100000

  datatype Frame =
    | Have(bloom: seq<byte>)
    | Want(ids: seq<Bytes32>)
    | Msg(data: seq<byte>)
    | Ack(id: Bytes32)
    | Manifest(prefixes: seq<Bytes8>)

  /** What the receiver takes: 10 MiB of filter, 10000 wanted IDs, 1 MiB of message and 100000
      listed prefixes. */
  predicate WithinLimits(f: Frame) {
    match f
    case Have(b) => |b| <= 10_485_760
    case Want(ids) => |ids| <= 10_000
    case Msg(d) => |d| <= 1_048_576
    case Ack(_) => true
    case Manifest(ps) => |ps| <= 100_000
  }

  predicate AllWithin(fs: seq<Frame>) {
    forall i :: 0 <= i < |fs| ==> WithinLimits(fs[i])
  }

  // ----- writing -----

  function Flatten(ps: seq<seq<byte>>): seq<byte> {
    if ps == [] then [] else ps[0] + Flatten(ps[1..])
  }

  /** Go's uint32(len(x)): the length field wraps at 2^32. */
  function Count(n: nat): (s: seq<byte>)
    ensures |s| == 4
  { Put32(n % 0x1_0000_0000) }

  /** The 5-byte command header. */
  function Head(cmd: byte, n: nat): (s: seq<byte>)
    ensures |s| == 5
  { [cmd] + Count(n) }

  function Encode(f: Frame): (s: seq<byte>)
    ensures |s| >= 1
  {
    match f
    case Have(b) => Head(CMD_HAVE, |b|) + b
    case Want(ids) => Head(CMD_WANT, |ids|) + Flatten(ids)
    case Msg(d) => Head(CMD_MSG, |d|) + d
    case Ack(id) => [CMD_ACK] + id
    case Manifest(ps) => Head(CMD_MANIFEST, |ps|) + Flatten(ps)
  }

  function EncodeAll(fs: seq<Frame>): seq<byte> {
    if fs == [] then [] else Encode(fs[0]) + EncodeAll(fs[1..])
  }

  lemma {:induction false} FlattenSnoc(ps: seq<seq<byte>>, p: seq<byte>)
    ensures Flatten(ps + [p]) == Flatten(ps) + p
  {
    if ps == [] {
      assert [p][1..] == [];
      assert ps + [p] == [p];
    } else {
      assert (ps + [p])[1..] == ps[1..] + [p];
      FlattenSnoc(ps[1..], p);
    }
  }

  /** The bytes of each frame: command 2 to 6, a big-endian length or count (of an ACK none),
      and the content, item after item. */
  lemma FrameLayout(f: Frame)
    requires f.Ack? || Size(f) < 0x1_0000_0000
    ensures var s := Encode(f);
      if f.Ack? then s == [5] + f.id else
        && |s| >= 5 && GetBE(s[1..5]) == Size(f)
        && s[0] == (match f case Have(_) => 2 case Want(_) => 3 case Msg(_) => 4 case _ => 6)
        && s[5..] == (match f case Have(b) => b case Want(ids) => Flatten(ids) case Msg(d) => d case Manifest(ps) => Flatten(ps) case _ => [])
  {
    match f
    case Ack(_) =>
    case Have(b) => HeadLayout(CMD_HAVE, |b|, b);
    case Want(ids) => HeadLayout(CMD_WANT, |ids|, Flatten(ids));
    case Msg(d) => HeadLayout(CMD_MSG, |d|, d);
    case Manifest(ps) => HeadLayout(CMD_MANIFEST, |ps|, Flatten(ps));
  }

  lemma HeadLayout(cmd: byte, n: uint32, body: seq<byte>)
    ensures var s := Head(cmd, n) + body;
      |s| >= 5 && s[0] == cmd && GetBE(s[1..5]) == n && s[5..] == body
  {
    HeadFields(cmd, n);
    HeadThen(Head(cmd, n), body);
  }

  class Conn {
    var written: seq<byte>

    constructor ()
      ensures written == []
    { written := []; }

    method Write(s: seq<byte>)
      modifies this
      ensures written == old(written) + s
    { written := written + s; }

    method SendHave(bloom: seq<byte>)
      modifies this
      ensures written == old(written) + Encode(Have(bloom))
    {
      Assoc(written, Head(CMD_HAVE, |bloom|), bloom);
      Write(Head(CMD_HAVE, |bloom|));
      Write(bloom);
    }

    method SendMsg(data: seq<byte>)
      modifies this
      ensures written == old(written) + Encode(Msg(data))
    {
      Assoc(written, Head(CMD_MSG, |data|), data);
      Write(Head(CMD_MSG, |data|));
      Write(data);
    }

    method SendAck(id: Bytes32)
      modifies this
      ensures written == old(written) + Encode(Ack(id))
    {
      Write([CMD_ACK] + id);
    }

    method SendManifest(prefixes: seq<Bytes8>)
      modifies this
      ensures written == old(written) + Encode(Manifest(prefixes))
    {
      Assoc(written, Head(CMD_MANIFEST, |prefixes|), Flatten(prefixes));
      Write(Head(CMD_MANIFEST, |prefixes|));
      SendPieces(prefixes);
    }

    method SendWantList(ids: seq<Bytes32>)
      modifies this
      ensures written == old(written) + Encode(Want(ids))
    {
      Assoc(written, Head(CMD_WANT, |ids|), Flatten(ids));
      Write(Head(CMD_WANT, |ids|));
      SendPieces(ids);
    }

    /** One write per list element. */
    method SendPieces(ps: seq<seq<byte>>)
      modifies this
      ensures written == old(written) + Flatten(ps)
    {
      ghost var start := written;
      for i := 0 to |ps|
        invariant written == start + Flatten(ps[..i])
      {
        Write(ps[i]);
        FlattenSnoc(ps[..i], ps[i]);
        assert ps[..i + 1] == ps[..i] + [ps[i]];
      }
      assert ps[..|ps|] == ps;
    }
  }

  // ----- reading -----

  /** What the command loop does with the front of the stream: a whole command and the bytes
      after it, a WANT list cut short after some IDs (already served one by one), or the end
      of the connection. */
  datatype Read = Got(f: Frame, rest: seq<byte>) | Cut(ids: seq<Bytes32>) | Closed

  /** The first n pieces of width w. */
  function Pieces(s: seq<byte>, n: nat, w: nat): (ps: seq<seq<byte>>)
    requires n * w <= |s|
    ensures |ps| == n && forall i :: 0 <= i < n ==> |ps[i]| == w
  {
    if n == 0 then [] else
      MulStep(n - 1, w);
      [s[..w]] + Pieces(s[w..], n - 1, w)
  }

  function ReadFrame(s: seq<byte>): (r: Read)
    ensures r.Got? ==> |r.rest| < |s|
  {
    if s == [] then Closed
    else if s[0] == CMD_ACK then
      if |s| < 33 then Closed else Got(Ack(s[1..33]), s[33..])
    else if s[0] !in {CMD_HAVE, CMD_WANT, CMD_MSG, CMD_MANIFEST} || |s| < 5 then Closed
    else
      ReadBody(s[0], Get32(s[1..5]), s[5..])
  }

  /** The part after the 4-byte length or count. */
  function ReadBody(cmd: byte, n: uint32, s: seq<byte>): (r: Read)
    ensures r.Got? ==> |r.rest| <= |s|
  {
    if cmd == CMD_HAVE then
      if n > MAX_HAVE || |s| < n then Closed else Got(Have(s[..n]), s[n..])
    else if cmd == CMD_MSG then
      if n > MAX_MSG || |s| < n then Closed else Got(Msg(s[..n]), s[n..])
    else if cmd == CMD_WANT then
      if n > MAX_WANT then Closed
      else if |s| < n * 32 then Cut(Pieces(s, |s| / 32, 32))
      else Got(Want(Pieces(s, n, 32)), s[n * 32..])
    else
      if n > MAX_MANIFEST || |s| < n * 8 then Closed else Got(Manifest(Pieces(s, n, 8)), s[n * 8..])
  }

  /** The commands a connection serves, in order. */
  function Served(s: seq<byte>): seq<Frame>
    decreases |s|
  {
    match ReadFrame(s)
    case Got(f, rest) => [f] + Served(rest)
    case Cut(ids) => if ids == [] then [] else [Want(ids)]
    case Closed => []
  }

  /** A stream read with io.ReadFull. */
  class Reader {
    const stream: seq<byte>
    var pos: nat

    constructor (stream: seq<byte>)
      ensures this.stream == stream && pos == 0
    { this.stream, pos := stream, 0; }

    ghost predicate Valid()
      reads this
    { pos <= |stream| }

    ghost function Left(): seq<byte>
      requires Valid()
      reads this
    { stream[pos..] }

    method ReadFull(n: nat) returns (r: Option<seq<byte>>)
      requires Valid()
      modifies this
      ensures Valid()
      ensures n <= |old(Left())| ==> r == Some(old(Left())[..n]) && Left() == old(Left())[n..]
      ensures n > |old(Left())| ==> r == None
    {
      if pos + n > |stream| { return None; }
      DropMore(stream, pos, n);
      r := Some(stream[pos..pos + n]);
      pos := pos + n;
    }
  }

  lemma MulStep(n: nat, w: nat)
    ensures (n + 1) * w == n * w + w
  {}

  lemma DropMore(s: seq<byte>, i: nat, w: nat)
    requires i + w <= |s|
    ensures s[i..][..w] == s[i..i + w] && s[i..][w..] == s[i + w..]
  {}

  lemma {:induction false} PiecesSnoc(s: seq<byte>, n: nat, w: nat)
    requires (n + 1) * w <= |s|
    ensures n * w <= (n + 1) * w && n * w + w == (n + 1) * w
    ensures Pieces(s, n + 1, w) == Pieces(s, n, w) + [s[n * w..n * w + w]]
    decreases n
  {
    MulStep(n, w);
    if n > 0 {
      MulStep(n - 1, w);
      PiecesSnoc(s[w..], n - 1, w);
      assert s[w..][(n - 1) * w..(n - 1) * w + w] == s[n * w..n * w + w];
      assert Pieces(s, n + 1, w) == [s[..w]] + Pieces(s[w..], n, w);
    } else {
      assert Pieces(s[w..], 0, w) == [];
    }
  }

  /** The element loops of WANT and MANIFEST: all n pieces, or those before the cut. */
  method ReadPieces(r: Reader, n: nat, w: nat) returns (ps: seq<seq<byte>>, whole: bool)
    requires r.Valid() && w > 0
    modifies r
    ensures r.Valid()
    ensures whole <==> n * w <= |old(r.Left())|
    ensures whole ==> ps == Pieces(old(r.Left()), n, w) && r.Left() == old(r.Left())[n * w..]
    ensures !whole ==> |ps| * w <= |old(r.Left())| < (|ps| + 1) * w && ps == Pieces(old(r.Left()), |ps|, w)
  {
    ps, whole := [], true;
    ghost var s := r.Left();
    for i := 0 to n
      invariant r.Valid() && whole && |ps| == i && i * w <= |s|
      invariant ps == Pieces(s, i, w) && r.Left() == s[i * w..]
    {
      MulStep(i, w);
      var p := r.ReadFull(w);
      if p.None? {
        MulMonotone(i + 1, n, w);
        return ps, false;
      }
      DropMore(s, i * w, w);
      PiecesSnoc(s, i, w);
      ps := ps + [p.value];
    }
  }

  /** One turn of handleConnection's loop; `cut` holds the IDs of a WANT list that broke off. */
  method ReadCommand(r: Reader) returns (f: Option<Frame>, cut: seq<Bytes32>)
    requires r.Valid()
    modifies r
    ensures r.Valid()
    ensures match ReadFrame(old(r.Left()))
      case Got(g, rest) => f == Some(g) && r.Left() == rest
      case Cut(ids) => f == None && cut == ids
      case Closed => f == None && cut == []
  {
    f, cut := None, [];
    ghost var s := r.Left();
    var cmd := r.ReadFull(1);
    if cmd.None? { return; }
    if cmd.value[0] == CMD_ACK {
      var id := r.ReadFull(32);
      if id.Some? {
        f := Some(Ack(id.value));
        assert s[1..][..32] == s[1..33] && s[1..][32..] == s[33..];
      }
      return;
    }
    if cmd.value[0] !in {CMD_HAVE, CMD_WANT, CMD_MSG, CMD_MANIFEST} { return; }
    var lenBuf := r.ReadFull(4);
    if lenBuf.None? { return; }
    assert s[1..][..4] == s[1..5] && s[1..][4..] == s[5..];
    var n := Get32(lenBuf.value);
    f, cut := ReadCommandBody(r, cmd.value[0], n);
  }

  method ReadCommandBody(r: Reader, cmd: byte, n: uint32) returns (f: Option<Frame>, cut: seq<Bytes32>)
    requires r.Valid() && cmd in {CMD_HAVE, CMD_WANT, CMD_MSG, CMD_MANIFEST}
    modifies r
    ensures r.Valid()
    ensures match ReadBody(cmd, n, old(r.Left()))
      case Got(g, rest) => f == Some(g) && r.Left() == rest
      case Cut(ids) => f == None && cut == ids
      case Closed => f == None && cut == []
  {
    f, cut := None, [];
    if cmd == CMD_HAVE {
      if n > MAX_HAVE { return; }
      var data := r.ReadFull(n);
      if data.Some? { f := Some(Have(data.value)); }
    } else if cmd == CMD_MSG {
      if n > MAX_MSG { return; }
      var data := r.ReadFull(n);
      if data.Some? { f := Some(Msg(data.value)); }
    } else if cmd == CMD_WANT {
      if n > MAX_WANT { return; }
      var ids, whole := ReadPieces(r, n, 32);
      if whole { f := Some(Want(ids)); } else { cut := ids; }
    } else {
      if n > MAX_MANIFEST { return; }
      var ps, whole := ReadPieces(r, n, 8);
      if whole { f := Some(Manifest(ps)); }
    }
  }

  // ----- round trips -----

  lemma {:induction false} FlattenLength(ps: seq<seq<byte>>, w: nat)
    requires forall i :: 0 <= i < |ps| ==> |ps[i]| == w
    ensures |Flatten(ps)| == |ps| * w
  {
    if ps != [] {
      FlattenLength(ps[1..], w);
      assert |ps| * w == w + (|ps| - 1) * w;
    }
  }

  /** Cutting a concatenation of equal-width pieces gives back the first k of them, even when
      the stream ends right after. */
  lemma {:induction false} PiecesOfFlatten(ps: seq<seq<byte>>, w: nat, k: nat, rest: seq<byte>)
    requires forall i :: 0 <= i < |ps| ==> |ps[i]| == w
    requires k <= |ps|
    ensures k * w <= |Flatten(ps) + rest|
    ensures Pieces(Flatten(ps) + rest, k, w) == ps[..k]
    decreases k
  {
    FlattenLength(ps, w);
    MulMonotone(k, |ps|, w);
    if k > 0 {
      var s := Flatten(ps) + rest;
      assert s[..w] == ps[0];
      assert s[w..] == Flatten(ps[1..]) + rest;
      PiecesOfFlatten(ps[1..], w, k - 1, rest);
      assert k * w == w + (k - 1) * w;
      assert ps[..k] == [ps[0]] + ps[1..][..k - 1];
    }
  }

  /** The reader takes a frame within the limits off the stream and nothing more. */
  lemma ReadEncoded(f: Frame, rest: seq<byte>)
    requires WithinLimits(f)
    ensures ReadFrame(Encode(f) + rest) == Got(f, rest)
  {
    var s := Encode(f) + rest;
    match f
    case Ack(id) =>
      assert s[1..33] == id && s[33..] == rest;
    case Have(b) =>
      SplitHead(CMD_HAVE, |b|, b, rest);
      assert (b + rest)[..|b|] == b && (b + rest)[|b|..] == rest;
    case Msg(d) =>
      SplitHead(CMD_MSG, |d|, d, rest);
      assert (d + rest)[..|d|] == d && (d + rest)[|d|..] == rest;
    case Want(ids) =>
      SplitHead(CMD_WANT, |ids|, Flatten(ids), rest);
      FlattenLength(ids, 32);
      PiecesOfFlatten(ids, 32, |ids|, rest);
      assert ids[..|ids|] == ids;
      assert (Flatten(ids) + rest)[|ids| * 32..] == rest;
    case Manifest(ps) =>
      SplitHead(CMD_MANIFEST, |ps|, Flatten(ps), rest);
      FlattenLength(ps, 8);
      PiecesOfFlatten(ps, 8, |ps|, rest);
      assert ps[..|ps|] == ps;
      assert (Flatten(ps) + rest)[|ps| * 8..] == rest;
  }

  lemma HeadFields(cmd: byte, n: uint32)
    ensures Head(cmd, n)[0] == cmd && Head(cmd, n)[1..5] == Count(n) && Get32(Count(n)) == n
  {
    GetCount(n);
    OneThen(cmd, Count(n));
  }

  lemma GetCount(n: uint32)
    ensures Get32(Count(n)) == n
  {
    assert n % 0x1_0000_0000 == n;
    GetPut32(n);
  }

  lemma OneThen(x: byte, s: seq<byte>)
    requires |s| == 4
    ensures ([x] + s)[0] == x && ([x] + s)[1..5] == s
  {}

  lemma SplitHead(cmd: byte, n: uint32, body: seq<byte>, rest: seq<byte>)
    ensures var s := (Head(cmd, n) + body) + rest;
      |s| >= 5 && s[0] == cmd && Get32(s[1..5]) == n && s[5..] == body + rest
  {
    HeadFields(cmd, n);
    Assoc(Head(cmd, n), body, rest);
    HeadThen(Head(cmd, n), body + rest);
  }

  lemma HeadThen(h: seq<byte>, t: seq<byte>)
    requires |h| == 5
    ensures (h + t)[0] == h[0] && (h + t)[1..5] == h[1..5] && (h + t)[5..] == t
  {}

  lemma ServedEncoded(f: Frame, rest: seq<byte>)
    requires WithinLimits(f)
    ensures Served(Encode(f) + rest) == [f] + Served(rest)
  {
    ReadEncoded(f, rest);
  }

  lemma PrependFirst(fs: seq<Frame>, gs: seq<Frame>)
    requires fs != []
    ensures [fs[0]] + (fs[1..] + gs) == fs + gs
  {}

  /** The stream is self-delimiting: after any frames within the limits, whatever follows is
      read as if it stood alone. */
  lemma {:induction false} ServedAfterFrames(fs: seq<Frame>, tail: seq<byte>)
    requires AllWithin(fs)
    ensures Served(EncodeAll(fs) + tail) == fs + Served(tail)
  {
    if fs == [] {
      assert EncodeAll(fs) + tail == tail;
    } else {
      var rest := EncodeAll(fs[1..]) + tail;
      Assoc(Encode(fs[0]), EncodeAll(fs[1..]), tail);
      ServedEncoded(fs[0], rest);
      ServedAfterFrames(fs[1..], tail);
      PrependFirst(fs, Served(tail));
    }
  }

  /** Whatever the peer sends, only commands within the limits are served. */
  lemma {:induction false} ServedWithinLimits(s: seq<byte>)
    ensures AllWithin(Served(s))
    decreases |s|
  {
    match ReadFrame(s)
    case Got(f, rest) =>
      assert WithinLimits(f);
      ServedWithinLimits(rest);
    case Cut(ids) =>
      CutIsShort(s);
    case Closed =>
  }

  lemma CutIsShort(s: seq<byte>)
    requires ReadFrame(s).Cut?
    ensures |ReadFrame(s).ids| < MAX_WANT
  {
    assert |s[5..]| / 32 < Get32(s[1..5]);
  }

  /** Any sequence of frames from one writer is served as exactly that sequence if and only if
      every frame is within its limit. */
  lemma StreamRoundTrip(fs: seq<Frame>)
    ensures Served(EncodeAll(fs)) == fs <==> AllWithin(fs)
  {
    if AllWithin(fs) {
      ServedAfterFrames(fs, []);
      assert EncodeAll(fs) + [] == EncodeAll(fs);
    }
    ServedWithinLimits(EncodeAll(fs));
  }

  /** The size a length field announces. */
  function Size(f: Frame): nat {
    match f
    case Have(b) => |b|
    case Want(ids) => |ids|
    case Msg(d) => |d|
    case Ack(_) => 0
    case Manifest(ps) => |ps|
  }

  /** The first frame over its limit ends the connection: everything before it is served,
      nothing of it or after it is. */
  lemma OverLimitCloses(before: seq<Frame>, f: Frame, after: seq<byte>)
    requires AllWithin(before) && !WithinLimits(f) && Size(f) < 0x1_0000_0000
    ensures Served(EncodeAll(before) + (Encode(f) + after)) == before
  {
    ServedAfterFrames(before, Encode(f) + after);
    match f
    case Have(b) => SplitHead(CMD_HAVE, |b|, b, after);
    case Msg(d) => SplitHead(CMD_MSG, |d|, d, after);
    case Want(ids) => SplitHead(CMD_WANT, |ids|, Flatten(ids), after);
    case Manifest(ps) => SplitHead(CMD_MANIFEST, |ps|, Flatten(ps), after);
  }

  /** Any other command byte, HELLO (1) included, ends the connection after what came before. */
  lemma UnknownCommandCloses(before: seq<Frame>, s: seq<byte>)
    requires AllWithin(before) && s != [] && !(2 <= s[0] <= 6)
    ensures Served(EncodeAll(before) + s) == before
  {
    ServedAfterFrames(before, s);
  }

  /** gs is a prefix of fs, except that its last WANT list may be a prefix of the one sent. */
  ghost predicate CutOf(gs: seq<Frame>, fs: seq<Frame>) {
    gs == [] ||
    (fs != [] && (if gs[0] == fs[0] then CutOf(gs[1..], fs[1..])
                  else |gs| == 1 && gs[0].Want? && fs[0].Want? && gs[0].ids <= fs[0].ids))
  }

  /** A connection that breaks off anywhere serves a cut of what was sent: nothing is
      invented, reordered or altered by losing the end of the stream. */
  lemma {:induction false} CutStream(fs: seq<Frame>, k: nat)
    requires AllWithin(fs) && k <= |EncodeAll(fs)|
    ensures CutOf(Served(EncodeAll(fs)[..k]), fs)
    decreases |fs|
  {
    var s := EncodeAll(fs)[..k];
    if fs != [] {
      var e := Encode(fs[0]);
      if k >= |e| {
        var rest := EncodeAll(fs[1..])[..k - |e|];
        assert s == e + rest;
        ReadEncoded(fs[0], rest);
        assert Served(s) == [fs[0]] + Served(rest);
        assert Served(s)[1..] == Served(rest);
        CutStream(fs[1..], k - |e|);
      } else {
        assert s == e[..k];
        CutFrame(fs[0], k);
      }
    }
  }

  /** A proper prefix of one frame. */
  lemma CutFrame(f: Frame, k: nat)
    requires WithinLimits(f) && k < |Encode(f)|
    ensures var gs := Served(Encode(f)[..k]);
      gs == [] || (|gs| == 1 && gs[0].Want? && f.Want? && gs[0].ids <= f.ids)
  {
    var s := Encode(f)[..k];
    if k >= 5 && !f.Ack? {
      match f
      case Have(b) => SplitCut(CMD_HAVE, |b|, b, k);
      case Msg(d) => SplitCut(CMD_MSG, |d|, d, k);
      case Want(ids) => CutWant(ids, k);
      case Manifest(ps) =>
        SplitCut(CMD_MANIFEST, |ps|, Flatten(ps), k);
        FlattenLength(ps, 8);
    }
  }

  lemma SplitCut(cmd: byte, n: uint32, body: seq<byte>, k: nat)
    requires 5 <= k <= 5 + |body|
    ensures var s := (Head(cmd, n) + body)[..k];
      |s| == k && s[0] == cmd && Get32(s[1..5]) == n && s[5..] == body[..k - 5]
  {
    assert (Head(cmd, n) + body)[..k] == Head(cmd, n) + body[..k - 5];
    HeadFields(cmd, n);
    HeadThen(Head(cmd, n), body[..k - 5]);
  }

  lemma CutWant(ids: seq<Bytes32>, k: nat)
    requires |ids| <= MAX_WANT && 5 <= k < |Encode(Want(ids))|
    ensures var r := ReadFrame(Encode(Want(ids))[..k]); r.Cut? && r.ids <= ids
  {
    var body := Flatten(ids);
    SplitCut(CMD_WANT, |ids|, body, k);
    FlattenLength(ids, 32);
    var part := body[..k - 5];
    var j := |part| / 32;
    PiecesOfFlatten(ids, 32, j, []);
    assert body + [] == body;
    PiecesOfPrefix(body, part, j, 32);
  }

  lemma {:induction false} PiecesOfPrefix(s: seq<byte>, t: seq<byte>, n: nat, w: nat)
    requires t <= s && n * w <= |t|
    ensures Pieces(s, n, w) == Pieces(t, n, w)
    decreases n
  {
    if n > 0 {
      MulStep(n - 1, w);
      assert s[..w] == t[..w];
      PiecesOfPrefix(s[w..], t[w..], n - 1, w);
    }
  }
}
