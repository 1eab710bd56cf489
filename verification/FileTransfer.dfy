/** Chunked file transfer (internal/filetransfer/transfer.go): splitting, the chunk header and
    metadata codecs, and reassembly of interleaved transfers.

    Reading and saving files, zip and the random transfer ID are arguments. */
module FileTransfer {
  import opened Bytes
  import opened Reassembly

  const MAX_FILE_SIZE: nat := 10 * 1024 * 1024
  const CHUNK_SIZE: nat := 900 * 1024
  const HEADER_SIZE: nat := 20

  datatype ChunkHeader = ChunkHeader(transferID: Bytes16, chunkIndex: uint16, totalChunks: uint16)

  datatype FileMetadata = FileMetadata(filename: seq<byte>, mimeType: seq<byte>, fileSize: int64)

  const NO_METADATA: FileMetadata := FileMetadata([], [], 0)

  // ----- codecs -----

  function EncodeHeader(h: ChunkHeader): (s: seq<byte>)
    ensures |s| == HEADER_SIZE
  {
    h.transferID + (PutBE(2, h.chunkIndex) + PutBE(2, h.totalChunks))
  }

  function DecodeHeader(buf: seq<byte>): ChunkHeader
    requires |buf| == HEADER_SIZE
  {
    ChunkHeader(buf[..16], Get16(buf[16..18]), Get16(buf[18..20]))
  }

  lemma HeaderRoundTrip(h: ChunkHeader)
    ensures DecodeHeader(EncodeHeader(h)) == h
  {
    GetPut16(h.chunkIndex);
    GetPut16(h.totalChunks);
    var s := EncodeHeader(h);
    assert s[..16] == h.transferID && s[16..18] == PutBE(2, h.chunkIndex) && s[18..20] == PutBE(2, h.totalChunks);
  }

  /** A 2-byte length (wrapping at 65536 as uint16(len) does) and the bytes. */
  function LengthPrefixed(s: seq<byte>): seq<byte> { PutBE(2, |s| % 0x1_0000) + s }

  function EncodeMetadata(m: FileMetadata): seq<byte> {
    LengthPrefixed(m.filename) + (LengthPrefixed(m.mimeType) + Put64(ToU64(m.fileSize)))
  }

  /** Reading a length-prefixed string at an offset: the string and the next offset. */
  function ReadPrefixed(data: seq<byte>, offset: nat): (r: Option<(seq<byte>, nat)>)
    requires offset + 2 <= |data|
    ensures r.Some? ==> offset + 2 <= r.value.1 <= |data|
  {
    var n := Get16(data[offset..offset + 2]);
    if offset + 2 + n > |data| then None else Some((data[offset + 2..offset + 2 + n], offset + 2 + n))
  }

  /** decodeMetadata with its early exits: what was read so far and how far. */
  function DecodeMetadata(data: seq<byte>): (r: (FileMetadata, nat))
    ensures r.1 <= |data|
  {
    if |data| < 2 then (NO_METADATA, 0) else
      var f := ReadPrefixed(data, 0);
      if f.None? then (NO_METADATA, 0) else
        var (name, o1) := f.value;
        var m1 := NO_METADATA.(filename := name);
        if o1 + 2 > |data| then (m1, o1) else
          var t := ReadPrefixed(data, o1);
          if t.None? then (m1, o1 + 2) else
            var (mime, o2) := t.value;
            var m2 := m1.(mimeType := mime);
            if o2 + 8 > |data| then (m2, o2) else
              (m2.(fileSize := ToI64(Get64(data[o2..o2 + 8]))), o2 + 8)
  }

  method ParseMetadata(data: seq<byte>) returns (m: FileMetadata, offset: nat)
    ensures (m, offset) == DecodeMetadata(data)
  {
    m, offset := NO_METADATA, 0;
    if |data| < 2 { return; }
    var fnLen := Get16(data[offset..offset + 2]);
    if 2 + fnLen > |data| { return; }
    offset := offset + 2;
    m := m.(filename := data[offset..offset + fnLen]);
    offset := offset + fnLen;
    if offset + 2 > |data| { return; }
    var mtLen := Get16(data[offset..offset + 2]);
    offset := offset + 2;
    if offset + mtLen > |data| { return; }
    m := m.(mimeType := data[offset..offset + mtLen]);
    offset := offset + mtLen;
    if offset + 8 > |data| { return; }
    m := m.(fileSize := ToI64(Get64(data[offset..offset + 8])));
    offset := offset + 8;
  }

  /** Every way metadata can break off: what is kept, and where the data is taken to begin. */
  lemma MetadataCases(data: seq<byte>)
    ensures |data| < 2 ==> DecodeMetadata(data) == (NO_METADATA, 0)
    ensures |data| >= 2 ==>
      var n := GetBE(data[..2]);
      if 2 + n > |data| then DecodeMetadata(data) == (NO_METADATA, 0)
      else if 4 + n > |data| then DecodeMetadata(data) == (FileMetadata(data[2..2 + n], [], 0), 2 + n)
      else
        var k := GetBE(data[2 + n..4 + n]);
        if 4 + n + k > |data| then DecodeMetadata(data) == (FileMetadata(data[2..2 + n], [], 0), 4 + n)
        else
          var size := if 12 + n + k > |data| then 0 else ToI64(Get64(data[4 + n + k..12 + n + k]));
          var offset := if 12 + n + k > |data| then 4 + n + k else 12 + n + k;
          DecodeMetadata(data) == (FileMetadata(data[2..2 + n], data[4 + n..4 + n + k], size), offset)
  {
    if |data| >= 2 { assert data[0..2] == data[..2]; }
  }

  lemma ReadPrefixedAt(front: seq<byte>, s: seq<byte>, rest: seq<byte>)
    requires |s| < 0x1_0000
    ensures ReadPrefixed(front + (LengthPrefixed(s) + rest), |front|) == Some((s, |front| + 2 + |s|))
  {
    GetPut16(|s|);
    var data := front + (LengthPrefixed(s) + rest);
    Assoc(PutBE(2, |s|), s, rest);
    SliceAfter(front, PutBE(2, |s|), s + rest);
    Assoc(front, PutBE(2, |s|), s + rest);
    SliceAfter(front + PutBE(2, |s|), s, rest);
  }

  lemma SliceAfter(front: seq<byte>, z: seq<byte>, rest: seq<byte>)
    ensures (front + (z + rest))[|front|..|front| + |z|] == z
  {}

  lemma Regroup(f: seq<byte>, t: seq<byte>, z: seq<byte>, rest: seq<byte>)
    ensures (f + (t + z)) + rest == [] + (f + (t + (z + rest)))
    ensures (f + (t + z)) + rest == f + (t + (z + rest))
    ensures (f + (t + z)) + rest == (f + t) + (z + rest)
  {
    Assoc(f, t + z, rest);
    Assoc(t, z, rest);
    Assoc(f, t, z + rest);
  }

  /** Where the fields of encoded metadata lie. */
  lemma MetadataLayout(m: FileMetadata, rest: seq<byte>)
    requires NamesFit(m)
    ensures var data, o1, o2 := EncodeMetadata(m) + rest, 2 + |m.filename|, 4 + |m.filename| + |m.mimeType|;
      && |EncodeMetadata(m)| == o2 + 8
      && ReadPrefixed(data, 0) == Some((m.filename, o1))
      && ReadPrefixed(data, o1) == Some((m.mimeType, o2))
      && data[o2..o2 + 8] == Put64(ToU64(m.fileSize))
  {
    ThreeParts(m.filename, m.mimeType, Put64(ToU64(m.fileSize)), rest);
  }

  lemma ThreeParts(name: seq<byte>, mime: seq<byte>, z: seq<byte>, rest: seq<byte>)
    requires |name| < 0x1_0000 && |mime| < 0x1_0000
    ensures var data := (LengthPrefixed(name) + (LengthPrefixed(mime) + z)) + rest;
      && ReadPrefixed(data, 0) == Some((name, 2 + |name|))
      && ReadPrefixed(data, 2 + |name|) == Some((mime, 4 + |name| + |mime|))
      && data[4 + |name| + |mime|..4 + |name| + |mime| + |z|] == z
  {
    FirstPart(name, LengthPrefixed(mime), z, rest);
    SecondPart(LengthPrefixed(name), mime, z, rest);
    ThirdPart(LengthPrefixed(name), LengthPrefixed(mime), z, rest);
  }

  lemma FirstPart(name: seq<byte>, t: seq<byte>, z: seq<byte>, rest: seq<byte>)
    requires |name| < 0x1_0000
    ensures ReadPrefixed((LengthPrefixed(name) + (t + z)) + rest, 0) == Some((name, 2 + |name|))
  {
    Regroup(LengthPrefixed(name), t, z, rest);
    ReadPrefixedAt([], name, t + (z + rest));
  }

  lemma SecondPart(f: seq<byte>, mime: seq<byte>, z: seq<byte>, rest: seq<byte>)
    requires |mime| < 0x1_0000
    ensures ReadPrefixed((f + (LengthPrefixed(mime) + z)) + rest, |f|) == Some((mime, |f| + 2 + |mime|))
  {
    Regroup(f, LengthPrefixed(mime), z, rest);
    ReadPrefixedAt(f, mime, z + rest);
  }

  lemma ThirdPart(f: seq<byte>, t: seq<byte>, z: seq<byte>, rest: seq<byte>)
    ensures ((f + (t + z)) + rest)[|f| + |t|..|f| + |t| + |z|] == z
  {
    Regroup(f, t, z, rest);
    SliceAfter(f + t, z, rest);
  }

  /** Metadata in front of any data decodes to itself and the offset of the data if and only if
      both names are shorter than 65536 bytes: the 2-byte lengths wrap beyond that. */
  lemma MetadataRoundTrip(m: FileMetadata, rest: seq<byte>)
    ensures DecodeMetadata(EncodeMetadata(m) + rest) == (m, |EncodeMetadata(m)|) <==> NamesFit(m)
  {
    if NamesFit(m) {
      MetadataLayout(m, rest);
      GetPut64(ToU64(m.fileSize));
    } else {
      DecodedNamesFit(EncodeMetadata(m) + rest);
    }
  }

  lemma DecodedNamesFit(data: seq<byte>)
    ensures NamesFit(DecodeMetadata(data).0)
  {}

  // ----- splitting -----

  function Min(a: int, b: int): int { if a < b then a else b }

  /** Part i of the data, in chunks of CHUNK_SIZE. */
  function Part(data: seq<byte>, i: nat): seq<byte>
    requires i * CHUNK_SIZE <= |data|
  {
    data[i * CHUNK_SIZE..Min((i + 1) * CHUNK_SIZE, |data|)]
  }

  function PartCount(data: seq<byte>): nat { (|data| + CHUNK_SIZE - 1) / CHUNK_SIZE }

  function Parts(data: seq<byte>): (ps: seq<seq<byte>>)
    ensures |ps| == PartCount(data)
  {
    seq(PartCount(data), i requires 0 <= i < PartCount(data) => Part(data, i))
  }

  /** Every part but the last has 900 KiB; the last has the rest, never nothing. */
  lemma PartSize(data: seq<byte>, i: nat)
    requires i < PartCount(data)
    ensures 0 < |Parts(data)[i]| <= 900 * 1024
    ensures |Parts(data)[i]| == if i < PartCount(data) - 1 then 900 * 1024 else |data| - i * (900 * 1024)
  {}

  /** The parts concatenate to the data. */
  lemma PartsConcat(data: seq<byte>)
    ensures Concat(Parts(data)) == data
  {
    ConcatParts(data, PartCount(data));
    assert Parts(data)[..PartCount(data)] == Parts(data);
  }

  lemma {:induction false} ConcatParts(data: seq<byte>, n: nat)
    requires n <= PartCount(data)
    ensures Concat(Parts(data)[..n]) == data[..Min(n * CHUNK_SIZE, |data|)]
  {
    if n > 0 {
      ConcatParts(data, n - 1);
      assert Parts(data)[..n][..n - 1] == Parts(data)[..n - 1];
      var lo, hi := (n - 1) * CHUNK_SIZE, Min(n * CHUNK_SIZE, |data|);
      assert data[..lo] + data[lo..hi] == data[..hi];
    }
  }

  /** Payload i of a transfer: header, metadata for chunk 0, and the part. */
  function Payload(id: Bytes16, m: FileMetadata, data: seq<byte>, i: nat): seq<byte>
    requires i < PartCount(data) <= 65535
  {
    EncodeHeader(ChunkHeader(id, i, PartCount(data)))
      + ((if i == 0 then EncodeMetadata(m) else []) + Part(data, i))
  }

  /** The zip of the file, or the file itself when zipping does not make it smaller. */
  function Smaller(file: seq<byte>, zipped: seq<byte>): (c: seq<byte>)
    ensures |c| <= |file|
  {
    if |zipped| >= |file| then file else zipped
  }

  /** A file within the 10 MiB limit needs few chunks, so the 65535 check never fires. */
  lemma FewParts(data: seq<byte>)
    requires |data| <= MAX_FILE_SIZE
    ensures PartCount(data) <= 12
  {}

  /** PrepareChunks refuses exactly the files over 10 MiB, and otherwise yields one payload
      per part. */
  method PrepareChunks(id: Bytes16, filename: seq<byte>, mimeType: seq<byte>, file: seq<byte>, zipped: seq<byte>)
    returns (payloads: Option<seq<seq<byte>>>)
    ensures payloads.None? <==> |file| > 10_485_760
    ensures payloads.Some? ==>
      var data := if |zipped| < |file| then zipped else file;
      && |payloads.value| == PartCount(data) <= 65535
      && forall i :: 0 <= i < |payloads.value| ==>
           payloads.value[i] == Payload(id, FileMetadata(filename, mimeType, |file|), data, i)
  {
    if |file| > MAX_FILE_SIZE { return None; }
    var compressed := zipped;
    if |compressed| >= |file| { compressed := file; }
    FewParts(compressed);
    var chunks := SplitChunks(id, FileMetadata(filename, mimeType, |file|), compressed);
    payloads := Some(chunks);
  }

  lemma HeadMetaData(h: seq<byte>, meta: seq<byte>, part: seq<byte>)
    ensures (h + meta) + part == h + (meta + part)
    ensures [] + part == part
  {}

  /** The split loop. */
  method SplitChunks(id: Bytes16, m: FileMetadata, compressed: seq<byte>) returns (out: seq<seq<byte>>)
    requires PartCount(compressed) <= 65535
    ensures |out| == PartCount(compressed)
    ensures forall i :: 0 <= i < |out| ==> out[i] == Payload(id, m, compressed, i)
  {
    var totalChunks := PartCount(compressed);
    var meta := EncodeMetadata(m);
    out := [];
    for i := 0 to totalChunks
      invariant |out| == i
      invariant forall k :: 0 <= k < i ==> out[k] == Payload(id, m, compressed, k)
    {
      var start := i * CHUNK_SIZE;
      var end := start + CHUNK_SIZE;
      if end > |compressed| { end := |compressed|; }
      var chunkData := compressed[start..end];
      var payload := EncodeHeader(ChunkHeader(id, i, totalChunks));
      if i == 0 {
        payload := payload + meta;
      }
      payload := payload + chunkData;
      HeadMetaData(EncodeHeader(ChunkHeader(id, i, totalChunks)), meta, chunkData);
      out := out + [payload];
    }
  }

  // ----- receiving -----

  type Arrival = Chunk<Bytes16, byte, FileMetadata>
  type Pending = map<Bytes16, Buffer<byte, FileMetadata>>

  /** What one payload contributes. */
  function ReadChunk(payload: seq<byte>): Arrival
    requires |payload| >= HEADER_SIZE
  {
    var h := DecodeHeader(payload[..HEADER_SIZE]);
    var data := payload[HEADER_SIZE..];
    if h.chunkIndex == 0 then
      var (m, offset) := DecodeMetadata(data);
      Chunk(h.transferID, 0, h.totalChunks, data[offset..], Some(m))
    else
      Chunk(h.transferID, h.chunkIndex, h.totalChunks, data, None)
  }

  class Manager {
    const unzip: seq<byte> -> Option<seq<byte>>
    var pending: Pending

    constructor (unzip: seq<byte> -> Option<seq<byte>>)
      ensures pending == map[] && this.unzip == unzip
    {
      this.unzip := unzip;
      pending := map[];
    }

    /** A payload shorter than a header is ignored; one that completes its transfer yields the
        file to be saved. */
    method ReceiveChunk(payload: seq<byte>) returns (done: Option<(seq<byte>, Option<FileMetadata>)>)
      modifies this
      ensures |payload| < HEADER_SIZE ==> done == None && pending == old(pending)
      ensures |payload| >= HEADER_SIZE ==>
        var (bufs, r) := Arrive(old(pending), ReadChunk(payload), false);
        pending == bufs && done == if r.None? then None else Some((Saved(unzip, r.value.0), r.value.1))
    {
      done := None;
      if |payload| < HEADER_SIZE { return; }
      var header := DecodeHeader(payload[..HEADER_SIZE]);
      var chunkData := payload[HEADER_SIZE..];
      var meta: Option<FileMetadata> := None;
      if header.chunkIndex == 0 {
        var m, dataOffset := ParseMetadata(chunkData);
        meta := Some(m);
        chunkData := chunkData[dataOffset..];
      }
      var full;
      pending, full := Collect(pending, Chunk(header.transferID, header.chunkIndex, header.totalChunks, chunkData, meta), false);
      if full.Some? {
        var result := unzip(full.value.0);
        done := Some((if result.None? then full.value.0 else result.value, full.value.1));
      }
    }
  }

  predicate NamesFit(m: FileMetadata) { |m.filename| < 0x1_0000 && |m.mimeType| < 0x1_0000 }

  /** A payload reads back as its part, index, total and (for chunk 0) metadata; chunk 0 if
      and only if both names fit their length fields. */
  lemma PayloadRoundTrip(id: Bytes16, m: FileMetadata, data: seq<byte>, i: nat)
    requires i < PartCount(data) <= 65535
    ensures |Payload(id, m, data, i)| >= HEADER_SIZE
    ensures ReadChunk(Payload(id, m, data, i))
         == Chunk(id, i, PartCount(data), Parts(data)[i], if i == 0 then Some(m) else None)
      <==> (i == 0 ==> NamesFit(m))
  {
    PayloadIsRead(id, m, data, i);
    if i == 0 {
      MetadataRoundTrip(m, Part(data, 0));
      var body := EncodeMetadata(m) + Part(data, 0);
      assert body[|EncodeMetadata(m)|..] == Part(data, 0);
      DecodedNamesFit(body);
    }
  }

  /** What a payload reads back as, whatever its metadata. */
  lemma PayloadIsRead(id: Bytes16, m: FileMetadata, data: seq<byte>, i: nat)
    requires i < PartCount(data) <= 65535
    ensures |Payload(id, m, data, i)| >= HEADER_SIZE
    ensures var c := ReadChunk(Payload(id, m, data, i)); var body := EncodeMetadata(m) + Part(data, 0);
      && c.key == id && c.idx == i && c.total == PartCount(data)
      && (i > 0 ==> c.data == Part(data, i) && c.meta == None)
      && (i == 0 ==> c.meta == Some(DecodeMetadata(body).0) && c.data == body[DecodeMetadata(body).1..])
  {
    var h := ChunkHeader(id, i, PartCount(data));
    var body := (if i == 0 then EncodeMetadata(m) else []) + Part(data, i);
    HeaderRoundTrip(h);
    assert Payload(id, m, data, i)[..HEADER_SIZE] == EncodeHeader(h);
    assert Payload(id, m, data, i)[HEADER_SIZE..] == body;
    if i > 0 { assert body == Part(data, i); }
  }

  /** The parts and the metadata a transfer is read as. */
  function PartsRead(id: Bytes16, m: FileMetadata, data: seq<byte>): (ps: seq<seq<byte>>)
    requires PartCount(data) <= 65535
    ensures |ps| == PartCount(data)
  {
    seq(PartCount(data), i requires 0 <= i < PartCount(data) => DataRead(id, m, data, i))
  }

  function DataRead(id: Bytes16, m: FileMetadata, data: seq<byte>, i: nat): seq<byte>
    requires i < PartCount(data) <= 65535
  {
    PayloadIsRead(id, m, data, i);
    ReadChunk(Payload(id, m, data, i)).data
  }

  function MetaRead(m: FileMetadata, data: seq<byte>): FileMetadata {
    DecodeMetadata(EncodeMetadata(m) + Part(data, 0)).0
  }

  lemma ReadIsSent(id: Bytes16, m: FileMetadata, data: seq<byte>)
    requires 0 < PartCount(data) <= 65535
    ensures NamesFit(m) ==> PartsRead(id, m, data) == Parts(data)
    ensures MetaRead(m, data) == m <==> NamesFit(m)
  {
    MetadataRoundTrip(m, Part(data, 0));
    DecodedNamesFit(EncodeMetadata(m) + Part(data, 0));
    if NamesFit(m) {
      forall i | 0 <= i < PartCount(data) ensures PartsRead(id, m, data)[i] == Parts(data)[i] {
        PayloadRoundTrip(id, m, data, i);
      }
    }
  }

  /** The payload belongs to the transfer, or to another one. */
  predicate FromTransferOrOther(p: seq<byte>, id: Bytes16, m: FileMetadata, data: seq<byte>)
    requires PartCount(data) <= 65535 && |p| >= HEADER_SIZE
  {
    p[..16] == id ==> exists i: nat :: i < PartCount(data) && p == Payload(id, m, data, i)
  }

  /** ReceiveChunk ignores anything shorter than a header. */
  predicate LongEnough(ps: seq<seq<byte>>) {
    forall i :: 0 <= i < |ps| ==> |ps[i]| >= HEADER_SIZE
  }

  function Arrivals(ps: seq<seq<byte>>): (cs: seq<Arrival>)
    requires LongEnough(ps)
    ensures |cs| == |ps|
  {
    seq(|ps|, i requires 0 <= i < |ps| => ReadChunk(ps[i]))
  }

  lemma KeyOf(p: seq<byte>)
    requires |p| >= HEADER_SIZE
    ensures ReadChunk(p).key == p[..16]
  {
    assert p[..HEADER_SIZE][..16] == p[..16];
  }

  lemma ArrivalsGenuine(ps: seq<seq<byte>>, id: Bytes16, m: FileMetadata, data: seq<byte>)
    requires 0 < PartCount(data) <= 65535
    requires LongEnough(ps) && forall i :: 0 <= i < |ps| ==> FromTransferOrOther(ps[i], id, m, data)
    ensures Genuine(Arrivals(ps), id, PartsRead(id, m, data), Some(MetaRead(m, data)))
  {
    var cs := Arrivals(ps);
    forall i | 0 <= i < |cs| ensures GenuineChunk(cs[i], id, PartsRead(id, m, data), Some(MetaRead(m, data))) {
      KeyOf(ps[i]);
      if cs[i].key == id {
        assert FromTransferOrOther(ps[i], id, m, data);
        var k: nat :| k < PartCount(data) && ps[i] == Payload(id, m, data, k);
        PayloadIsRead(id, m, data, k);
      }
    }
  }

  /** What the receiver makes of a transfer, whatever its metadata: it completes exactly with
      the payload that brings the last missing part. */
  lemma TransferIsRead(pending: Pending, ps: seq<seq<byte>>, id: Bytes16, m: FileMetadata, data: seq<byte>)
    requires 0 < PartCount(data) <= 65535 && id !in pending
    requires LongEnough(ps) && forall i :: 0 <= i < |ps| ==> FromTransferOrOther(ps[i], id, m, data)
    requires ps != [] && ps[|ps| - 1][..16] == id
    requires !Covers(SeenIdx(Arrivals(ps[..|ps| - 1]), id), PartCount(data))
    ensures Completion(pending, Arrivals(ps)) ==
      if Covers(SeenIdx(Arrivals(ps), id), PartCount(data))
      then Some((Concat(PartsRead(id, m, data)), Some(MetaRead(m, data)))) else None
  {
    var cs := Arrivals(ps);
    ArrivalsGenuine(ps, id, m, data);
    KeyOf(ps[|ps| - 1]);
    assert cs[..|cs| - 1] == Arrivals(ps[..|ps| - 1]);
    CompletesExactly(pending, cs, false, id, PartsRead(id, m, data), Some(MetaRead(m, data)));
  }

  /** What the last of some arrivals completes. */
  function Completion(pending: Pending, cs: seq<Arrival>): Option<(seq<byte>, Option<FileMetadata>)>
    requires cs != []
  {
    Arrive(Run(pending, cs[..|cs| - 1], false), cs[|cs| - 1], false).1
  }

  /** Any order, duplication and interleaving with other transfers, before completion: the
      transfer completes exactly with the payload that brings its last missing part; and then
      the assembled bytes are the bytes that were split and the metadata is the one encoded,
      if and only if both names fit their 2-byte lengths. */
  lemma TransferCompletes(pending: Pending, ps: seq<seq<byte>>, id: Bytes16, m: FileMetadata, data: seq<byte>)
    requires PartCount(data) <= 65535 && id !in pending
    requires LongEnough(ps) && forall i :: 0 <= i < |ps| ==> FromTransferOrOther(ps[i], id, m, data)
    requires ps != [] && ps[|ps| - 1][..16] == id
    requires !Covers(SeenIdx(Arrivals(ps[..|ps| - 1]), id), PartCount(data))
    ensures var r := Completion(pending, Arrivals(ps));
      && (r.Some? <==> Covers(SeenIdx(Arrivals(ps), id), PartCount(data)))
      && (r.Some? ==> (r.value == (data, Some(m)) <==> NamesFit(m)))
  {
    assert FromTransferOrOther(ps[|ps| - 1], id, m, data);
    TransferIsRead(pending, ps, id, m, data);
    ReadIsSent(id, m, data);
    PartsConcat(data);
  }

  /** The saved file: the assembled bytes unzipped, or as they are when that fails. */
  function Saved(unzip: seq<byte> -> Option<seq<byte>>, assembled: seq<byte>): seq<byte> {
    var r := unzip(assembled);
    if r.Some? then r.value else assembled
  }

  /** The received file is the one sent if and only if it was sent zipped, or is no zip itself
      (or one that unzips to itself): a zip sent raw arrives unpacked. */
  lemma SavedIsSent(unzip: seq<byte> -> Option<seq<byte>>, file: seq<byte>, zipped: seq<byte>)
    requires unzip(zipped) == Some(file)
    ensures Saved(unzip, Smaller(file, zipped)) == file <==> |zipped| < |file| || unzip(file) in {None, Some(file)}
  {}

  /** Exactly the empty file has no payload at all, so it is never received. */
  lemma OnlyEmptyHasNoPayload(data: seq<byte>)
    ensures PartCount(data) == 0 <==> data == []
  {}
}
