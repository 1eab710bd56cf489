# Iskra: verified model of the store-and-forward core

Iskra moves encrypted messages between devices that meet only now and then. This project models
the parts of it that decide whether a message survives: the codecs, the duplicate filter, the
hold, the LAN sync protocol, the WebSocket and DNS relays, file reassembly, the obfuscation
keystream and the proof of work, and proves properties of them with Dafny 4.11.

`dafny verify dfyconfig.toml` checks everything.

## How it is built

| module | models |
|---|---|
| `Bytes`, `Bits` | bounded integers, positional notation in any base, bit operations |
| `Base58` | key text and user IDs |
| `Encrypt`, `PoW` | keystream, encrypt/decrypt, proof of work |
| `Messages` | wire format, signed bytes, ID pre-image |
| `Bloom` | the duplicate filter and the probe of a peer's exported filter |
| `Hold` | the store-and-forward hold: hop TTL, forward limit, morgue, kill switch |
| `Node` | what a node does with an incoming message or ACK |
| `Frames`, `Sync` | the LAN frame stream; MANIFEST, WANT, HAVE, MSG and ACK; a whole connection |
| `Custody` | two nodes, two channels, every interleaving |
| `Reassembly`, `FileTransfer` | collecting numbered chunks; file transfer |
| `Base32`, `DnsNames`, `DnsTunnel`, `DnsQueues` | the DNS tunnel, client and relay |
| `Relay` | the WebSocket relay: sessions, aliases, offline hold |

Code that updates state in place is a class or a method with loops (`Bloom.SimpleBloom`,
`Hold.HoldStore`, `Node.Handler`, `Frames.Conn`, `Frames.Reader`, `FileTransfer.Manager`,
`DnsTunnel.Relay`, `DnsTunnel.Tunnel`, `Relay.Server`). Each method is proved equal to a
function on values, and the theorems about whole runs are lemmas about those functions.

SHA-256, HMAC, Ed25519, X25519 and secretbox are parameters, so every result holds for any choice
of them; where a law is needed it is a precondition. Clocks, random choices, directory listings
and zip output are arguments. Every concurrent step is one lock region, one frame read or one
handler call of the program, and runs are arbitrary sequences of such steps.

## What the proofs found

- **Custody.** A receiver acknowledges a message before its handler runs, also when the handler
  then drops it, and the sender deletes on the ACK. If the message never comes back, it is lost
  exactly when the receiver's filter reported an ID the receiver never had
  (`Custody.OneWayCustody`, `Custody.CustodyKept`, `Custody.RefusalWitness`). Sent back, it is
  lost from both nodes (`Custody.PingPongLoses`); in general it is lost exactly by a step that
  drops the last copy (`Custody.LostIffDropped`). The filter lives in memory and the hold on disk,
  so after a restart two nodes holding the same message can also delete each other's copy
  (`Custody.FilterLostOnRestart`).
- **Reply key.** A version 1 message that arrived with a reply key is stored and offered without
  it, and its signature covers the key (`Custody.OfferStaysVerified`).
- **Filter probe.** `bloomContains` always probes 10 positions, the filter made by
  `NewBloom(_, 0.001)` has 9. The probe is sound exactly for at most 10 hashes and agrees with
  `Contains` exactly for 10 (`Bloom.ProbeCondition`).
- **Morgue.** Forwarding an exhausted entry again restarts its three hours, so the deadline counts
  from the last forward and not from the first exhaustion (`Hold.ExhaustedRemoval`,
  `Hold.FirstExhaustionIsNotTheDeadline`).
- **Limits.** A manifest may list 100000 messages but a WANT more than 10000 makes the peer close
  the connection, so beyond that nothing at all is received (`Sync.ExchangeDelivers`). A DNS frame
  of more than 100 queries is silently ignored (`DnsNames.LongFrameIgnored`), and an empty file is
  never sent (`FileTransfer.OnlyEmptyHasNoPayload`).
- **DNS sizes.** The relay puts a whole frame into one TXT character-string, and every frame with
  a message is longer than the 255 octets of one (`DnsTunnel.NoMessageFits`). Query names fit
  exactly for relay domains of at most 58 characters (`DnsNames.NamesFitCondition`).
- **Files.** A zip sent as it is arrives unpacked (`FileTransfer.SavedIsSent`).
- **Relay.** A frame is held for a recipient who is online exactly when they registered between
  the online check and the append (`Relay.HeldWhileOnline`). Aliases are at risk of colliding
  exactly when no base name is free and another user has a numbered one
  (`Relay.RegistrationSafe`, `Relay.FallbackCollides`).

## Model

| member | source | states |
|---|---|---|
| Base58.ToBase58 | internal/identity/base58.go:11-47 | the DivMod loop, the appended ones and the reversal compute the text whose inverse laws follow |
| Base58.FromBase58 | internal/identity/base58.go:50-87 | the multiply-add loop computes the decoder, and fails iff some character is foreign |
| Base58.DecodeEncode | internal/identity/base58.go:11-87 | decoding undoes encoding for every byte string, leading zeros and the empty string included |
| Base58.EncodeDecode | internal/identity/base58.go:11-87 | encoding undoes decoding for every text over the alphabet, leading ones included |
| Base58.AlphabetText | internal/identity/base58.go:8-8 | the 58 characters of the alphabet, spelled out |
| Base58.KeyTextLength | internal/identity/keys.go:58-66 | a 32-byte key has 32 to 44 characters whatever its leading zeros |
| Base58.KeyTextLengthTight | internal/identity/keys.go:58-66 | both ends of that range are reached |
| Base58.UserID | internal/identity/keys.go:58-66 | an ID is the first 20 characters of the base58 text of the key, always; the padding never runs |
| Encrypt.GenerateObfuscationStream | internal/crypto/encrypt.go:109-134 | byte j of the keystream is byte j mod 32 of the HMAC of block j/32, for every length |
| Encrypt.BlockInputInjective | internal/crypto/encrypt.go:113-131 | the mixed 1-byte/4-byte counter never repeats a block input below 2^32 blocks |
| Encrypt.BlockInputLayout | internal/crypto/encrypt.go:113-127 | a block input is the nonce, the label byte by byte, and the counter in one or four bytes |
| Encrypt.NonceAndCounterInjective | internal/crypto/encrypt.go:113-127 | block inputs of any two messages coincide only for the same nonce and counter |
| Encrypt.OldStreamAgreement | internal/crypto/encrypt.go:95-108 | the block inputs equal those of the old byte counter exactly in the first 8192 bytes |
| Encrypt.StreamPeriod | internal/crypto/encrypt.go:113-131 | the uint32 counter wraps: the keystream repeats after 2^32 blocks |
| Encrypt.StreamPrefix | internal/crypto/encrypt.go:109-134 | a shorter request is a prefix of a longer one |
| Encrypt.XorAllTwice | internal/crypto/encrypt.go:137-143 | xoring twice with one stream gives the input back |
| Encrypt.ObfuscationXors | internal/crypto/encrypt.go:50-52 | on the wire a bit differs from the sealed one exactly where the HMAC of its block has a one |
| Encrypt.MessageKey | internal/crypto/encrypt.go:84-91 | the message key is the HMAC of the label under the shared secret |
| Encrypt.DeobfuscationIsExact | internal/crypto/encrypt.go:50-73 | the receiver hands the secretbox exactly the ciphertext the sender sealed |
| Encrypt.DecryptUndoesEncrypt | internal/crypto/encrypt.go:22-82 | a payload made by encryption decrypts to the plaintext, given the laws of X25519 and of the secretbox |
| Encrypt.EncryptMessage | internal/crypto/encrypt.go:22-58 | fails exactly when a key agreement fails; the payload carries key, nonce and obfuscated ciphertext |
| Encrypt.DecryptMessage | internal/crypto/encrypt.go:61-82 | agreement, de-obfuscation and opening in that order |
| PoW.HasLeadingZeroBits | internal/crypto/pow.go:35-51 | true iff the hash read big-endian is below 2^(256-n), for every uint8 n, no index out of range |
| PoW.SolvePoW | internal/crypto/pow.go:10-22 | returns the least nonce meeting the difficulty whenever a 64-bit one exists |
| PoW.VerifyPoW | internal/crypto/pow.go:25-32 | accepts exactly the nonces whose hash is below the bound |
| PoW.ChallengeLayout | internal/crypto/pow.go:10-32 | the 48 hashed bytes are ID, timestamp (two's complement) and nonce, big-endian |
| PoW.ChallengeInjective | internal/crypto/pow.go:10-32 | no two attempts for any messages and times hash the same bytes |
| PoW.MeetsIsMonotone | internal/crypto/pow.go:25-51 | a nonce good for a difficulty is good for every lower one |
| Messages.Serialize | internal/message/serialize.go:19-45 | the appended buffer is the wire form, the reply key only from version 2 |
| Messages.Deserialize | internal/message/serialize.go:52-118 | total parser with the moving offset, equal to the slice-wise one |
| Messages.WireFields | internal/message/serialize.go:19-45 | every field lies at its fixed place, integers big-endian, a negative timestamp as two's complement |
| Messages.ParseOfParts | internal/message/serialize.go:52-118 | bytes with all fields in place parse to them whatever follows; a reply key is read in every version if 32 more bytes are there |
| Messages.RoundTrip | internal/message/serialize.go:19-118 | parsing a serialised message gives it back (reply key zeroed below version 2) iff its payload is at most 16 MiB |
| Messages.NormalForm | internal/message/serialize.go:52-118 | re-serialising a parsed message gives a prefix of the input, zero-extended only for version 2 without its tail |
| Messages.ParsedIsStable | internal/message/serialize.go:19-118 | a parsed message survives a further round trip |
| Messages.SignableInjective | internal/message/message.go:215-228 | equal signed bytes force equal payloads and fields |
| Messages.SignedFields | internal/message/message.go:195-228 | the place of every field in the signed bytes and in the ID pre-image |
| Messages.PreimageInjective | internal/message/message.go:195-210 | equal ID pre-images force equal payloads and fields |
| Messages.SameIDOrCollision | internal/message/message.go:192-210 | two messages with one computed ID agree in all covered fields or exhibit a SHA-256 collision |
| Messages.BuildSignable | internal/message/message.go:215-228 | the appended buffer is the signed byte string |
| Bloom.SimpleBloom.Add | internal/store/bloom.go:58-66 | adds exactly the probed positions to the set of one bits |
| Bloom.SimpleBloom.Contains | internal/store/bloom.go:69-80 | true iff all probed positions are one bits |
| Bloom.SimpleBloom.Export | internal/store/bloom.go:139-148 | the little-endian bytes have the same one bits as the words |
| Bloom.SimpleBloom.CheckInRemote | internal/store/bloom.go:101-131 | true iff all positions modulo the remote size are one bits of the bytes |
| Bloom.PositionWraps | internal/store/bloom.go:83-98 | probe i is at r modulo the filter size, r being what 64 bits keep of h1 + i*h2 |
| Bloom.ProbesAreWalk | internal/store/bloom.go:83-98 | the probed positions are those of the walk from h1 in steps of h2, each sum wrapped to 64 bits |
| Bloom.WrapMatters | internal/store/bloom.go:96-96 | a hash for which the wrapped and the unwrapped sum probe different bits |
| Bloom.BloomContains | internal/mesh/transport.go:17-47 | the same with 10 hashes |
| Bloom.RemoteAgrees | internal/store/bloom.go:69-148 | probing the export with the filter's own hash count is Contains |
| Bloom.RemoteIsSound | internal/mesh/transport.go:17-47 | for at most 10 hashes a positive probe means the exporter reports the ID, then and ever after |
| Bloom.ProbeCondition | internal/mesh/transport.go:23-23 | the 10-hash probe is sound iff the filter has at most 10 hashes and exact iff it has 10 |
| Hold.HoldStore.StoreWithTTL | internal/store/hold.go:58-89 | one new file and entry, whose origin is the message's time if positive and else the store time; nothing for a known ID or a spent TTL |
| Hold.HoldStore.MarkForwarded | internal/store/hold.go:147-162 | counts a forward; from the 15th on the entry is exhausted and its morgue time is now |
| Hold.HoldStore.Delete | internal/store/hold.go:207-218 | afterwards the ID has neither file nor entry |
| Hold.HoldStore.Cleanup | internal/store/hold.go:246-281 | the two loops remove exactly the expired entries and their files |
| Hold.HoldStore.GetForSync | internal/store/hold.go:94-144 | after a cleanup, the offered messages and receiver TTLs in directory order |
| Hold.HoldStore.Get | internal/store/hold.go:193-204 | the parsed file, if there is one |
| Hold.HoldStore.Count | internal/store/hold.go:221-232 | the number of entries outside the morgue |
| Hold.CountIsUnspent | internal/store/hold.go:221-232 | in every run that is the number of entries forwarded fewer than 15 times |
| Hold.HeldUntil | internal/store/hold.go:58-281 | the life of an entry over every run: a new message is held with its file, hop TTL, origin (its own time if positive, else the store time) and forward record until it is deleted, a cleanup comes over 30 days after its origin, or over 3 hours after its last forward once there are 15; the first of these removes it |
| Hold.DeleteIsPointwise | internal/store/hold.go:207-218 | a deletion takes out file and entry of its ID and touches no other |
| Hold.DeletedIsGone | internal/store/hold.go:207-218 | in every run an ID deleted and not stored again has neither file nor entry |
| Hold.RunKeepsInv | internal/store/hold.go:58-281 | in every run metadata and files have the same IDs, TTL is at least 1, and exhausted, over the limit and in the morgue coincide |
| Hold.SyncOffersSurvivors | internal/store/hold.go:94-144 | exactly the unexpired, unexhausted entries are offered, each once, with TTL-1 at least 0 |
| Hold.OverdueGoesToMorgue | internal/store/hold.go:117-123 | an unmarked entry over the limit goes to the morgue at the next sync and is not offered |
| Hold.OfferIsWhatWasStored | internal/store/hold.go:126-138 | an offered message is the one stored, up to what the wire carries |
| Hold.NeverOfferedAgain | internal/store/hold.go:113-124 | an exhausted entry is never offered again unless its ID is stored anew |
| Hold.CleanupIsExact | internal/store/hold.go:253-281 | after a cleanup nothing is over 30 days from origin or 3 hours from its morgue time, all else untouched |
| Hold.ExhaustedRemoval | internal/store/hold.go:147-162 | a cleanup removes an exhausted entry iff 3 hours passed since its last forward or 30 days since origin |
| Hold.MorgueIsLastMark | internal/store/hold.go:155-160 | the morgue time of an exhausted entry is that of its last forward |
| Hold.FirstExhaustionIsNotTheDeadline | internal/store/hold.go:155-160 | a run in which an entry outlives 3 hours from its first exhaustion |
| Node.Handler.HandleMessage | cmd/iskra/main.go:183-210 | duplicates ignored, bad messages remembered, good ones filtered, delivered and stored as required |
| Node.Handler.ProcessIncoming | internal/mesh/sync.go:23-56 | as above, but bad messages are not remembered and broadcasts are stored |
| Node.Handler.HandleAck | cmd/iskra/main.go:215-220 | an ACK marks the message as delivered in the inbox and takes exactly its file and entry out of the hold |
| Node.AtMostOnce | cmd/iskra/main.go:183-210 | in every run API and hold are called at most once per ID, only for messages whose signature verifies and whose proof of work meets 16 bits |
| Node.DeliveredIff | cmd/iskra/main.go:183-209 | a message reaches the API iff signature and proof of work hold and at one of its arrivals the filter did not report it; it is stored iff the handler of such an arrival is to keep its type and recipient |
| Node.FilterRemembers | cmd/iskra/main.go:192-202 | the filter after a run is the union of what came: every message handled, good or bad, every own one, and of those processed by the sync node only the genuine |
| Frames.Conn.SendManifest | internal/mesh/transport.go:304-321 | writes the header and every prefix |
| Frames.Conn.SendWantList | internal/mesh/transport.go:324-339 | writes the header and every ID |
| Frames.Conn.SendHave | internal/mesh/transport.go:262-275 | writes the header and the filter |
| Frames.Conn.SendMsg | internal/mesh/transport.go:277-291 | writes the header and the message |
| Frames.Conn.SendAck | internal/mesh/transport.go:293-300 | writes the 33-byte ACK |
| Frames.FrameLayout | internal/mesh/transport.go:262-339 | command byte 2 to 6, big-endian length or count, content; an ACK is 5 and the ID |
| Frames.StreamRoundTrip | internal/mesh/transport.go:262-537 | any frames from one writer are served as exactly that sequence iff all are within their limits |
| Frames.ServedAfterFrames | internal/mesh/transport.go:341-537 | the stream is self-delimiting: what follows valid frames is read as if it stood alone |
| Frames.OverLimitCloses | internal/mesh/transport.go:371-399 | the first frame over its limit ends the connection, everything before it is served |
| Frames.UnknownCommandCloses | internal/mesh/transport.go:533-534 | any other command byte ends the connection after what came before |
| Frames.CutStream | internal/mesh/transport.go:360-463 | a connection cut anywhere serves a prefix of what was sent, the last WANT possibly shortened |
| Sync.BuildWant | internal/mesh/transport.go:504-525 | asks for every listed prefix missing in the own snapshot, in order |
| Sync.ServeWant | internal/mesh/transport.go:441-482 | a prefix sends all matching snapshot messages, a full ID the first match or the stored file; each is counted as forwarded |
| Sync.PrefixAnswered | internal/mesh/transport.go:441-470 | an ID with zeros from the ninth byte on gets every snapshot message sharing its prefix, as often as listed |
| Sync.FullIdAnswered | internal/mesh/transport.go:450-480 | any other ID gets the first snapshot message with it, or else the stored file, or else nothing |
| Sync.ServeHave | internal/mesh/transport.go:365-390 | sends the snapshot messages the filter does not report |
| Sync.HaveSendsUnreported | internal/mesh/transport.go:379-387 | a snapshot message is sent as often as listed, and never if the peer's export reports it |
| Sync.ServeMsg | internal/mesh/transport.go:392-415 | a parsable message is acknowledged and handled, whatever the handler decides; the hold changes as the handler says, and an unparsable message changes nothing |
| Sync.HandleConnection | internal/mesh/transport.go:341-537 | on any bytes the loop serves exactly the commands of the grammar and ends; replies, handler, hold and inbox marks are those of serving them one by one |
| Sync.ConnectionEffects | internal/mesh/transport.go:360-537 | over any commands: sent are exactly the answers to HAVE and WANT in order, one WANT per manifest with a gap and one ACK per message; marked as delivered are exactly the acknowledged IDs; an acknowledged ID not stored again is in neither part of the hold; every other entry stays, each message sent for a WANT counting as one forward |
| Sync.EntryBorn | cmd/iskra/main.go:207-209 | during a connection an entry appears exactly when the handler stores its message, with hop TTL 10, no forwards and the time of that command |
| Sync.ConnectionHandles | internal/mesh/transport.go:392-415 | whatever else a connection carries, exactly the parsable messages received are handled, in order, and exactly those acknowledged, each once |
| Sync.ExactMultiplicity | internal/mesh/transport.go:430-531 | each message is sent once per snapshot message sharing its prefix if the receiver lacks it, else never |
| Sync.MissingSentOnce | internal/mesh/transport.go:430-531 | with distinct prefixes exactly the missing messages are sent, each once |
| Sync.ExchangeDelivers | internal/mesh/transport.go:304-537 | over the byte streams the handler gets exactly those messages within the two count limits, and nothing beyond them |
| Sync.ReceivedPrefix | internal/mesh/transport.go:392-406 | the first message over 1 MiB ends the delivery |
| Sync.HaveWithholdsOnlyKnown | internal/mesh/transport.go:379-387 | HAVE filtering withholds only messages the peer's own filter reports, now and later |
| Custody.CustodyKept | internal/mesh/transport.go:392-428 | in every interleaving from every start, a good message once held, not confirmed and not carried both ways is lost iff one node deleted it and the other, which never had it, dropped it as a duplicate |
| Custody.OneWayCustody | internal/mesh/transport.go:392-428 | if the receiver never sends m back, whatever else both send and whatever the filters reported at the start, delete-on-ACK loses m iff the receiver refused it and never had it |
| Custody.RefusalWitness | cmd/iskra/main.go:184-189 | such a refusal means the receiver's filter reported the ID the first time it handled the message |
| Custody.StepLocates | cmd/iskra/main.go:183-220 | exactly which steps lose a message (deletion by ACK or confirmation, or a refusal, of the last copy) and which bring it |
| Custody.LostIffDropped | internal/mesh/transport.go:392-428 | in every run, traffic both ways included, a message is lost iff some step dropped its last copy and no later step brought it |
| Custody.CoveredLossIsRefusal | cmd/iskra/main.go:183-220 | if each filter reports what its hold contains, every loss involves a filter's refusal |
| Custody.PingPongLoses | cmd/iskra/main.go:183-220 | sent back, the message is lost from every start in which it is new to the receiver |
| Custody.FilterLostOnRestart | cmd/iskra/main.go:84-88 | with filters that do not cover the holds, crossing offers lose a message no filter refused |
| Custody.OfferStaysVerified | internal/store/hold.go:126-138 | whatever verifies a stored message verifies what is offered of it iff the wire leaves it unchanged (not so for version 1 with a reply key) |
| Custody.HandledIsIncoming | cmd/iskra/main.go:183-206 | the custody step changes the filter and calls the API as the handler does |
| Custody.HandledHoldIsStored | cmd/iskra/main.go:207-209 | the custody step changes the hold, file by file, as the handler does |
| FileTransfer.PrepareChunks | internal/filetransfer/transfer.go:76-149 | refuses exactly files over 10 MiB, else yields one payload per part |
| FileTransfer.Manager.ReceiveChunk | internal/filetransfer/transfer.go:152-222 | short payloads ignored, others collected; a completed transfer yields its bytes unzipped, or raw when they are no zip |
| FileTransfer.TransferCompletes | internal/filetransfer/transfer.go:152-198 | any order, duplication and interleaving: completes exactly with the last missing part; the bytes are those that were split and the metadata the encoded one iff both names fit their length fields |
| FileTransfer.SavedIsSent | internal/filetransfer/transfer.go:201-206 | the saved file is the one sent iff it was sent zipped or is itself no zip |
| FileTransfer.PartsConcat | internal/filetransfer/transfer.go:104-120 | the parts concatenate to the data |
| FileTransfer.PartSize | internal/filetransfer/transfer.go:104-120 | every part but the last has 900 KiB, the last the rest and at least one byte |
| FileTransfer.PayloadRoundTrip | internal/filetransfer/transfer.go:122-184 | a payload reads back as its part, index, total and metadata; chunk 0 iff both names are shorter than 65536 bytes |
| FileTransfer.MetadataRoundTrip | internal/filetransfer/transfer.go:256-305 | metadata decodes to itself and the offset of the data behind it iff both names are shorter than 65536 bytes |
| FileTransfer.ParseMetadata | internal/filetransfer/transfer.go:272-305 | decoding with all its early exits, never out of range |
| FileTransfer.MetadataCases | internal/filetransfer/transfer.go:272-305 | for metadata broken off anywhere, what is kept and where the data is taken to begin |
| FileTransfer.OnlyEmptyHasNoPayload | internal/filetransfer/transfer.go:104-114 | a file has no payload iff it is empty |
| Reassembly.CompletesExactly | cmd/dns-relay/main.go:254-286 | the shared collector completes a key at the first moment all indices are there, with the parts in order |
| Reassembly.CompletesAny | cmd/dns-relay/main.go:254-286 | whatever chunks arrive, genuine or not: the first one fixes the number, later data replaces earlier, and the key completes when that many different indices are there |
| Reassembly.Collect | cmd/dns-relay/main.go:257-286 | find or create the buffer, store, test, join and forget |
| Base32.DecodeEncode | internal/mesh/dns.go:22-22 | unpadded base32hex decodes to what was encoded |
| DnsNames.SplitString | internal/mesh/dns.go:365-378 | the shrinking loop cuts the string into pieces of the given size |
| DnsNames.SplitFacts | internal/mesh/dns.go:365-378 | the pieces concatenate to the string and respect the size |
| DnsNames.SendFrame | internal/mesh/dns.go:144-168 | one query name per chunk of the encoded frame |
| DnsNames.QueryIsRead | cmd/dns-relay/main.go:117-260 | a query reaches the data handler with exactly its chunk, index, total and key |
| DnsNames.DataLabelsAreData | cmd/dns-relay/main.go:128-232 | base32hex labels are never a sequence marker, reg or poll |
| DnsNames.LabelsFit | internal/mesh/dns.go:150-160 | every label is at most 63 octets (section 2.3.4 of RFC 1035) |
| DnsNames.NamesFitCondition | internal/mesh/dns.go:150-160 | every data query keeps to the 255 octets of a name (section 2.3.4 of RFC 1035) iff the relay domain has at most 58 characters |
| DnsNames.RelayKeyInjective | cmd/dns-relay/main.go:255-255 | the relay's key text identifies session and sequence number |
| DnsNames.ClientKeysCollide | internal/mesh/dns.go:237-237 | two pairs share the client's key text iff they are equal or differ by a sign moved into the session |
| DnsNames.LongFrameIgnored | cmd/dns-relay/main.go:250-252 | a frame of more than 100 queries is ignored |
| DnsNames.FindMarker | cmd/dns-relay/main.go:216-232 | the label scan finds the first sequence marker |
| DnsNames.ReadInRange | cmd/dns-relay/main.go:216-252 | whatever the labels, a chunk is read only behind data and a first marker, with index below a total of at most 100 |
| DnsNames.OnlyOwnDomain | cmd/dns-relay/main.go:109-118 | exactly the names ending in the relay's domain are looked at |
| DnsTunnel.Relay.HandleQuery | cmd/dns-relay/main.go:100-139 | dispatch of register, poll and data queries |
| DnsTunnel.Relay.HandleSend | cmd/dns-relay/main.go:214-342 | store the chunk, acknowledge or route |
| DnsTunnel.Relay.HandlePoll | cmd/dns-relay/main.go:170-210 | returns at most ten oldest records; returned and remaining are the old queue |
| DnsTunnel.Tunnel.ProcessIncoming | internal/mesh/dns.go:215-265 | collects a record and returns the frame it completes |
| DnsTunnel.RecordInRange | internal/mesh/dns.go:215-235 | a record is read iff it has five fields, an index below a total of at most 100 and base32 data |
| DnsTunnel.RejectedQueries | cmd/dns-relay/main.go:234-293 | labels that are no chunk, and texts that decode to less than two IDs, get no answer and change no queue |
| DnsTunnel.HexInjective | cmd/dns-relay/main.go:295-296 | different IDs have different texts, so a frame names one client |
| DnsTunnel.FrameThroughTunnel | cmd/dns-relay/main.go:214-348 | queries in any order, repeated and interleaved: acknowledged until the last gap closes, then one record for every registered client the frame is for (one, all but the sender, or none) that decodes to the identical frame |
| DnsTunnel.ClientReceives | internal/mesh/dns.go:215-265 | the client completes that record at once to the identical frame |
| DnsTunnel.RelayCompletes | cmd/dns-relay/main.go:254-286 | the relay completes a frame at the first moment all its queries are there |
| DnsTunnel.RecordFits | cmd/dns-relay/main.go:203-208 | exactly when a record fits one TXT character-string of 255 octets (section 3.3 of RFC 1035) |
| DnsTunnel.NoMessageFits | internal/mesh/dns.go:118-128 | no frame that carries a message does |
| DnsQueues.PolledIsTook | cmd/dns-relay/main.go:170-210 | whatever a poll does is a step of the runs below |
| DnsQueues.StepSession | cmd/dns-relay/main.go:142-158 | a registration makes its user a client of the named session and changes no queue and no other client; no other query changes clients or sessions |
| DnsQueues.SessionsAreRegistered | cmd/dns-relay/main.go:142-158 | in every run the clients are the initial ones and those who registered, each with the session its last registration named |
| DnsQueues.PollReachesRegistered | cmd/dns-relay/main.go:142-208 | after any run, a poll for the session u last registered with, if no other client has it, returns the oldest records of u's queue, at most ten, and takes them off |
| DnsQueues.ClientNamesAreRead | internal/mesh/dns.go:170-181 | the client's register and poll names reach those commands with its ID and session |
| DnsQueues.StepQueue | cmd/dns-relay/main.go:310-348 | a query appends one record to a queue (keeping the newest 200), takes the oldest ten, or leaves it alone |
| DnsQueues.QueueConserves | cmd/dns-relay/main.go:170-348 | per client and run: polls return the enqueued records that left by delivery, in order without repeats; the others that left were trimmed as the oldest of 200; the rest is queued |
| DnsQueues.LostOnlyBehind200 | cmd/dns-relay/main.go:344-348 | a record is delivered or still queued unless 200 more were enqueued behind it |
| Relay.Server.Register | cmd/relay/main.go:262-286 | closes and replaces the connection, picks an alias and takes the held frames |
| Relay.Server.PickAlias | cmd/relay/main.go:209-226 | the first unused name in shuffled order, else a numbered one |
| Relay.Server.IsOnline | cmd/relay/main.go:391-393 | the online check, a lock region of its own: whether the user has a connection |
| Relay.Server.HoldAppend | cmd/relay/main.go:401-409 | appends below the cap of 200 |
| Relay.Server.Unregister | cmd/relay/main.go:417-424 | removes the user only for the current connection |
| Relay.Server.CleanupHold | cmd/relay/main.go:591-618 | every queue keeps its unexpired entries in order, empty queues go |
| Relay.Server.SyncCooldown | cmd/relay/main.go:299-307 | due after more than five minutes |
| Relay.HoldConserves | cmd/relay/main.go:283-298 | per recipient, accepted frames are exactly held, handed over or expired; hand-overs across reconnects are in acceptance order without repeats; the cap holds |
| Relay.HeldWhileOnline | cmd/relay/main.go:391-414 | in every run a frame whose recipient was offline at the check is held for an online user iff, between check and append, they registered and that connection has not left, and the queue has room |
| Relay.SessionSafety | cmd/relay/main.go:261-286 | a user is online iff their newest connection has not unregistered; clients and aliases have the same users |
| Relay.RegistrationSafe | cmd/relay/main.go:209-226 | a registration keeps aliases distinct whatever it rolls iff a base name is free or no other user has a numbered name |
| Relay.AliasesDistinct | cmd/relay/main.go:209-226 | over whole runs aliases stay distinct without risk iff every registration met that condition |
| Relay.FewOnline | cmd/relay/main.go:209-221 | a base name is free whenever fewer users are online than there are names |
| Relay.FirstFreeIsFirst | cmd/relay/main.go:209-221 | the alias picked is the first unused name in shuffled order |
| Relay.DecimalDigits | cmd/relay/main.go:223-225 | the number of a fallback alias in decimal |
| Relay.FallbackCollides | cmd/relay/main.go:223-225 | once no base name is free two newcomers with the same roll share an alias |
| Relay.SyncsAreApart | cmd/relay/main.go:299-313 | NEWSYNC broadcasts of one user are more than five minutes apart |
| Relay.AnnouncesIff | cmd/relay/main.go:299-313 | a registration announces its user iff none did before or the last announcement is more than five minutes old |
| Relay.OnlyFileChunksBlocked | cmd/relay/main.go:341-389 | of serialised messages exactly the file chunks are blocked, all others passed on whole |
| Relay.ClassifyMessage | cmd/relay/main.go:341-389 | the read loop's decision on a client's frame |

## Left out

- Sockets, handshakes, deadlines and write errors: a connection is a byte string with one writer; a broken one is a cut stream or a `Close` step.
- Handler races: one handler call is one step, so two connections delivering one message at the same instant are not modelled.
- Hold cleanup in custody runs: expiry deletes messages by design, so custody is stated for runs without it.
- ID assignment in custody runs: an ID is assumed to name one message; the program does not recompute IDs on arrival.
- Hold persistence: loading and saving `_meta.json`, failing disk writes and a hold directory changed from outside.
- Base32 decoding of text no encoder produces: the library's exact behaviour is not modelled beyond dropping a group that is too short.
- `Sscanf` details: leading spaces and numbers beyond int64 in DNS labels.
- Saving a received file: the safe file name and a failing write.
- DNS relay clock: the 60-second and 5-minute clean-ups, so a transfer is followed without expiry.
- Encrypt.OldStreamAgreement: for the first 2^32 blocks, after which the wide counter wraps as well.
- Relay peer directory, statistics, federation, telemetry, and the order of writes to sockets after a lock region.
- The 60 alias names: the list is a parameter, assumed distinct only where it matters.
- `NewBloom` sizing in floating point: the number of bits is any positive multiple of 64 and the number of hashes 1 to 20.
- Compression, zip, JSON and the cryptographic primitives themselves; no secrecy is claimed.
- Contacts, groups, channels, inbox, the relay pool, mnemonics, discovery and the user interface: nothing there bears on the properties above.
- Any end-to-end hop bound: the hop TTL is not on the wire and receivers store with the default.
- The relay's total hold limit of 50000: declared and printed by the program, never enforced.
