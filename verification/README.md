# RedSwarm: a verified model of its hard core

RedSwarm audits BitTorrent trackers: it announces an emulated peer, answers
peer-wire connections, captures the fingerprint of real clients and steers
upload speed towards goals. This project models the parts of it that carry
state or undo one another, and proves what its documentation and its protocols
promise, for all inputs and all runs.

What is modelled, module by module:

- `Bytes`, `Utf8`, `Decimal`, `SortedMap`, `Wrappers`: byte strings, machine
  integers, Rust's text validation, number parsing and printing, and `BTreeMap` as
  ascending entries.
- `Bencode`, `BencodeGrammar`, `BencodeLaws`, `BencodeDecoder`: the bencode codec.
  A positional specification, the cursor-moving decoder and appending encoder
  proved equal to it, the grammar of exactly what it accepts, and the inverse
  laws. The decoder is more liberal than the encoder (signs, leading zeros,
  unsorted and repeated keys, trailing bytes), so the laws are if-and-only-ifs
  over canonical forms.
- `InfoHash`, `Torrent`: the second walk that hashes a raw slice, `.torrent`
  parsing and generation. The walk hashes the first `info` entry while the tree
  keeps the last; the exact condition under which they agree is proved.
- `ExtHandshake`, `PeerWire`: the BEP 10 handshake both ways, and the message
  loop against BEP 3 framing. The loop reads five header bytes where a keepalive
  has four, so framing is exact if and only if no keepalive is sent.
- `HashText`, `HashTextLaws`: hex and base32 info hashes. The base32 accumulator
  overflows 64 bits by design; what it writes is proved to be the number anyway.
- `Announce`, `AnnounceLaws`, `TemplateLaws`, `QueryLaws`, `TrackerResponse`,
  `Peer`: percent encoding, the chained replaces that build an announce query and
  exactly which templates they treat as one substitution, the parser that reads
  the query, and tracker responses.
- `AcceptLoop`: per-address counts and permits under every interleaving of
  accepts and connection ends, as a refinement of a server that counts afresh.
- `Capture`, `CaptureRuns`: capture sessions under every interleaving of
  announces, connections and removals. A fingerprint is proved to be a function
  of the first announce and of one connection.
- `Watcher`: the debounce loop over a bounded channel that drops events.
- `Goal`, `Tick`, `TickLaws`, `Deadline`: goal arithmetic, the per-second counters,
  and the deadline controller closed over whole runs.
- `Lifecycle`, `ProbeLaws`, `LifecycleLaws`, `LifecycleChains`: the engine's `run`
  as a program over an environment script, how it finds a client, and what the
  tracker sees over runs and chains of runs.
- `GoalRuns`, `DownloadDeadline`: when that run's main loop is left, and the
  deadlines of both directions proved of the loop itself.

Concurrent parts take one lock region as one step; connections and deliveries
may interleave at every step. SHA-1, clocks, random draws, sockets and tracker
answers are parameters. Integers have their Rust widths: casts truncate or
saturate and sums wrap where the release build does.

Where the code and its comments disagree the code is followed:

- `src/capture.rs` says only the first extension handshake is recorded. That is
  so exactly when it carries `v`, `m` or `reqq` (`CaptureRuns.FirstAloneIff`); to
  any other a later one adds (`CaptureRuns.LaterAddsTo`).
- `src/watcher.rs` says a burst triggers exactly one reload. The number of reloads
  is that of the events that found nothing queued and the loop idle or past its
  drains (`Watcher.ReloadsExactly`): one for events that all arrive before the
  read is due (`Watcher.OneReloadPerBurst`), two in `Watcher.LateEventReloadsAgain`.
- The once-only `completed` announce holds over runs that reach their tail. A
  process that dies between that announce and the next save announces it again;
  `LifecycleChains.LostIff` says exactly which scripts lose it and
  `LifecycleChains.CompletedExactly` counts the announces.
- `src/config.rs:403-405` accepts query templates with any braces, but the chained
  replaces are one substitution only where no value can complete a placeholder
  (`TemplateLaws.SimultaneousIff`).
- The deadline is not met in every pattern of choked seconds, even at full speed:
  `Deadline.MeetsDeadlineIff` and, under a cap, `Deadline.CapDecides` say when. A
  download target above the torrent's size is never met
  (`DownloadDeadline.DownloadMeetsDeadlineIff`).
- `src/announce.rs` promises to respect the tracker's minimum interval; it is
  truncated to 32 bits first, and is respected exactly when that loses nothing.
- `src/engine.rs` says uploads freeze without leechers; in a leeching tick whose
  download is not frozen they do not (`Tick.UploadFreezeHolds`).
- A refused connection leaves a zero entry in the per-address map, and an accept
  that finds no permit does not remove its entry. Neither affects admissions
  (`AcceptLoop.RefinesCounting`).

## Model

| member | source | states |
|---|---|---|
| `Decimal.IntRoundTrip` | src/bencode.rs:74-88 | printing an i64 and parsing it back is the identity, and the text is minimal in the sense of BEP 3 |
| `Decimal.MinimalIntUnique` | src/bencode.rs:175-179 | a minimal integer text is the only thing printing its value gives |
| `Decimal.UsizeRoundTrip` | src/bencode.rs:90-112 | printed lengths parse back and are minimal |
| `Decimal.MinimalUsizeUnique` | src/bencode.rs:180-184 | a minimal length text is the only thing printing its value gives |
| `Decimal.ParsesI64Iff` | src/bencode.rs:84-87 | a text reads as an i64 if and only if it is zeros and the number's digits after no sign, `+`, or `-` for its negative |
| `Decimal.ParsesUsizeIff` | src/bencode.rs:96-101 | likewise for a length, without `-` |
| `Utf8.ValidIff` | src/bencode.rs:96-98 | UTF-8 validation accepts exactly the encodings of sequences of Unicode scalar values, RFC 3629 section 3 |
| `SortedMap.BuildSorted` | src/bencode.rs:127-143 | a map built by inserting entries in any order has strictly ascending keys |
| `SortedMap.BuildOfSorted` | src/bencode.rs:190-200 | entries that already ascend are stored unchanged, so iteration gives them back in order |
| `SortedMap.BuildKeepsLast` | src/bencode.rs:127-143 | of entries with one key the map keeps the last value inserted |
| `SortedMap.LookupInsert` | src/bencode.rs:40-42 | `get` after `insert` sees the new value at that key and the old ones elsewhere |
| `SortedMap.LookupIff` | src/bencode.rs:40-42 | `get` finds a value exactly when the map holds that entry |
| `SortedMap.LessAt` | src/bencode.rs:190-200 | keys are ordered by their first difference, a proper prefix first |
| `BencodeDecoder.Decoder.DecodeValue` | src/bencode.rs:63-72 | the cursor-advancing dispatcher returns what the positional specification gives and stops where it stops |
| `BencodeDecoder.Decoder.DecodeInt` | src/bencode.rs:74-88 | the integer scan loop: value, error and final cursor are those of the specification |
| `BencodeDecoder.Decoder.DecodeBytes` | src/bencode.rs:90-112 | the length scan loop with its overflow and end-of-data checks agrees with the specification |
| `BencodeDecoder.Decoder.DecodeList` | src/bencode.rs:114-125 | the list loop agrees with the specification |
| `BencodeDecoder.Decoder.DecodeDict` | src/bencode.rs:127-143 | the dict loop, inserting into a map as it goes, agrees with the specification |
| `BencodeDecoder.DecodeData` | src/bencode.rs:147-151 | `decode` returns exactly the specified value or error for every input, trailing bytes ignored |
| `BencodeDecoder.Buffer.Append` | src/bencode.rs:173-203 | the output buffer grows by exactly the bytes given |
| `BencodeDecoder.EncodeTo` | src/bencode.rs:173-203 | encoding a value appends exactly its canonical form to the buffer, in place |
| `BencodeDecoder.EncodeValue` | src/bencode.rs:167-171 | `encode` returns the canonical form |
| `Bencode.RoundTrip` | src/bencode.rs:63-203 | where an encoding stands in any data, at any position, decoding there gives exactly that value and stops exactly at its end |
| `BencodeGrammar.Accepts` | src/bencode.rs:63-143 | wherever a spelling stands in any data decoding there gives the value it means and stops at its end: numbers with signs and leading zeros, keys in any order, the last of one key counting |
| `BencodeGrammar.Spelled` | src/bencode.rs:63-143 | whatever decodes was a spelling of its value, of exactly the bytes consumed |
| `BencodeGrammar.DecodesIff` | src/bencode.rs:147-151 | `decode` gives a value if and only if the data starts with one of its spellings, whatever follows |
| `BencodeLaws.ParseValid` | src/bencode.rs:63-143 | every decoded value satisfies what Rust's types guarantee: ascending dict keys, possible lengths |
| `BencodeLaws.CanonicalEncodes` | src/bencode.rs:74-203 | a canonical region re-encodes to the very bytes consumed |
| `BencodeLaws.ReencodesIffCanonical` | src/bencode.rs:74-203 | `encode` of what was decoded is the bytes consumed if and only if the region is canonical by BEP 3 |
| `BencodeLaws.DecodeEncode` | src/bencode.rs:63-203 | `decode(encode(v)) == v` for every value |
| `BencodeLaws.NotLonger` | src/bencode.rs:63-203 | encoding a decoded value never takes more bytes than were consumed, signs, leading zeros and repeated keys included |
| `BencodeLaws.DecodeEncodeDecode` | src/bencode.rs:63-203 | for every accepted input, canonical or not, decoding again after re-encoding gives the same value |
| `BencodeLaws.PrefixFree` | src/bencode.rs:173-203 | no encoding is a prefix of another value's encoding, and encodings are unique |
| `BencodeLaws.Local` | src/bencode.rs:63-143 | a decoded region decodes to the same value wherever it is moved |
| `BencodeLaws.DecodesAlone` | src/bencode.rs:63-143 | the bytes a decode consumed, cut out, decode alone and in full to the same value |
| `InfoHash.ComputeInfoHash` | src/bencode.rs:263-290 | the walk hashes exactly the slice the specification names, or fails with its error |
| `InfoHash.WalkFindsFirst` | src/bencode.rs:271-289 | the slice is the value of the first `info` entry in reading order |
| `InfoHash.WalkAgainstTree` | src/bencode.rs:263-290 | on decodable dicts the walk succeeds exactly when the tree has an `info` entry, and its slice decodes alone to the first one |
| `InfoHash.HashesTheInfoValueIff` | src/bencode.rs:263-290 | the hashed slice holds the tree's `info` value exactly when the first and last `info` entries hold the same value |
| `InfoHash.HashesTheInfoValue` | src/bencode.rs:263-290 | with no repeated top-level key the hashed slice decodes to the tree's `info`, and equals its encoding if canonical |
| `InfoHash.HashOfEncoded` | src/bencode.rs:263-290 | of a file the encoder wrote, the walk hashes the encoding of `info` |
| `InfoHash.RepeatedInfoDisagrees` | src/bencode.rs:127-143 | for any two values there is a torrent whose walk hashes one while the tree keeps the other |
| `InfoHash.WalkFailures` | src/bencode.rs:263-290 | the walk wants a dict; every dict without `info` has nothing to hash, and the same file short of its last byte is unterminated |
| `ExtHandshake.BuildMDict` | src/peer_server.rs:725-729 | the `m` loop builds the map of all registered extensions |
| `ExtHandshake.BuildExtHandshake` | src/peer_server.rs:722-758 | the payload is the handshake sub-id and the encoding of the dict with exactly the registered fields |
| `ExtHandshake.LookupSent` | src/peer_server.rs:731-752 | each key of the dict holds what was sent under it, whatever the insertion order |
| `ExtHandshake.MDictShows` | src/peer_server.rs:560-569 | the extension map survives sending and filtering on receipt |
| `ExtHandshake.HandshakeRoundTrip` | src/peer_server.rs:552-602 | for every registration and peer address the receiver reads back the same seven fields, omitted ones as `None` |
| `ExtHandshake.HandshakeIsRead` | src/peer_server.rs:544-558 | a handshake holding any dict at all is read as that dict |
| `ExtHandshake.StringsRead` | src/peer_server.rs:552-602 | of any received dict the client version, own address and both addresses are read under their own names, addresses only at their proper lengths |
| `ExtHandshake.NumbersRead` | src/peer_server.rs:552-602 | port, metadata size, completion age and queue depth likewise, each in its range |
| `ExtHandshake.FlagsRead` | src/peer_server.rs:552-602 | a flag is set by any integer but zero and read from nothing else |
| `ExtHandshake.ExtensionsRead` | src/peer_server.rs:560-569 | the extension map holds exactly the text keys with an integer, in 32 bits |
| `Torrent.AddLengths` | src/torrent.rs:42-47 | the multi-file loop sums the lengths in u64 arithmetic |
| `Torrent.OneFile` | src/torrent.rs:42-47 | the total of one file is its own length |
| `Torrent.SumOfParts` | src/torrent.rs:42-47 | totals add up over any split of the file list, modulo 2^64 |
| `Torrent.SumIgnoresOrder` | src/torrent.rs:42-47 | files in another order have the same total |
| `Torrent.FilesTotal` | src/torrent.rs:42-47 | a total that fits u64 is the plain sum of the lengths |
| `Torrent.MultiFileParses` | src/torrent.rs:20-63 | parsing any encoded multi-file torrent gives its URL, name, info hash and the sum of its files' lengths when that fits u64 |
| `Torrent.RootDecides` | src/torrent.rs:21-30 | a decodable file fails for want of a text `announce` first, then for want of `info`, found by the hash walk; a later missing `info` never happens |
| `Torrent.InfoDecides` | src/torrent.rs:30-55 | then parsing needs a text name and a size, an integer `length` counting before any files |
| `Torrent.ParseTorrent` | src/torrent.rs:20-63 | `parse` returns the specified metadata, or the first error in the source's order |
| `Torrent.Generate` | src/torrent.rs:78-118 | the written file is the canonical torrent dict and the hash is that of its `info` encoding; computing the hash cannot fail |
| `Torrent.GeneratedSlice` | src/torrent.rs:107-118 | the walk over a generated file cuts out exactly the encoding of its `info` dict |
| `Torrent.GenerateThenParse` | src/torrent.rs:20-118 | parsing a generated file returns that URL, that name, the fixed size and the same hash, which does not depend on the URL |
| `Torrent.NameDecidesHashedBytes` | src/torrent.rs:81-101 | different names hash different bytes |
| `HashText.HexDecode` | src/bencode.rs:212-224 | decodes exactly the even-length hex texts, in either case |
| `HashText.HexDecode20` | src/bencode.rs:231-247 | decodes exactly 40 hex characters, filling a 20-byte array |
| `HashText.ShiftIn` | src/magnet.rs:97 | shifting five bits into the 64-bit accumulator equals the unbounded shift modulo 2^64 |
| `HashText.LowByte` | src/magnet.rs:101 | the bits lost above 64 never reach the byte written |
| `HashText.WriteBytes` | src/magnet.rs:99-103 | the inner loop writes the pending high bits and never past 20 bytes |
| `HashText.PushDigit` | src/magnet.rs:92-104 | one character adds five bits; what is written stays the number's high bits |
| `HashText.DecodeBase32` | src/magnet.rs:83-106 | 32 valid characters give the 20 bytes of the 160-bit number they write, all others an error; 20 bytes are written and no bits are left over |
| `HashTextLaws.DecodeInfoHash` | src/magnet.rs:74-80 | the length decides between hex and base32 |
| `HashTextLaws.HexSpellings` | src/bencode.rs:206-256 | a text decodes to given bytes as hex exactly when it spells their hex text in any letter case |
| `HashTextLaws.HexTextShape` | src/bencode.rs:249-256 | hex text is two lower-case digits a byte, the high half first |
| `HashTextLaws.Base32Spellings` | src/magnet.rs:83-106 | a text decodes to given bytes as base32 exactly when it spells their RFC 4648 section 6 text in any letter case |
| `HashTextLaws.DecodesExactlyItsSpellings` | src/magnet.rs:74-106 | a text decodes to an info hash if and only if it spells its hex or its base32 text |
| `HashTextLaws.StandardTextsDecode` | src/magnet.rs:74-106 | both standard texts of every 20-byte value decode to it |
| `Announce.PercentEncodeRaw` | src/data/protocol.rs:252-263 | the loop leaves the RFC 3986 unreserved bytes bare and writes `%XX` for all others |
| `Announce.EncodedByte` | src/data/protocol.rs:252-263 | encoding goes byte by byte: the unreserved characters of RFC 3986 stay, every other byte is `%` and two upper-case digits, high half first |
| `Announce.DecodeEncode` | src/data/protocol.rs:252-269 | percent decoding undoes percent encoding for every byte string |
| `Announce.EncodeAvoids` | src/data/protocol.rs:252-263 | an encoded value contains no brace, ampersand or equals sign |
| `Announce.EventsShown` | src/announce.rs:21-28 | `started`, `completed` and `stopped` show in the query under their names, a regular announce does not |
| `Announce.ReadAnnounce` | src/api.rs:1501-1519 | the handler's loop over parameters keeps the last well-formed `peer_id` and the last `numwant` |
| `QueryLaws.ParseJoined` | src/capture.rs:671-690 | the two sides of an `&` parse on their own |
| `QueryLaws.PiecesParse` | src/capture.rs:671-690 | a piece is a name and what follows its first `=`; one without a name is dropped |
| `QueryLaws.LastCounts` | src/api.rs:1501-1519 | the last `peer_id` of twenty bytes and the last `numwant` count, the latter only as a number of 32 bits |
| `AnnounceLaws.ReplaceExtends` | src/announce.rs:156-168 | where no value can complete a placeholder, one more `replace` is one more placeholder substituted in the same left-to-right pass |
| `AnnounceLaws.ChainIsSimultaneous` | src/announce.rs:156-168 | for templates in which no value can complete a placeholder, and brace-free values, the nine replaces equal one simultaneous substitution, also with an empty event |
| `AnnounceLaws.WellBracedIsSafe` | src/announce.rs:156-168 | templates of brace-free text and the nine placeholders are such templates |
| `AnnounceLaws.StrayBraceDiffers` | src/announce.rs:156-168 | a concrete template with a stray brace in which an empty event splices a new placeholder together and the two differ |
| `TemplateLaws.SpliceShows` | src/announce.rs:156-168 | for every template in which a value can complete a later placeholder there are brace-free values for which the chain and one pass differ |
| `TemplateLaws.SimultaneousIff` | src/announce.rs:156-168 | the chain is one simultaneous substitution for all brace-free values if and only if nowhere a stray brace and part of a placeholder's name stand directly before a placeholder replaced earlier |
| `QueryLaws.QueryReadsBack` | src/announce.rs:151-168 | for every template of pairs the built query parses to the names in template order with their values, `event` where it was inserted |
| `QueryLaws.BinaryFieldsDecode` | src/capture.rs:693-695 | the `info_hash` and `peer_id` values decode to the original bytes |
| `QueryLaws.NumbersReadBack` | src/announce.rs:156-168 | each counter, the port and the wanted peers read back as the number under its own placeholder; a stopping peer wants none |
| `QueryLaws.HandlerRecoversIdentity` | src/api.rs:1499-1519 | the capture handler recovers the peer id and `numwant` from a query this program builds, zero when stopping |
| `QueryLaws.UrlQueryReadsBack` | src/announce.rs:170-175 | the whole URL's query is the announce URL's own parameters followed by the built ones |
| `TrackerResponse.ParsePeers` | src/announce.rs:258-275 | counts compact IPv4 and IPv6 records and complete peer dicts |
| `TrackerResponse.PeersAddUp` | src/announce.rs:258-275 | lists of peer dicts count one by one, in any split |
| `TrackerResponse.OnePeer` | src/announce.rs:258-275 | a dict counts as a peer exactly with a text address and an integer port |
| `TrackerResponse.PeersRead` | src/announce.rs:258-275 | compact peers count by whole records of six and eighteen bytes, added to the dicts of a list |
| `TrackerResponse.SwarmRead` | src/announce.rs:236-240 | of any response `complete` is read as seeders and `incomplete` as leechers, zero if absent |
| `TrackerResponse.IntervalsRead` | src/announce.rs:228-235 | the interval is the one sent, or the default one, held to its bounds; a minimum counts only if positive |
| `TrackerResponse.FailureRead` | src/announce.rs:218-227 | a failure reason is read if it is text |
| `TrackerResponse.EffectiveInterval` | src/announce.rs:61-66 | announces keep the configured minimum; they keep the tracker's minimum exactly when it fits 32 bits |
| `TrackerResponse.HugeMinimumTruncated` | src/announce.rs:231-235 | a response asking for 2^32 + 1 seconds is read as a minimum of one second |
| `TrackerResponse.Compact` | src/capture.rs:662-665 | six bytes: the address, then the port high byte first |
| `TrackerResponse.BuildTrackerResponse` | src/capture.rs:656-669 | the response is the encoding of the four-field dict with one compact peer |
| `TrackerResponse.OfferReadsBack` | src/announce.rs:218-254 | what the capture tracker sends is read as one seeder, one leecher, one peer, no failure and the clamped interval; the peer is our address and port |
| `PeerWire.Drain` | src/peer_server.rs:648-660 | the chunked drain consumes exactly the count asked for, or finds the stream too short |
| `PeerWire.ReadMessages` | src/peer_server.rs:490-662 | the loop sees the messages, kept bodies and exit reason of the framing specification |
| `PeerWire.WriteMsg` | src/peer_server.rs:698-711 | the buffer is the four-byte length, the id and the payload |
| `PeerWire.NetworkOrder` | src/peer_server.rs:503 | lengths compare exactly as their four bytes do lexicographically |
| `PeerWire.FirstMessageSeen` | src/peer_server.rs:499-660 | a stream starting `0 0 hi lo id` with a complete accepted message is first seen as that message with length `hi * 256 + lo`, its body kept exactly for an extended message of a capture session |
| `PeerWire.RefusedHeaders` | src/peer_server.rs:499-535 | on the four length bytes alone: above 65536 or a piece ends the loop unseen, zero is a keepalive that takes five bytes |
| `PeerWire.SeesMessages` | src/peer_server.rs:499-660 | on keepalive-free streams the loop sees exactly the messages sent, up to the first oversized or piece message |
| `PeerWire.FramedExactlyWithoutKeepalives` | src/peer_server.rs:499-528 | of acceptable frames the loop sees every one and a clean end if and only if none is a keepalive |
| `PeerWire.HandshakeArrives` | src/peer_server.rs:537-602 | an extended handshake sent after any other messages arrives whole and reads back field for field |
| `AcceptLoop.Book.CountIn` | src/peer_server.rs:281-289 | admits below the limit and counts; a refusal still leaves an entry |
| `AcceptLoop.Book.TryAcquire` | src/peer_server.rs:293-295 | takes a permit if one is left |
| `AcceptLoop.Book.GiveBack` | src/peer_server.rs:295-300 | decrements without removing the entry |
| `AcceptLoop.Book.DropGuard` | src/peer_server.rs:253-263 | decrements and removes an entry that reaches zero |
| `AcceptLoop.Book.ReleasePermit` | src/peer_server.rs:305-309 | a permit comes back when a connection ends |
| `AcceptLoop.StepKeepsInv` | src/peer_server.rs:247-314 | every atomic step keeps counts exact and permits accounted for |
| `AcceptLoop.CountsAreExact` | src/peer_server.rs:247-314 | in every interleaving each address's count is its live connections plus the accept in flight and never exceeds the limit; held permits never exceed theirs |
| `AcceptLoop.NeverSaturates` | src/peer_server.rs:257-297 | wherever a run decrements, the entry exists and is positive |
| `AcceptLoop.QuietIsEmpty` | src/peer_server.rs:247-314 | when all connections have ended every count is zero and every permit is back |
| `AcceptLoop.RefinesCounting` | src/peer_server.rs:281-300 | every admission and refusal is that of a server which counts its live connections afresh |
| `AcceptLoop.EntriesAreInUse` | src/peer_server.rs:253-289 | while no accept finds the permits gone, the map holds exactly the addresses with a connection or an accept in flight |
| `AcceptLoop.GivingUpLeavesEntry` | src/peer_server.rs:295-300 | an accept that finds no permit leaves its entry behind, even at zero |
| `Watcher.Loop.Notify` | src/watcher.rs:48-57 | the callback queues an event or drops it when the channel is full |
| `Watcher.Loop.Advance` | src/watcher.rs:75-91 | one step of the loop: receive, drain, sleep, drain again, read, finish |
| `Watcher.NoWriteIsLost` | src/watcher.rs:48-91 | whenever the loop waits on an empty channel the file was read after every write an event was delivered for, whatever was dropped |
| `Watcher.SettlesAlone` | src/watcher.rs:75-91 | once events stop the loop is quiet after a known number of its own steps, at most 71, and has read everything it was told of |
| `Watcher.OneReloadPerBurst` | src/watcher.rs:79-88 | events that all arrive before the read is due cause exactly one read |
| `Watcher.ReloadsExactly` | src/watcher.rs:75-91 | between two quiet states the file is read once for every event that found nothing queued and the loop idle or past its drains; exactly once if and only if there was exactly one such event |
| `Watcher.LateEventReloadsAgain` | src/watcher.rs:86-88 | two events, the second after the drains, cause two reads |
| `Capture.CaptureStore.Start` | src/capture.rs:453-471 | writes the capture torrent and opens an empty session under the token for the hash its name decides |
| `Capture.CaptureStore.FindByInfoHash` | src/capture.rs:485-491 | some session with the hash, or none when there is none |
| `Capture.CaptureStore.RecordAnnounce` | src/capture.rs:507-527 | fills the announce fields if no announce was recorded, else changes nothing |
| `Capture.CaptureStore.RecordHandshake` | src/capture.rs:533-549 | fills the handshake fields if none was recorded, else changes nothing |
| `Capture.CaptureStore.RecordExtHandshake` | src/capture.rs:556-582 | overlays the fields carried unless the client version, extension map or queue depth is already known |
| `Capture.CaptureStore.RecordPeerMessage` | src/capture.rs:587-595 | appends a message name while fewer than ten are kept |
| `Capture.CaptureStore.RecordKeepaliveSecs` | src/capture.rs:600-610 | sets the cadence |
| `Capture.CaptureStore.MarkConnectionEnded` | src/capture.rs:616-630 | sets the cadence to zero if it was never measured |
| `Capture.CaptureStore.Remove` | src/capture.rs:645-647 | drops the session |
| `CaptureRuns.WinnerStep` | src/capture.rs:533-630 | a recorded connection's step changes its session as it changes what the connection has sent |
| `CaptureRuns.StepKeepsInv` | src/capture.rs:507-630 | every lock region keeps every session explained by its first announce and one connection |
| `CaptureRuns.NoMixing` | src/peer_server.rs:356-421 | in every interleaving a session's fingerprint is its first announce and the whole of what a single connection sent; at most one connection is ever recorded |
| `CaptureRuns.AnnounceFieldsAre` | src/capture.rs:515-520 | in every run each of the six announce fields holds the first announce's field of that name, and none before an announce |
| `CaptureRuns.WireFieldsAre` | src/capture.rs:533-630 | the wire fields hold what the recorded connection sent, field by field |
| `CaptureRuns.ExtFieldsAre` | src/capture.rs:556-582 | the twelve extension fields hold, field by field, what the extension handshakes carried |
| `CaptureRuns.ReportsOnce` | src/peer_server.rs:505-526 | the unconditional write of the cadence finds it unset |
| `CaptureRuns.FingerprintsOnlyGrow` | src/capture.rs:507-630 | over every stretch of every run announce and handshake fields stay as set, no field goes back to `None`, messages only extend, the cadence is set at most once |
| `CaptureRuns.StaysOpen` | src/capture.rs:561-563 | the extension fields are locked exactly when some handshake carried a locking field |
| `CaptureRuns.FirstLockingDecides` | src/capture.rs:561-575 | the first handshake with `v`, `m` or `reqq` decides those three and ends all change |
| `CaptureRuns.FirstAloneIff` | src/capture.rs:551-563 | the first extension handshake alone is recorded, whatever follows, if and only if it carries `v`, `m` or `reqq` |
| `CaptureRuns.LaterAddsTo` | src/capture.rs:561-575 | a first handshake without them is added to by a second |
| `CaptureRuns.ExtRecordedIff` | src/capture.rs:556-582 | in every run a connection's next extension handshake is recorded exactly when none of its earlier ones carried a locking field |
| `CaptureRuns.StatusGoesBackIff` | src/capture.rs:521-522 | the status goes back exactly when the first announce arrives after a recorded handshake |
| `CaptureRuns.StatusFollows` | src/capture.rs:507-582 | the status names the last thing recorded and nothing else moves it |
| `CaptureRuns.WaitingIff` | src/capture.rs:453-471 | a session waits exactly until an announce or a handshake has come in |
| `Goal.RequiredBps` | src/engine.rs:451-464 | the rate asked for never exceeds what is missing |
| `Goal.AskedIff` | src/engine.rs:451-464 | a rate is asked for exactly before a deadline and short of the target, and it is the least that covers what is missing |
| `Goal.CeilIff` | src/engine.rs:463 | ceiling division is the least quotient that covers |
| `Goal.RateMeetsDeadlineIff` | src/engine.rs:451-464 | a speed is at least the required rate exactly when the ETA at that speed is within the time left |
| `Goal.EtaIsLeast` | src/api.rs:1203-1209 | the ETA is the least number of seconds after which the target is met |
| `Goal.NoEtaIff` | src/api.rs:1203-1209 | there is no ETA exactly when there is no target or it is never met at that speed |
| `Goal.BindingEtaIsLeast` | src/api.rs:1215-1229 | the binding ETA is the least time that meets every target with a known ETA, or the deadline if sooner; unknown exactly when all three are |
| `Tick.Counters.OverriddenRates` | src/engine.rs:1171-1237 | the base speeds after the goal's feedback, reached-action and caps |
| `Tick.Counters.Tick` | src/engine.rs:1166-1299 | the counters after a tick, and the speeds it reports, in every phase, freeze and choke branch |
| `Tick.SpeedsAreBytes` | src/engine.rs:1250-1292 | with one-second ticks the reported speeds are the bytes the tick adds |
| `Tick.TickConserves` | src/engine.rs:1252-1293 | for any speeds and draws downloaded plus left stays the torrent size, left never rises, downloaded never falls, neither moves while seeding, and uploaded falls exactly when it would pass u64 |
| `Tick.UploadFreezeHolds` | src/engine.rs:1253-1282 | with no leechers the upload freeze holds while seeding and while the download is frozen too; in every other leeching tick it changes nothing |
| `Tick.LeechUploadsToNobody` | src/engine.rs:1273-1275 | a leeching tick that uploads with no leechers although told to freeze |
| `Tick.InitialDownload` | src/engine.rs:519-523 | downloaded and left add up to the torrent for every size and percentage, even when the product wraps |
| `Tick.InitialShareIff` | src/engine.rs:519-523 | the share is the configured percentage exactly when the product fits u64 |
| `TickLaws.CastIs` | src/engine.rs:1260-1292 | a cast gives the largest u64 not above the number |
| `TickLaws.SeedingBytes` | src/engine.rs:1239-1292 | a free seeding tick uploads as many whole bytes as rate, ramp passed, jitter in percent and tick length are worth; a choked or frozen one none |
| `TickLaws.LeechingBytes` | src/engine.rs:1253-1277 | a leeching tick uploads the leech factor's share of that, and nothing only when both freezes hold |
| `TickLaws.DownloadingBytes` | src/engine.rs:1253-1271 | a leeching tick downloads its rate's worth without a ramp, nothing without seeders if so told |
| `TickLaws.NothingToDrive` | src/engine.rs:1171-1237 | the configured rate holds unless a target is still to be met before a deadline still to come |
| `TickLaws.CruisesOn` | src/engine.rs:1198-1213 | past its goal, or without one, a seeding audit adds the same in every free second: the configured rate or the capped one for afterwards; at zero the counter stands still |
| `Deadline.TickIsStep` | src/engine.rs:1215-1226 | a reverse-mode seeding tick short of its upload target, in either direction and for every reached action, is one step of the ceiling-division controller |
| `Deadline.TicksFollow` | src/engine.rs:1278-1293 | a whole run of seeding ticks is the controller's run while bytes are missing, and has met the target once none are |
| `Deadline.LastTickDecides` | src/engine.rs:451-464 | without a cap nothing is left missing if and only if the last tick is free or as many ticks are free as bytes are due |
| `Deadline.MeetsDeadlineIff` | src/engine.rs:1215-1226 | for any pattern of choked ticks and every goal the target is met by the deadline if and only if the last tick before it is free or as many ticks are free as bytes are due; it is met exactly, and never passed, when reaching it ends the run |
| `Deadline.EvenWithoutChokes` | src/engine.rs:451-464 | with no choked tick the controller sends the even split |
| `Deadline.UploadsEvenly` | src/engine.rs:1215-1226 | after any number of unchoked ticks the engine is on the even split of the bytes over the seconds |
| `Deadline.EngineRateNeverRises` | src/engine.rs:451-464 | with no choked tick the required rate never rises |
| `Deadline.CapBinds` | src/engine.rs:1219-1223 | once a cap cannot carry what is left it binds in every free tick to come |
| `Deadline.CapMeetsIff` | src/engine.rs:1219-1223 | under a cap nothing is left missing if and only if the cap could carry, after each second, what the uncapped controller would still miss |
| `Deadline.CapDecides` | src/engine.rs:1219-1223 | under a cap and any pattern of choked ticks: exactly how far a run gets that the cap could never carry, and exactly when the others meet the target |
| `DownloadDeadline.DownloadTickIsStep` | src/engine.rs:1227-1236 | a leeching tick short of its download target is one step of the controller, or has all of the torrent |
| `DownloadDeadline.DownloadsFollow` | src/engine.rs:1227-1271 | after every turn of the main loop downloads are the controller's, exactly so through the turn nothing is missing any more, or all of the torrent if that is less |
| `DownloadDeadline.LoopDownloads` | src/engine.rs:935-1085 | the engine's loop comes out with what the controller leaves, and when the download target ends the audit it is left exactly then, on the target |
| `DownloadDeadline.DownloadMeetsDeadlineIff` | src/engine.rs:1227-1236 | for any pattern of frozen turns the download target is met by the deadline if and only if the torrent has as much and the last turn is free or as many turns are free as bytes are due; a smaller torrent runs out first |
| `DownloadDeadline.DownloadCapDecides` | src/engine.rs:1232-1236 | the same under a cap: exactly how far a run gets that the cap could never carry, and exactly when the others meet the target |
| `Lifecycle.ShuffleProbeOrder` | src/engine.rs:640-646 | the in-place shuffle gives the order the swaps describe |
| `Lifecycle.ShuffleIsPermutation` | src/engine.rs:640-646 | whatever is drawn every client stays in the order once |
| `Lifecycle.ProbeClients` | src/engine.rs:640-744 | shuffles the clients and tries them in that order: the announces sent and how it comes out |
| `ProbeLaws.ProbingStopsAt` | src/engine.rs:650-744 | probing goes on exactly while clients refuse or cannot be reached; what it stops at decides how it comes out, and every client tried was sent one announce |
| `ProbeLaws.AcceptedIff` | src/engine.rs:650-744 | a client is accepted if and only if one answers without a failure and all before it are passed over; none if and only if all are |
| `ProbeLaws.AnyOrderMayBeTried` | src/engine.rs:640-646 | the shuffle leaves out no order: each is the outcome of some draws |
| `Lifecycle.Audit.SavePeerState` | src/db.rs:371-399 | the row written |
| `Lifecycle.Audit.Send` | src/engine.rs:853-913 | an announce is sent with the current counters; any response is followed by a save, a transport error is not |
| `Lifecycle.Audit.OneSecond` | src/engine.rs:940-1068 | tick, stat save, and the announce that turns leech into seed once |
| `Lifecycle.Audit.MainLoop` | src/engine.rs:935-1085 | the loop leaves for the tail on cancel or a reached goal |
| `GoalRuns.LeavesLoopIff` | src/engine.rs:935-1085 | the loop is left for the tail if and only if, after seconds lived through that do not meet the goal, a turn cancels or is lived through and meets it: action stop, some target set, every tracked counter there; it is left at that first turn with the state up to it |
| `GoalRuns.FinishesIff` | src/engine.rs:853-1145 | a run is finished exactly when `started` and `stopped` were lived through and there is a turn to leave the loop at |
| `GoalRuns.SeedingLoop` | src/engine.rs:935-1085 | the engine's loop, seeding, does what the deadline controller's ticks do |
| `GoalRuns.SeedsToDeadlineIff` | src/engine.rs:1071-1076 | up to the deadline an audit that stops at its upload target leaves the loop if and only if the last second is free or as many are as bytes are due, on exactly the target |
| `Lifecycle.Run` | src/engine.rs:589-1145 | the whole run: what it announces, what the database then holds, how it ended |
| `LifecycleLaws.LoadsWhatWasSaved` | src/api.rs:664-671 | a saved state comes back whole, peer id and key included, through the i64 columns and the hex text |
| `LifecycleLaws.RowHolds` | src/db.rs:371-399 | each counter is saved in its own column, as it is while it fits 63 bits |
| `LifecycleLaws.IdentityTakenUpIff` | src/engine.rs:763-785 | a saved peer id is taken up again exactly when its text spells twenty bytes in hex, and only with a saved key |
| `ProbeLaws.ResumesLeeching` | src/api.rs:664-671 | counters saved without a phase resume leeching; with nothing left the first due announce says `completed` |
| `LifecycleLaws.LooksFreshIff` | src/engine.rs:797 | a state that keeps the books is taken for a fresh one exactly when nothing was uploaded of an empty torrent |
| `LifecycleLaws.FreshStart` | src/engine.rs:817-838 | a fresh audit has uploaded nothing and seeds exactly when nothing is left, as its mode and percentage say |
| `LifecycleLaws.LoopKeepsInv` | src/engine.rs:935-1085 | in every reachable state downloaded plus left is the torrent size, seeding is equivalent to `completed` being behind and implies nothing is left, and what is saved lags behind memory |
| `LifecycleLaws.StartedFirstStoppedLast` | src/engine.rs:853-1139 | every run past the probe announces `started` first; one that reaches its tail announces `stopped` exactly once, last; probes only say `started` |
| `LifecycleLaws.ProbesUpToAccepted` | src/engine.rs:650-744 | the clients are tried in shuffled order, each at most once, up to the first that is accepted |
| `LifecycleLaws.RunKeepsBooks` | src/engine.rs:796-1139 | every announce of every run shows downloaded plus left as the torrent size, left only falls, `completed` is said only with nothing left, the saved row is sound again |
| `LifecycleLaws.RunCompletesOnce` | src/engine.rs:977-988 | a run says `completed` at most once and not if it began complete; a finished run always remembers it |
| `LifecycleChains.NeverSavesIff` | src/engine.rs:940-1145 | a row that does not tell of `completed` is still silent at the end exactly when no later second and no tail saves |
| `LifecycleChains.LostIff` | src/engine.rs:977-1028 | a run announces `completed` and forgets it if and only if it began without it and its script leaves the completing announce unanswered with no save to follow |
| `LifecycleChains.CompletedExactly` | src/engine.rs:977-1028 | over any chain of runs, crashes included, `completed` is announced once for every run whose script loses it, plus once if the row has come to tell of it |
| `LifecycleChains.CompletedOnceIff` | src/engine.rs:977-1028 | over any chain `completed` is announced at most once if and only if no run loses it, or one does and the row never comes to tell of it |
| `LifecycleChains.CompletedAtMostOnce` | src/engine.rs:977-1139 | over chains of runs that reach the tail `completed` is announced at most once, never by an audit that began complete |
| `LifecycleChains.CrashRepeatsCompleted` | src/engine.rs:977-1028 | two runs that each die right after announcing `completed` announce it twice |
| `LifecycleChains.LeftFallsAcrossRuns` | src/engine.rs:796-1139 | across finished runs no later announce shows more left, or less downloaded, than an earlier one |
| `LifecycleChains.OneIdentity` | src/engine.rs:763-785 | once anything is saved every later run announces under the same peer id and key, crashes included |
| `LifecycleChains.UploadsRise` | src/engine.rs:935-1085 | while the counter fits u64 neither announced nor saved uploads fall through a main loop |
| `LifecycleChains.RunUploadsRise` | src/engine.rs:853-1145 | through a whole run, `started`, `stopped` and the saved row included, uploads never fall |
| `LifecycleChains.SavedUploadsRise` | src/api.rs:664-671 | over any chain of runs, crashes included, the saved upload counter never falls |
| `LifecycleChains.UploadsRiseAcrossRuns` | src/engine.rs:796-1139 | across finished runs the tracker never sees uploaded fall, within a run or from one to a later one |
| `LifecycleChains.UploadFallsIff` | src/engine.rs:1253-1293 | the counter falls in a second exactly when it does not fit |

## Left out

- Recursion depth: the decoder recurses once for each nesting level and could exhaust the stack; the model has no stack.
- Error texts: errors are kinds without their messages; a number that is not UTF-8 and one that does not parse are one kind.
- SHA-1 is a parameter; nothing is said about collisions.
- `Torrent.Generate`, `Capture.CaptureStore.Start` and `TrackerResponse.OfferReadsBack` assume the encoding fits a Rust vector, as it must to exist.
- Debug builds: overflow panics there; the model wraps as the release build does.
- URL fragments: `QueryLaws.UrlQueryReadsBack` splits at the first `?` and does not model a `#` in an announce URL.
- `percent_encoding::percent_decode_str` and Rust's `str::replace`, `split` and integer parsing are modelled after their documentation.
- Magnet link parsing (`src/magnet.rs:16-71`) apart from the info hash: a loop over optional fields.
- HTTP announces, sockets, timeouts, TLS, NAT-PMP, process takeover, SQL and event delivery; a failed announce is an input.
- `PeerWire.ReadMessages`: reads a fully buffered stream; a half-read header dropped by `select!` when another branch fires is not modelled.
- A connection task dropped by the runtime before its first poll would keep its count; `AcceptLoop` assumes spawned tasks run.
- `Capture.CaptureStore.Start`: is given the token and the announce URL holding it; minting the random token is not modelled.
- Capture tokens are assumed fresh: 128 random bits are never drawn twice. `CaptureRuns` lets any session with the hash be the one found.
- Conversion of a fingerprint for display, client names decoded from peer ids, and the broadcast of capture progress.
- Events dropped by the operating system before the watcher's callback, and writes made before the watch is installed.
- What a reload does with the configuration it read; only that and when the file is read.
- `Tick.Counters.Tick`: does not model the rounding of f64 products, speeds are real numbers there; reverse-mode rates stay below 2^53, where f64 is exact, because validated targets do.
- `Deadline.MeetsDeadlineIff`: one tick a second, full ramp and no jitter; with jitter or while ramping up the controller only approximates. A missed tick is a choked one. Past the target of a goal that lets the audit go on, the counter is only followed while it fits u64.
- `DownloadDeadline.DownloadMeetsDeadlineIff`: likewise one tick a second and no jitter; turns the process does not live through are a crash, `GoalRuns.LeavesLoopIff`.
- Dynamic fair-share speeds, ramp and burst tuning, and announce interval jitter are inputs of a tick.
- `Lifecycle.Audit.SavePeerState`: the elapsed seconds of the row are left out and a save always succeeds.
- `Lifecycle.Run`: a save always succeeds; a save that fails is ignored by the source and would behave as a crash without one. Elapsed time and the event log are not part of the saved row.
- Two starts of one audit at the same time: the check and the insert in `src/api.rs:593-617` are separate lock regions, so runs of an audit are taken one after the other.
- A saved phase other than leech or seed: nothing writes one.
- Editing an audit resets its row; a chain of runs keeps one configuration.
- Configuration range checks, HTML rendering, formatters, the frontend and the scripts: easy members only.
