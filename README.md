# dgo-torrent download core in Dafny

This project models the download core of the Go BitTorrent client dgo-torrent
and proves properties of the model. The core has five parts.

- **Bencode codec**: the "bencoding" section of BEP 3, the format of every
  metainfo file and every tracker response.
  - `BencodeCodec` covers the byte-level readers and writers: `readDecimal`,
    `decodeInt`, `decodeStr`, `parse`, `encodeInt64` and `encodeStr`.
  - `Bencode` covers `Marshal`/`Unmarshal` and their round trips.
  - `BencodeReading` holds the reading lemmas behind those round trips.
- **Metainfo parser** (`Torrent`): the schema checks of `NewTorrentFile`,
  `parseBase` and `parseInfo`. It also covers:
  - the `announce-list` flattening;
  - the split of `pieces` into 20-byte hashes;
  - the multi-file tree with its first-insertion order.
- **Peer wire protocol** (`Peer`, `Bitfield`):
  - the 68-byte handshake and its check;
  - length-prefixed frames;
  - HAVE, REQUEST and PIECE payloads, and the bounds-checked `CopyPieceData`;
  - compact peer lists;
  - `Bitfield.Test`.
- **Tracker handling** (`Tracker`): `parseTrackerResp`, the announce query
  of `buildHttpTrackerUrl`, and the selection of http trackers in
  `RequestTrackers`.
- **Piece scheduler** (`Scheduler`):
  - piece bounds;
  - job creation;
  - the pipelined request loop of `downloadPiece`;
  - `handleMsg`;
  - the per-job decision of `peerRoutine`;
  - the reassembly loop.

`Common` holds the shared pieces: bytes, 64-bit wrap-around, Go's truncating
`/` and `%`, big-endian integers, and the byte-order used to sort dictionary
keys.

The repository holds three revisions of the scheduler: `task.go`,
`process.go` and the older `dgo_torrent.go`. Their shared logic is modelled
once. They differ in two ways. The first is the `propagate` parameter:

- on a failed `ReadMsg`, `task.go` returns the error (`propagate == true`);
- `process.go` swallows it (`propagate == false`).

The second is that `peerRoutine` in `dgo_torrent.go` is an unfinished stub
(dgo_torrent.go:35-44): after the handshake it returns without taking a job.
`StubDownloadBlocks` states what follows: no result ever arrives.

Three defects of the code are listed under Findings. Each is modelled twice:
once as written, with a lemma that exhibits it, and once corrected. The rest
of the model uses the corrected definitions: `EncodeInt64`, `StrAt` and
`Bitfield.Test`.

Strings are byte sequences (`Bytes`), and Go's `int64` is a subset type.
Wrap-around is written out (`Wrap64`) in the decimal reader's accumulator
and in the negation of `encodeInt64`, and the `uint32` casts of the frame
length are written out too. The product `index * PieceLength` of the
reassembly is left unbounded (see Left out).

A socket is a `Peer.Stream` object, which holds two things:

- `incoming`: the bytes the peer will send;
- `outgoing`: everything written so far.

Calls the model cannot see become function parameters:

| parameter | stands for |
|---|---|
| `sha1` | SHA-1 |
| `placeholder` | the name `uuid.New` generates |
| `scheme` | the scheme `url.Parse` reports |
| `peerIdFor` | the random peer id of each announce |
| `respond` | the HTTP round trip and the decoding of the body |
| `setBit` | `Bitfield.Set` |

Some behaviours of the code are worth stating plainly. The model follows
the code in each:

- BEP 23 packs six bytes per peer into the compact `peers` string. A
  `peers` string whose length is not a multiple of six contributes no peer
  at all (peer.go:73-76). It is not truncated to whole peers.
- Every announce draws a fresh random 20-byte `peer_id` (tracker.go:95-96).
  The model takes it from the `peerIdFor` parameter. The configured peer id
  is not used there.
- Only trackers whose scheme is `http` are queried (tracker.go:171-172).
  `https` and `udp` trackers are skipped, and the UDP code is commented out
  (tracker.go:151-154, 195-200).
- The announce URL's own query is dropped: the seven announce parameters
  replace it (tracker.go:107), so a `?passkey=…` in the metainfo is lost.
- The code asks the http trackers concurrently, one goroutine each, and
  each goroutine appends to a shared list without a lock
  (tracker.go:114-147). The model asks them one after another, in list order
  (see Left out).

## Model

| member | source | states |
|---|---|---|
| BencodeCodec.ReadDecimal | bencode/codec.go:20-45 | the loop reads an optional `-` and then the maximal run of digits; the value and the count of consumed bytes equal `Decimal(s)`, which stops on the first non-digit |
| BencodeCodec.Decimal | bencode/codec.go:20-45 | the count is zero exactly when the input is empty or starts with neither `-` nor a digit, and the byte after the consumed prefix is never a digit |
| BencodeCodec.DigitsAfterLoop | bencode/codec.go:32-43 | after the digit loop, the wrapping accumulator equals the digits' decimal value taken modulo 2^64 and the count equals the run length |
| BencodeCodec.AccumulateDigit | bencode/codec.go:39 | one step `val = val*10 + digit` in 64-bit arithmetic keeps the accumulator congruent to the exact value of the digits read |
| BencodeCodec.FormatNatDigits | bencode/codec.go:57-64 | the decimal spelling has only digits, no leading zero, and denotes `n` |
| BencodeCodec.EncodeInt64Form | bencode/codec.go:47-66 | `encodeInt64(0)` is `i0e`; otherwise the output is `i`, a `-` for negatives, the decimal magnitude, and `e` |
| BencodeCodec.DecodeInt | bencode/codec.go:69-90 | the method over the reader returns exactly `IntAt(s)`: `ErrExpectedNumberIdentifier` without a leading `i`, `ErrExpectedEndIdentifier` without the closing `e` |
| BencodeCodec.CutAfterDigits | bencode/codec.go:20-45 | the byte `readDecimal` pushes back at the end of input is read again, so `i5` and `i` fail with `ErrExpectedEndIdentifier` and `5` with `ErrExpectedStringIdentifier`, not with end of input |
| BencodeCodec.IntAtSuffix | bencode/codec.go:69-90 | a successful `decodeInt` leaves a suffix of its input unread |
| BencodeCodec.EncodeStr | bencode/codec.go:92-103 | the encoding is longer than the string and starts with a digit of the length prefix |
| BencodeCodec.DecodeStr | bencode/codec.go:105-127 | the method returns exactly `StrAt(s)`: `ErrInvalidStringLength` without a length, `ErrExpectedStringIdentifier` without the `:`, a short read when fewer bytes remain than the length |
| BencodeCodec.StrAtSuffix | bencode/codec.go:105-127 | a successful `decodeStr` leaves a suffix unread and returns a string whose length fits an `int64` |
| BencodeCodec.Parse | bencode/codec.go:129-202 | the method returns exactly `ValueAt(s)` |
| BencodeCodec.ParseList | bencode/codec.go:143-166 | the list loop appends elements until an `e` and fails on any element error or end of input |
| BencodeCodec.ParseDict | bencode/codec.go:167-195 | the dictionary loop reads a key and a value, stores them, and stops at an `e` |
| BencodeCodec.ValueAt | bencode/codec.go:129-202 | a successful parse consumes at least one byte |
| BencodeCodec.ValueAtResult | bencode/codec.go:129-202 | a successful parse leaves a suffix unread, and its value holds only integers, byte strings, lists and dictionaries |
| BencodeCodec.ListAtResult | bencode/codec.go:143-166 | the list loop preserves that every accumulated element is such a value |
| BencodeCodec.DictAtResult | bencode/codec.go:167-195 | the dictionary loop preserves that every stored entry is such a value |
| BencodeCodec.ListAtStep | bencode/codec.go:147-163 | one list iteration parses an element and appends it to the accumulator |
| BencodeCodec.DictAtStep | bencode/codec.go:171-192 | one dictionary iteration stores the parsed value under the parsed key, overwriting an earlier one |
| BencodeReading.IntRoundTrip | bencode/codec.go:47-90 | `decodeInt` reads back every integer that `EncodeInt64` (the corrected encoder) writes, and stops at the end of the encoding |
| BencodeReading.StrRoundTrip | bencode/codec.go:92-127 | `decodeStr(encodeStr(s) ++ t)` returns `s` and leaves exactly `t` |
| BencodeReading.ListReadsConcat | bencode/codec.go:147-163 | the list loop reads back a concatenation of element encodings as those elements, in order |
| BencodeReading.DictReadsConcat | bencode/codec.go:171-192 | the dictionary loop reads back a concatenation of key/value encodings as the stores of those pairs, in order |
| BencodeReading.DecimalReadsFormat | bencode/codec.go:20-45 | `readDecimal` reads back an optional `-` and `FormatNat(a)` as `±a` and counts exactly those bytes |
| Bencode.Unmarshal | bencode/bencode.go:17-25 | a decoded value contains only integers, strings, lists and dictionaries |
| Bencode.Marshal | bencode/bencode.go:27-59 | the only error is `ErrInvalidType`, and a successful encoding never starts with `e` |
| Bencode.MarshalValue | bencode/bencode.go:36-59 | the dispatch on the value's kind returns exactly `Marshal(v)` |
| Bencode.MarshalSlice | bencode/bencode.go:61-75 | the loop `ret += marshal(item)` between `l` and `e` returns exactly `Marshal(v)` for a list |
| Bencode.MarshalMap | bencode/bencode.go:77-102 | the loop over the sorted keys between `d` and `e` returns exactly `Marshal(v)` for a dictionary |
| Bencode.MarshalSucceedsIffSupported | bencode/bencode.go:36-102 | `Marshal` succeeds exactly when no value of an unsupported kind occurs at any depth |
| Bencode.ItemsFailureSticks | bencode/bencode.go:64-69 | once an element fails to encode, the whole list fails |
| Bencode.EntriesFailureSticks | bencode/bencode.go:85-95 | once a value fails to encode, the whole dictionary fails |
| Bencode.ItemsConcat | bencode/bencode.go:61-75 | the list body is the concatenation of the element encodings |
| Bencode.ValueRoundTrip | bencode/bencode.go:36-102 | every decodable value encodes, and parsing its encoding followed by any `t` gives back the value and leaves `t` |
| Bencode.RoundTrip | bencode/bencode.go:17-102 | with the corrected `EncodeInt64`, `Unmarshal(Marshal(v)) == v` holds exactly for the values `parse` can produce: no unsupported kind and every string length within `int64`; the encoder as written breaks it on MinInt64 (see Findings) |
| Bencode.UnmarshalIgnoresTrailing | bencode/bencode.go:17-25 | `Unmarshal` decodes one value from the front and ignores any trailing bytes |
| Bencode.UnmarshalledMarshals | bencode/bencode.go:17-59 | every value `Unmarshal` returns can be encoded again |
| Bencode.ParsedIsSupported | bencode/bencode.go:40-52 | every value `parse` can produce is of a kind `marshal` supports |
| Bencode.UnterminatedListFails | bencode/codec.go:147-151 | a list encoding cut before its final `e` fails with end of input |
| Bencode.UnterminatedDictFails | bencode/codec.go:171-175 | a dictionary encoding cut before its final `e` fails with end of input |
| Bencode.DictLastValueWins | bencode/codec.go:182-192 | a repeated dictionary key keeps the last value |
| Bencode.StoreAllLookup | bencode/bencode.go:80-98 | storing the entries in sorted-key order rebuilds the map's restriction to those keys, so the encoding does not depend on insertion order |
| Common.SortedKeysAscending | bencode/bencode.go:80-83 | the keys are listed in strictly ascending byte order |
| Common.SortedKeys | bencode/bencode.go:80-83 | the sorted list holds exactly the keys of the map, each once |
| BencodeFindings.EncodeInt64AsWrittenAgrees | bencode/codec.go:53-60 | the encoder as written agrees with the corrected one except on MinInt64, where it writes `i--9223372036854775808e` |
| BencodeFindings.MinInt64Undecodable | bencode/codec.go:53-60 | the as-written encoding of MinInt64 cannot be decoded again |
| BencodeFindings.MinInt64RoundTrip | bencode/codec.go:53-90 | the corrected encoding of MinInt64 decodes back to MinInt64 |
| BencodeFindings.StrAtAsWrittenAgrees | bencode/codec.go:105-127 | the decoder as written differs from the corrected one exactly where `make` panics: on a negative length, where the corrected decoder reports `ErrInvalidStringLength`, and on a length above 2^48, where it reports a short read unless the input holds that many bytes |
| BencodeFindings.HugeLengthPanics | bencode/codec.go:105-120 | `281474976710657:x` makes `make` panic in the code as written, and the corrected decoder reports `io.ErrUnexpectedEOF` |
| BencodeFindings.NegativeKeyLengthPanics | bencode/codec.go:105-120 | the dictionary key `-1:a` reaches `make([]byte, -1)` |
| BencodeFindings.DecimalOverflowWraps | bencode/codec.go:39 | `i9223372036854775808e` decodes to MinInt64, because the accumulator wraps without an overflow check |
| BencodeFindings.EmptyIntegerIsZero | bencode/codec.go:69-90 | `ie` decodes to 0 |
| Torrent.ParseAnnounceList | torrent_file.go:74-93 | the loop returns `Flatten(announceList)` |
| Torrent.FlattenMembers | torrent_file.go:74-93 | a URL is in the result exactly when it is a top-level string or a string element of a top-level list |
| Torrent.FlattenAppend | torrent_file.go:74-93 | the flattening respects concatenation, so the tiers keep their order |
| Torrent.StringsMembers | torrent_file.go:82-88 | a string of a nested list is kept exactly when it is an element there |
| Torrent.TorrentFile.ParseBase | torrent_file.go:95-149 | fails exactly when `announce` is missing or not a string, and then changes nothing; otherwise sets `announce` and takes `announce-list`, `comment`, `created by` and `creation date` only when they have the right kind |
| Torrent.NameAfter | torrent_file.go:256-265 | the name is never empty, and it is the `name` entry whenever that is a non-empty string |
| Torrent.TorrentInfo.ParseInfo | torrent_file.go:253-320 | fields in source order: name, piece length, pieces, then files or length; a wrongly typed field gives `ErrInvalidTorrentFile`, an absent one leaves its field; `IsMutiFile` is set exactly when `files` is present |
| Torrent.TorrentInfo.ParseLayout | torrent_file.go:295-317 | with `files` the tree is built and the torrent is multi-file; otherwise an `int64` `length` is taken and the torrent is single-file |
| Torrent.TorrentInfo.ParseMultiFile | torrent_file.go:231-251 | on success the tree replaces `MutiFiles`, on failure `MutiFiles` is unchanged; no other field changes |
| Torrent.NewTorrentFile | torrent_file.go:322-355 | decode errors pass through; `ErrInvalidTorrentFile` for a non-dictionary, a missing or non-string `announce`, or a missing `info`; an `info` of another kind is skipped and leaves the info at its zero value; otherwise every info field is set from `info` over its zero value (name, piece length, piece hashes, single- or multi-file layout and length, file tree) and the info hash is `sha1(Marshal(info))` |
| Torrent.EntryMarshals | torrent_file.go:342-347 | re-encoding the decoded `info` dictionary cannot fail |
| Torrent.SplitPieces | torrent_file.go:279-289 | the copy loop returns `Pieces(raw)`, which has `len(raw) / 20` entries |
| Torrent.PiecesCover | torrent_file.go:279-289 | every hash has 20 bytes, the hashes back to back are the front of `raw`, and fewer than 20 bytes are dropped |
| Torrent.PiecesPrefix | torrent_file.go:286-288 | the first `n` hashes back to back are `raw[:20n]` |
| Torrent.BuildIMultiFile | torrent_file.go:151-194 | the loop returns `IMultiFiles(fileList)` |
| Torrent.IMultiFilesSpec | torrent_file.go:151-194 | fails exactly when some dictionary entry lacks an `int64` `length` or a list `path`; otherwise there is one entry per dictionary, and other entries are skipped |
| Torrent.IMultiFilesFailureSticks | torrent_file.go:160-170 | once a prefix of the list is rejected, the whole list is |
| Torrent.BuildTreeSucceeds | torrent_file.go:196-229 | the insertion succeeds exactly when the path is non-empty and runs only through existing directories or fresh names |
| Torrent.FreshInsertable | torrent_file.go:196-229 | below a fresh directory every non-empty path can be inserted |
| Torrent.BuildTreeFinds | torrent_file.go:196-229 | after an insertion the path leads to a FILE node with the given length |
| Torrent.BuildTreeFrame | torrent_file.go:196-229 | the insertion changes only the entry under the first segment; a directory name joins `SubsOrder` only when created, and a leaf name on every insert |
| Torrent.BuildTreeKeepsOrder | torrent_file.go:196-229 | `SubsOrder` keeps listing exactly the names in `Subs` |
| Torrent.BuildAllFailureSticks | torrent_file.go:240-247 | once an insertion fails, the rest of the entries are never inserted |
| Torrent.BuildAllFindsLast | torrent_file.go:231-251 | the last entry inserted is found at its path with its length |
| Peer.DecodePeers | peer.go:70-88 | the loop returns `PeersOf(responses)` |
| Peer.CompactPeers | peer.go:76-86 | a compact list of length a multiple of six yields `len / 6` peers |
| Peer.CompactRoundTrip | peer.go:76-86 | decoding the compact encoding of IPv4 peers gives back those peers in order, with big-endian ports |
| Peer.MalformedSkipped | peer.go:72-75 | a response whose length is not a multiple of six contributes no peer, wherever it stands in the list |
| Peer.FrameBytes | peer.go:118-135 | rejects a type at or above `PEER_MSG_INVALID`; otherwise the frame is `BE32(len+1) ++ [type] ++ payload` |
| Peer.ReadFrame | peer.go:94-116 | the only error is a short read, and a frame is at least its four length bytes |
| Peer.FrameRoundTrip | peer.go:94-135 | reading a written frame gives back the message and leaves the rest of the stream |
| Peer.KeepAliveFrame | peer.go:103-105 | a zero length prefix is a keep-alive |
| Peer.ReadFrameWritten | peer.go:94-135 | every frame `ReadMsg` accepts with an allowed type is exactly what `WriteMsg` writes for that message |
| Peer.PeerConn.ReadMsg | peer.go:94-116 | consumes one frame and returns its message; a short stream is consumed and reported |
| Peer.PeerConn.WriteMsg | peer.go:118-135 | writes nothing for a nil message; an invalid type writes nothing and fails; otherwise appends the frame and returns its length |
| Peer.Handshake | peer.go:174-195 | writes exactly the 68 handshake bytes and reads nothing |
| Peer.HandshakeMsg | peer.go:184-192 | 68 bytes starting with the protocol-string length 19 |
| Peer.PaddedId | peer.go:184-192 | the peer id cut to 20 bytes, or zero-padded to 20 |
| Peer.CheckHandshakeMsg | peer.go:197-229 | consumes the reply and returns the outcome of `HandshakeReply` |
| Peer.HandshakeAccepted | peer.go:174-229 | the check accepts a handshake exactly when it carries the target info hash, and consumes exactly its 68 bytes |
| Peer.PeerConn.FillBitfield | peer.go:231-250 | fails unless the first frame is a BITFIELD, and then sets `PiecesMap` to its payload |
| Peer.NewConn | peer.go:139-172 | sends the handshake; fails on a bad reply or a missing bitfield; otherwise the connection starts choked with the peer's bitfield |
| Peer.PeerConn.constructor | peer.go:158-164 | a new connection is choked and has no pieces |
| Peer.CopyPieceData | peer.go:254-280 | fails on wrong type, a short payload, an index mismatch, an offset at or past the end, or data running past the end, and then writes nothing; otherwise writes exactly `buf[offset:offset+n]` with `n = len(data)` |
| Peer.PieceAccepted | peer.go:265-277 | a PIECE for the right index is accepted exactly when its block lies inside the buffer |
| Peer.Copy | peer.go:276 | Go's `copy` writes as many bytes as fit and leaves the rest of the buffer |
| Peer.GetHaveIndex | peer.go:282-293 | accepts exactly a HAVE with a four-byte payload, and the index is a `uint32` |
| Peer.HaveRoundTrip | peer.go:282-293 | a HAVE built from an index decodes to that index |
| Peer.NewRequestMsg | peer.go:295-305 | a REQUEST with a 12-byte payload |
| Peer.RequestFields | peer.go:295-305 | the three payload words decode to index, offset and length, and the first is the index `GetHaveIndex` reads |
| Bitfield.TestIsBit | bitfield.go:5-12 | inside the field, `Test(i)` is bit `i` of the field, most significant bit of each byte first |
| Bitfield.TestOutside | bitfield.go:6-12 | outside the field `Test` is false, including `-7..-1`, where Go's truncating operators give byte 0 and a shift of 8 or more |
| Bitfield.AsWrittenAgrees | bitfield.go:8-12 | the guard as written panics exactly on `8*len .. 8*len+7`, and on `-7..-1` for an empty field; elsewhere it agrees with `Test` |
| Bitfield.PastEndPanics | bitfield.go:8 | index 8 on a one-byte field reaches `field[1]` |
| Tracker.ParseTrackerResp | tracker.go:29-87 | the result is `TrackerRespOf(resp)`: each count is the entry when it is an `int64` and 0 otherwise, `peers` is the entry when it is a string and empty otherwise, and there is no error |
| Tracker.OtherKeysIgnored | tracker.go:29-87 | entries under any other key do not change the result |
| Tracker.BuildHttpTrackerUrl | tracker.go:89-109 | fails exactly when the URL does not parse; otherwise the query has exactly `info_hash`, `peer_id`, `port=6666`, `uploaded=0`, `downloaded=0`, `compact=1` and `left` = the decimal file length |
| Tracker.SelectHttpTrackers | tracker.go:160-180 | the loop returns `HttpTrackers(AnnounceList ++ [Announce])` |
| Tracker.HttpTrackersMembers | tracker.go:160-180 | a URL is selected exactly when it is listed and its scheme is `http` |
| Tracker.HttpTrackersAppend | tracker.go:160-180 | the selection keeps order across concatenation |
| Tracker.RequestTrackers | tracker.go:111-149 | the responses are those of the selected trackers, in order, with failed, unparsable or non-dictionary responses skipped |
| Tracker.ResponsesStep | tracker.go:111-149 | one tracker adds its parsed response exactly when its URL parses and it answers with a dictionary |
| Tracker.NoHttpTrackerNoPeers | tracker.go:182-203 | with no http tracker the response list is empty |
| Tracker.FindPeers | peer.go:63-92 | the peers are the compact peers of the responses' `peers` strings, in order |
| Scheduler.PieceBoundsTile | task.go:96-105 | each in-range piece is a non-empty range inside the file, at most one piece long; consecutive pieces touch, and the last ends at the file length |
| Scheduler.PieceOf | dgo_torrent.go:26-33 | every byte of the file lies in piece `x / PieceLength` |
| Scheduler.PieceBoundsOrdered | task.go:96-105 | distinct pieces have disjoint ranges in index order |
| Scheduler.StartsInside | task.go:96-105 | piece `k` starts inside the file exactly when `k` is below the piece count |
| Scheduler.InitJobs | process.go:78-85 | the loop returns `JobsOf`: one job per hash, in index order, with length `end - begin` |
| Scheduler.JobsCoverFile | dgo_torrent.go:50-57 | with one hash per piece the job lengths add up to the file length |
| Scheduler.JobsPrefixLength | process.go:78-85 | the first `k` jobs add up to `min(k*PieceLength, FileLength)` |
| Scheduler.RequestsSnoc | task.go:57-70 | a new request has length `min(BLOCKSIZE, length - requested) > 0` and offset `requested` |
| Scheduler.RequestsContiguous | process.go:175-192 | the `j`-th request starts at `j*BLOCKSIZE`, and `requested` never exceeds the length |
| Scheduler.RequestFrameReads | peer.go:295-305 | every request frame is 17 bytes and reads back as `NewRequestMsg` |
| Scheduler.JobState.RequestBlocks | task.go:56-70 | sends only while unchoked and `backlog < MAXBACKLOG` and `requested < length`; the requests written are the contiguous `Requests` stream; `backlog` stays at most 5; when unchoked it stops only at a full backlog or a fully requested piece |
| Scheduler.JobState.SendRequest | task.go:58-68 | one request: its frame is appended, `requested` advances by the block length, `backlog` by one |
| Scheduler.JobState.HandleMsg | task.go:143-176 | the state after one message is `HandleStep` of the state before; one frame is consumed and nothing is written |
| Scheduler.HandleStepEffects | task.go:143-176 | CHOKE/UNCHOKE set or clear `Choked`; HAVE sets the decoded bit or fails; PIECE fails exactly on `CopyPieceData`'s error and otherwise puts the block in place of the buffer's bytes at its offset, adds its length to `downloaded` and decrements `backlog`; keep-alive and other types change nothing; a read error is returned only when `propagate` |
| Scheduler.PatchSlices | peer.go:278 | `copy(buf[offset:], data)`, byte by byte, replaces exactly `buf[offset:offset+len(data)]` and keeps the bytes before and after |
| Scheduler.HandleStepMonotone | process.go:206-239 | `backlog` never grows, `downloaded` never shrinks, the buffer keeps its length; with `propagate == false` a read error leaves the state unchanged and returns nil |
| Scheduler.RequestRound | task.go:56-70 | one pass of the inner request loop sends nothing while choked; unchoked, it stops exactly at a full backlog of `MAXBACKLOG` or a fully requested piece, and never overfills the backlog |
| Scheduler.DownloadRunStep | task.go:55-78 | one iteration of the outer loop of an unfinished download: the pass of requests, then `handleMsg` on the next message |
| Scheduler.DownloadOnNext | task.go:73-76 | an error from `handleMsg` ends the download with that error in the state the message left; otherwise the loop goes on from that state |
| Scheduler.DownloadRunDone | task.go:55-83 | once `downloaded` reaches the length the loop ends and returns the job's index and the buffer |
| Scheduler.DownloadRunStalled | process.go:175-210 | after a swallowed read error the loop sends its pass of requests and then only fails to read; the model stops it there |
| Scheduler.DownloadRunEnds | task.go:44-84 | whatever the peer sends: the requests never pass the piece's end, the backlog stays at most `MAXBACKLOG`, the buffer keeps its length and `downloaded` never shrinks; a result is the job's index with the buffer, reached only when `downloaded >= length`; an error comes only before completion; a read error ends it only when `propagate`, and otherwise it stalls on an exhausted stream |
| Scheduler.DownloadOnEnds | task.go:73-78 | the same bounds from the `handleMsg` of an unfinished iteration |
| Scheduler.DownloadRunAborts | task.go:73-76 | a read error on the first message ends the download with the short read when errors propagate and stalls it otherwise; a malformed HAVE or a rejected PIECE ends it with that message's error |
| Scheduler.JobState.Fetch | task.go:55-83 | the loop returns exactly the outcome of `DownloadRun` from the state it starts in, ends in that run's state with that run's unread bytes, and writes exactly that run's requests |
| Scheduler.DownloadPiece | task.go:44-84 | a fresh job state (zeroed buffer of the job's length, nothing requested); the outcome, the connection's choke flag, bitfield and unread bytes are those of `DownloadRun` over the messages the peer sends; the requests written are the contiguous stream; a result has the job's index and exactly `length` bytes; a read error is returned only when `propagate`, and otherwise the download stalls on an exhausted stream |
| Scheduler.TakeCases | task.go:120-139 | a job whose piece the peer lacks is put back and nothing changes; otherwise the worker quits exactly when the download fails, hangs exactly when it stalls (only with swallowed read errors), puts the job back exactly when the piece fails `checkPiece`, and emits a result for the job's index and length that passed `checkPiece` |
| Scheduler.TakeJob | task.go:120-139 | returns exactly the decision of `Take` and leaves the connection as `Take` says; it only appends to what was written; a piece the peer lacks is put back untouched; an emitted result has the job's index and length and passed `checkPiece` |
| Scheduler.WorkerSound | task.go:120-139 | a worker's pass is `Take`, and its passes emit only results for the job's piece, of its length, that passed `checkPiece`, and hang only when read errors are swallowed |
| Scheduler.JobLoopJobs | task.go:120-139 | no job is lost: the queue's jobs are those left, those emitted and at most one job a hanging worker holds |
| Scheduler.JobLoopResults | task.go:133-139 | the results sent are the `Emit` decisions in order, one per emitted job, each for that job's piece, of its length, and passing `checkPiece`; a worker holds a job only with swallowed read errors |
| Scheduler.JobLoopStops | task.go:120-139 | every decision but the last put the job back or emitted it; the loop stops only on an empty queue, after `rounds` passes, or on the decision to quit or hang; a job is held exactly when the last decision hung |
| Scheduler.RunJobs | task.go:120-139 | the loop's results, decisions, remaining queue, held job and connection are exactly those of `JobLoop` over the queue; it only appends to what was written |
| Scheduler.PeerRoutine | task.go:107-141 | writes INTERESTED first, then runs the job loop: the outcome is `JobLoop` with the worker's passes; no job is dropped (the queue is a permutation of the rest plus the emitted jobs plus at most one hung job); the results are the `Emit` decisions, each checked by `checkPiece` |
| Scheduler.PlaceInto | process.go:101-102 | `copy(buf[begin:end], data)` writes the piece in place, or changes nothing when the slice is out of range |
| Scheduler.Reassemble | process.go:97-109 | the loop of `count` iterations over a `FileLength`-byte buffer returns `AssemblyOf` |
| Scheduler.FillFailureSticks | process.go:99-104 | once the reassembly blocks or slices out of range, later results do not matter |
| Scheduler.SliceFailureSticks | dgo_torrent.go:65-70 | a result whose slice lies outside the buffer stops the reassembly there |
| Scheduler.FillPlaces | dgo_torrent.go:63-70 | results for distinct in-range pieces of the right lengths are each found in their range afterwards |
| Scheduler.Assembles | process.go:97-109 | `count` distinct, in-range results of the right lengths assemble into a `FileLength`-byte buffer holding every result in its range |
| Scheduler.StubDownloadBlocks | dgo_torrent.go:35-44 | with the stub worker no result arrives, so reassembly of a non-empty torrent never finishes |

## Left out

- Networking: dialling, deadlines, the HTTP client and the `io.Reader` and
  `bufio` plumbing are not modelled. A socket is a byte stream, and the HTTP
  round trip is the `respond` parameter.
- Concurrency: goroutines, channels, the `WaitGroup` of `Process.Start` and the
  unsynchronised append to `respList` are not modelled. Trackers are asked in
  order, and one worker runs the jobs in queue order.
- `Scheduler.PeerRoutine`: a requeued job goes to the back of the queue, and
  the `rounds` fuel bounds the number of jobs taken, because Go's loop ends only
  when the channel is closed.
- `Scheduler.PeerRoutine`: starts from an established connection. The early
  return when `NewConn` fails (task.go:108-112) is not modelled here, and
  `Peer.NewConn` states that failure on its own. The deferred `Close` and the
  deadlines are not modelled either.
- `Scheduler.DownloadPiece`: after a swallowed read error, the Go loop spins
  forever on a dead connection. The model sends at most one more round of
  requests and reports `Stalled`.
- `Scheduler.TakeJob`: the worker uses the corrected `Bitfield.Test` (see
  Findings), because the as-written guard panics past the end of the field.
- `Scheduler.Reassemble`: the product `index * PieceLength` is unbounded here;
  Go's `int` overflow on huge indices is not modelled.
- `Peer.PeerConn.WriteMsg`: the socket write error Go returns
  (peer.go:134) is not modelled; `Stream.Write` always succeeds.
- `Peer.Handshake`: the socket write error Go returns (peer.go:192-194) is
  not modelled; the handshake bytes are always written.
- `Scheduler.JobState.SendRequest`: a socket write error is not modelled.
  Requests always frame correctly, so `WriteMsg` cannot fail there.
- `Scheduler.DownloadPiece`: `make` with a negative length panics in Go. The
  method requires `job.length >= 0`, and `Reassemble` takes a `nat` file length.
- `Peer.ReadFrameWritten`: states the inverse only for payloads shorter than
  2^32 - 5 bytes, where the `uint32` length prefix of `WriteMsg` cannot wrap.
- `Peer.FrameRoundTrip`: has the same payload-size bound.
- Foreign calls: SHA-1, `uuid.New`, `crypto/rand`, `url.Parse`,
  `url.Values.Encode` and `Bitfield.Set` are parameters. Their own behaviour
  is not modelled.
- Floating point: the `math.Log10` byte counts of `encodeInt64` and
  `encodeStr` are not modelled. `marshal` discards them.
- `marshalStruct` is not modelled, because it works by reflection over struct
  tags. `marshal` sends a struct to it (bencode/bencode.go:50-51), and the
  `Value` type has no struct case. The `Other` case stands for the remaining
  kinds, such as booleans and floats, which `marshal` rejects with
  `ErrInvalidType`.
- `Bencode.Marshal`: integers are written with the corrected `EncodeInt64`
  (see Findings). The encoder as written differs on MinInt64 only.
- `Bencode.RoundTrip`: holds for the corrected `EncodeInt64`. With the
  encoder as written it fails for any value that contains MinInt64.
- `Bencode.UnmarshalledMarshals`: re-encodes with the corrected
  `EncodeInt64`. Re-encoding succeeds with the encoder as written too, but
  its output differs on MinInt64.
- `BencodeCodec.Parse`: reads strings with the corrected `StrAt`. It
  reports an error where the code as written panics on a negative string
  length or on one above 2^48.
- `Bencode.Unmarshal`: decodes with the corrected `StrAt`, and so has the
  same difference on a negative string length and on one above 2^48.
- `BencodeCodec.DecodeStr`: returns the corrected `StrAt`, which rejects a
  negative length with `ErrInvalidStringLength` and reports a length above
  2^48 as a short read. The code as written panics in `make` on both (see
  Findings). A length between the remaining input and 2^48 is also a short
  read here, while the code first allocates that many bytes, which can
  exhaust memory; memory is not modelled.
- `Torrent.NewTorrentFile`: decodes with the corrected `StrAt` and computes
  the info hash over the corrected `EncodeInt64`. A metainfo file with a
  negative string length, a string length above 2^48 or a MinInt64 in
  `info` behaves differently in the code as written.
- UDP trackers are not modelled, because their code is commented out.
- Configuration, persistence, logging, the command line, the progress bar and
  writing the file to disk are outside the core.

## Findings

| source | as written | input that shows it | evidently intended | confidence | as-written member | corrected member |
|---|---|---|---|---|---|---|
| bencode/codec.go:53-60 | `encodeInt64` negates a negative value before formatting, and `-MinInt64` overflows to MinInt64 | MinInt64 encodes as `i--9223372036854775808e`, which `decodeInt` rejects | the encoding `i-9223372036854775808e`, which decodes back | not executed | BencodeFindings.MinInt64Undecodable | BencodeFindings.MinInt64RoundTrip |
| bencode/codec.go:105-120 | `decodeStr` accepts a `-` in the length and passes the negative length to `make` | the dictionary `d-1:ae` panics | reject a negative length with `ErrInvalidStringLength` | not executed | BencodeFindings.NegativeKeyLengthPanics | BencodeFindings.StrAtAsWrittenAgrees |
| bencode/codec.go:105-120 | `decodeStr` passes any length to `make`, which panics above the allocation limit (2^48 on linux/amd64) | the string `281474976710657:x` panics | a length the input cannot hold is a short read | not executed | BencodeFindings.HugeLengthPanics | BencodeFindings.StrAtAsWrittenAgrees |
| bitfield.go:8 | `Test` guards with `byteOffset > len(field)` | `Test(8)` on a one-byte field indexes `field[1]` and panics | `byteOffset >= len(field)`: a piece past the end is one the peer lacks | not executed | Bitfield.PastEndPanics | Bitfield.TestOutside |
