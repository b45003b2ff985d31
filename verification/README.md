# GhostDrop: verified model

GhostDrop moves a file in resumable, encrypted pieces. This project models the places where bytes,
offsets and state have to stay in step, and proves what they keep:

| module (file of the same name) | models |
|---|---|
| `DirectDrop`, `DirectDropLoops`, `Handshake` | the two-party transfer of `internal/p2p`: stop-and-wait, ACKs, resume, handshake |
| `RelayServer`, `RelayHandlers` | the relay's partial PUTs behind an offset watermark, and its handlers as methods |
| `RelayUpload`, `RelayClient`, `RelayResume`, `ContentRange` | the uploading client, any number of clients on a bad network, one client on a good one, the range headers |
| `TokenBucket` | the relay's rate limiter |
| `Gd01`, `Gd01Loops`, `ChunkNonce`, `Envelope` | the GD01 chunked file format, its three sealing and two opening loops, the nonces, the relay envelope |
| `Stores`, `Providers` | the memory and local stores over one expiring map |
| `Access` | X25519 key wrapping and the four access modes |
| `Drops`, `DropManager` | the drop manager: create, retrieve, revoke, status, database rows |
| `EventBus` | the progress bus |
| `Bytes`, `Files`, `Primitives`, `Totals`, `Ids` | big-endian numbers and exclusive or, streams and files, the laws of the primitives, sums over maps, identifiers |

## How it is built

* A step of the program is a function on a state value. Where the source changes state in place, a
  method or class does the same with loops, buffers and fields, and its `ensures` ties it to that
  function; theorems are about the function, over every run.
* Events of the outside world (a lost reply, a torn write, a full disk, a death of the process, the
  clock, random bytes, a failed save) are parameters or events of the run. Nothing is assumed about
  them unless a theorem says so.
* AEAD, X25519, Ed25519, SHA-256 and Argon2id are function values. A theorem that needs a law of one
  of them asks for it: opening undoes sealing and adds 16 bytes (section 2.8 of RFC 8439), X25519
  commutes (section 6.1 of RFC 7748), a signature verifies. `Primitives.LawsAreConsistent` shows with
  stand-ins that the laws can be met. Integrity is asked for only where integrity is concluded, and
  only for the ciphertexts an opener meets (`Gd01.Unforged`).
* The chunk size is a parameter of at least 1; `Gd01.ShippedFormat` puts in 1 MiB.
* Sizes, offsets and counters of the source are `int64`, `uint64` and `uint32`; wrap-around is written
  out where it can happen (frame lengths, chunk indices, the copy limit `remain+1`, quota sums, the
  envelope length).

## What turned out differently from what one would expect

Each of these is proved, with the exact condition.

* A DirectDrop sender can be made to send an ACKed chunk again if and only if the source is not a multiple
  of the chunk size: a session on a complete destination repeats its short last chunk, and no more
  (`DirectDrop.AckedChunkIsResentIff`, `DirectDrop.CompleteDestinationResendsOnlyAShortTail`).
* `Receive` does not cut a destination that was longer than the announced file: nil then means that
  the first `fileSize` bytes are right (`DirectDropLoops.NilMeansVerified`, and
  `DirectDropLoops.LongerDestinationKeepsItsTail` for an input).
* The two GD01 openers do not accept the same streams: the one in `internal/app` takes frames up to 48
  bytes longer (`Gd01.Codec.StrictRefinesLax`, `Gd01.Codec.LaxIsStrictlyLaxer`). On everything the
  sealers produce they agree, as docs/ARCHITECTURE.md:35-44 promises (`Gd01.Interchangeable`).
* The format lets a sealed file pass that was cut between two chunks; the digest check of the drop
  manager does not (`Drops.RetrieveTakesOnlyTheWholeFile`).
* A relay limited to less than one request per second admits none at all
  (`TokenBucket.AdmitsAnythingIffRateAtLeastOne`).
* If the relay dies in the middle of an over-long body, or its roll-back fails, the payload keeps a byte
  too many, and a drop completed afterwards is served with a byte nobody uploaded
  (`RelayServer.DeathCanSpoilACompleteDrop`). A complete drop is served exactly if and only if its
  payload has the announced size (`RelayServer.GetServesTheAcceptedBodies`), which holds in every run
  without these two events (`RelayServer.CompleteDropsAreServedExactly`).
* A relay drop announced with 2^63-1 bytes accepts bodies and stores none of their bytes
  (`RelayServer.RunsAreSafe`, `RelayServer.LargestDropStoresNothing`); a memory store with that quota
  takes only empty blobs (`Stores.MemoryAcceptsWhatLocalAccepts`).
* Resuming an upload is refused with the quota error if the relay has no room for the announced size a
  second time (`RelayResume.ResumeCompletes`).
* An upload whose chunk reaches the relay anywhere but at the watermark fails, and at the watermark
  succeeds (`RelayResume.LostReplyFailsTheCall`): so after a lost reply it fails on every retry although the
  bytes are stored. The next upload resumes behind them.
* The relay never writes the mark that a one-time drop was served (`RelayServer.RunsAreSafe`), so the
  branch that looks for it is never taken.
* An empty payload can never be uploaded to a relay (`RelayResume.EmptyPayloadIsRefused`).
* The local store counts an overwritten blob against the quota, the memory store does not
  (`Stores.MemoryAcceptsWhatLocalAccepts`).
* A relay envelope gives back what went in exactly for manifests of 1 byte to 16 MiB
  (`Envelope.SplitUndoesJoin`).
* Two subscribers of the bus can see two overlapping publishes in opposite orders
  (`EventBus.OverlappingPublishesMayCross`).

## Model

| member | source | states |
|---|---|---|
| `DirectDrop.RunsAreSafe` | internal/p2p/p2p.go:266-316 | after any number of sessions with any chunk sizes, cut anywhere, the destination is a prefix of the source; Receive's nil means the whole source is there, Send's nil means the receiver had verified; honest peers never meet a protocol error |
| `DirectDrop.Run` | internal/p2p/p2p.go:266-316 | along every run of sessions, steps and faults the invariant holds |
| `DirectDrop.StepKeepsInv` | internal/p2p/p2p.go:440-499 | every step of either end, every fault and every new session keeps the invariant that ties offsets, indices, what is in flight and the file on disk |
| `DirectDrop.StartKeepsInv` | internal/p2p/p2p.go:356-407 | a session on any source-prefix destination starts at a chunk boundary inside the file, with the kept bytes re-hashed |
| `DirectDrop.ReceiverHearsKeepsInv` | internal/p2p/p2p.go:440-499 | a frame, whole or torn on its way to the disk, leaves a prefix of the source behind |
| `DirectDrop.SenderHearsKeepsInv` | internal/p2p/p2p.go:282-298 | an ACK moves the sender exactly to where the receiver is |
| `DirectDrop.AckedChunksAreNotResent` | internal/p2p/p2p.go:356-407 | with one chunk size for all sessions no chunk that was ACKed to its end is sent again, except a short last one |
| `DirectDrop.AckedChunkIsResentIff` | internal/p2p/p2p.go:356-407 | with one chunk size for all sessions, some run makes the sender send an ACKed chunk again if and only if the size of the (non-empty) source is not a multiple of it |
| `DirectDrop.CompleteDestinationResendsOnlyAShortTail` | internal/p2p/p2p.go:356-364 | a session that finds the whole source on disk and is left alone sends no data frame if the size is a multiple of the chunk size, and one otherwise |
| `DirectDrop.OnlyTheNextEventIsPossible` | internal/p2p/p2p.go:260-304 | lockstep: in a fault-free session only one event can change the state |
| `DirectDrop.NextEventMakesProgress` | internal/p2p/p2p.go:260-304 | that event keeps both ends alive and lowers the measure |
| `DirectDrop.Complete` | internal/p2p/p2p.go:260-304 | letting the session run ends it, in the invariant, with the same chunk size and start |
| `DirectDrop.FaultFreeSessionCompletes` | internal/p2p/p2p.go:237-304 | from any source prefix and chunk size a fault-free session ends with both sides nil and the source at the destination, after exactly ceil((size-accepted)/chunk) data frames |
| `DirectDrop.FloorFacts` | internal/p2p/p2p.go:357-364 | the resume offset is the largest multiple of the chunk size that is on disk |
| `DirectDrop.ChunkSizeOf` | internal/p2p/p2p.go:84-95 | every option gives a chunk size between 1 KiB and 8 MiB |
| `DirectDropLoops.Receive` | internal/p2p/p2p.go:356-499 | the receiving loop, over any frames, torn writes and answers that cannot be written, is the fold of the receiver's turns: same file, same replies, same verdict |
| `DirectDropLoops.Send` | internal/p2p/p2p.go:218-316 | the sending loop, over any replies, frames that cannot be written and a context that ends, is the fold of the sender's steps: same frames, same verdict |
| `DirectDropLoops.NilMeansVerified` | internal/p2p/p2p.go:440-499 | against any peer: Receive's nil means the first fileSize bytes have the announced digest; they are the whole file if and only if the destination was not longer before |
| `DirectDropLoops.LongerDestinationKeepsItsTail` | internal/p2p/p2p.go:394-404 | an input on which Receive returns nil and old bytes stay behind the file |
| `DirectDropLoops.Destination.WriteAt` | internal/p2p/p2p.go:468-470 | a write at the file offset changes that stretch only; a torn one its first bytes only |
| `DirectDropLoops.Destination.Open` | internal/p2p/p2p.go:394-399 | opening creates what is absent and truncates nothing |
| `DirectDropLoops.Destination.Truncate` | internal/p2p/p2p.go:400-404 | the torn tail is cut, the rest stays |
| `Handshake.HelloRoundTrip` | internal/p2p/p2p.go:194-217 | the 209-byte handshake parses to exactly the fields written, for all values in range |
| `Handshake.HelloIsCanonical` | internal/p2p/p2p.go:328-355 | every handshake with the right preamble is the encoding of what is read out of it |
| `Handshake.AnswerRoundTrip` | internal/p2p/p2p.go:370-382 | the 141-byte response parses to exactly the fields written |
| `Handshake.AnswerIsCanonical` | internal/p2p/p2p.go:221-240 | every response with the right preamble is the encoding of what is read out of it |
| `Handshake.AckRoundTrip` | internal/p2p/p2p.go:284-292 | an ACK reads back as its byte count, the NACK as -1 |
| `Handshake.FrameHeaderRoundTrip` | internal/p2p/p2p.go:275-283 | a data frame's length prefix reads back and is never the FIN prefix |
| `Handshake.PeersDeriveOneCodec` | internal/p2p/p2p.go:126-145 | both peers derive the same session key and nonces, or both fail |
| `Handshake.HandshakeOpensOneSession` | internal/p2p/p2p.go:194-258 | for all keys, options, hints and source-prefix destinations each side accepts the other's message, learns its values, and both hold one codec |
| `RelayServer.RunsAreSafe` | internal/relay/server.go:454-511 | over every run from an empty directory, with torn and over-long bodies, failed saves and deaths of the process: 0 <= UploadedBytes <= payload <= SizeBytes (one byte more at most if the process may die in a write or a roll-back fail), the payload below the watermark is the concatenation of the accepted bodies, the token index mirrors the records, no record says served; with the exact exception of the size 2^63-1 |
| `RelayServer.StepKeepsInv` | internal/relay/server.go:362-742 | every handler step, sweep, restart and death keeps that |
| `RelayServer.PutKeepsInv` | internal/relay/server.go:431-519 | a PUT, however it ends, keeps that, and extends the accepted bytes only when it answers 200 |
| `RelayServer.WriteFromWatermark` | internal/relay/server.go:484-506 | writing from the watermark on changes nothing below it and puts the body right behind it; the roll-back of an over-long body restores the bound, and without it one byte is too many at most |
| `RelayServer.WritesLeaveNoGap` | internal/relay/server.go:454-483 | an admitted body is written at the watermark, which is never beyond the end of the payload |
| `RelayServer.CreateKeepsInv` | internal/relay/server.go:362-429 | creating a drop, or dying between its two files, keeps the invariant |
| `RelayServer.DiedPuttingKeepsInv` | internal/relay/server.go:495-503 | dying in the middle of a body leaves at most one byte too many and nothing changed below the watermark |
| `RelayServer.OthersAreUntouched` | internal/relay/server.go:362-662 | a request for one drop leaves the record and payload of every other alone |
| `RelayServer.StepKeepsWatermark` | internal/relay/server.go:431-519 | no step changes a byte below the watermark of a live drop or moves the watermark down |
| `RelayServer.WatermarkBytesNeverChange` | internal/relay/server.go:431-519 | over any run in which a drop stays, the bytes below its watermark stay as they were |
| `RelayServer.GetServesTheAcceptedBodies` | internal/relay/server.go:521-569 | in every reachable state a GET streams the accepted bodies first and at most one byte more than announced; of a complete drop exactly the accepted bodies, if and only if the payload has the announced size |
| `RelayServer.CompleteDropsAreServedExactly` | internal/relay/server.go:521-569 | in every run without a death in a body and without a failed roll-back, a GET of a complete drop streams exactly the accepted bodies |
| `RelayServer.DeathCanSpoilACompleteDrop` | internal/relay/server.go:484-507 | a run in which a death spoils the payload, the drop is completed, and a GET streams a byte no accepted PUT brought |
| `RelayServer.LargestDropStoresNothing` | internal/relay/server.go:495-507 | a run in which a drop of 2^63-1 bytes accepts a body and stores none of it |
| `RelayServer.NothingWithoutTheToken` | internal/relay/server.go:440-453 | without the drop's token a request changes nothing and gets nothing; with it an expired drop is deleted and neither served nor stored to, and DELETE deletes it |
| `RelayHandlers.Server.constructor` | internal/relay/server.go:136-170 | a server on a directory has the token index of its records |
| `RelayHandlers.Server.ReloadTokens` | internal/relay/server.go:270-291 | the loop over the directory rebuilds the index of all records |
| `RelayHandlers.Server.CountStored` | internal/relay/server.go:296-311 | the loop counts the bytes of all payloads, in an int64 |
| `RelayHandlers.Server.HandleCreate` | internal/relay/server.go:362-429 | the handler does the create step: checks in order, record first, payload exclusively, roll-back of the record |
| `RelayHandlers.Server.WriteOffset` | internal/relay/server.go:454-478 | the target offset, or the conflict or error, of a PUT |
| `RelayHandlers.Server.HandlePut` | internal/relay/server.go:431-519 | the handler does the PUT step, write by write, also when opening, seeking, cutting back or saving fails |
| `RelayHandlers.Server.HandleOpen` | internal/relay/server.go:521-561 | the first critical section of a GET does its step |
| `RelayHandlers.Server.HandleServed` | internal/relay/server.go:571-580 | the second deletes a one-time drop after a full read |
| `RelayHandlers.Server.HandleMeta` | internal/relay/server.go:600-631 | the read of a meta request gives the reply of its step |
| `RelayHandlers.Server.HandleExpired` | internal/relay/server.go:615-622 | its clean-up deletes the drop it read |
| `RelayHandlers.Server.HandleDelete` | internal/relay/server.go:633-653 | the handler deletes exactly the named drop for the holder of its token |
| `RelayHandlers.Server.DeleteLocked` | internal/relay/server.go:656-662 | payload, record and token of one drop go together |
| `RelayHandlers.Server.SweepExpired` | internal/relay/server.go:703-728 | the sweep removes exactly the expired drops and returns how many |
| `RelayUpload.SharedUploadsAreSafe` | internal/storage/relay.go:189-279 | any number of Puts of one source, over a network that loses, delays, repeats and tears, with a relay that may die: the relay's first UploadedBytes bytes are always that prefix of the source, and a Put that returned nil means all of it is stored |
| `RelayUpload.NetStepKeepsInv` | internal/storage/relay.go:232-277 | each network, relay and client event keeps the invariant, and the watermark never moves down |
| `RelayUpload.StoredChunk` | internal/relay/server.go:454-511 | the relay stores a delivered chunk only whole and only at its watermark |
| `RelayUpload.HearKeepsCall` | internal/storage/relay.go:202-277 | a client's offset never passes the relay's watermark |
| `RelayUpload.HearMakesProgress` | internal/storage/relay.go:232-277 | every exchange brings a Put closer to its end |
| `RelayUpload.CreatedDropStarts` | internal/relay/server.go:406-428 | a drop created on any reachable relay is such a start |
| `RelayClient.RelayClient.Put` | internal/storage/relay.go:189-279 | the nested loop sends the chunks and returns the error of the step function, for all answers |
| `RelayResume.ResumeCompletes` | internal/storage/relay.go:189-279 | on a good network a Put resumes at the watermark, sends each remaining chunk once and stores everything, if and only if the quota has room for the announced size once more; otherwise it reports the quota error and changes nothing |
| `RelayResume.ChunksComplete` | internal/storage/relay.go:233-277 | from any watermark on, ceil((size-uploaded)/chunk) chunks complete the drop |
| `RelayResume.LostReplyFailsTheCall` | internal/storage/relay.go:246-275 | a call that is about to send a chunk on a network without further faults returns nil if and only if the chunk's offset is the relay's watermark |
| `RelayResume.MisplacedChunkFailsTheCall` | internal/storage/relay.go:246-275 | a chunk below, across or beyond the watermark is refused with 409 on each remaining try, fails the Put and changes nothing |
| `RelayResume.EmptyPayloadIsRefused` | internal/relay/server.go:377-380 | a Put of size 0 fails with the relay's 400, whatever the relay holds |
| `ContentRange.ContentRangeRoundTrip` | internal/transport/transport.go:148-180 | parsing a printed Content-Range (section 14.4 of RFC 9110) gives the same triple, for all 0 <= start <= end < total < 2^63 |
| `ContentRange.AcceptedContentRanges` | internal/transport/transport.go:160-180 | a string is accepted with a triple if and only if, trimmed, it reads "bytes A-B/C" with those int64 numbers and they describe a non-empty interval inside the total |
| `ContentRange.RangeIsClipped` | internal/transport/transport.go:185-220 | whatever ParseRange accepts is a request for one range, and every such request gets exactly the asked bytes that exist |
| `ContentRange.PrintedRangeAsks` | internal/storage/relay.go:289-292 | the header the client prints asks for what it means |
| `ContentRange.ParseOfFormat` | internal/transport/transport.go:148-150 | a printed number parses to itself |
| `TokenBucket.WindowBound` | internal/relay/server.go:116-133 | for any calls on a monotone clock, the requests admitted in any window number at most burst + rate*(t2-t1) |
| `TokenBucket.NewLimiterBound` | internal/relay/server.go:109-133 | the same for a limiter from its creation on |
| `TokenBucket.TokensStayInBounds` | internal/relay/server.go:116-133 | the token counter stays in [0, burst] over every run |
| `TokenBucket.SpacedCallsAreAdmitted` | internal/relay/server.go:116-133 | a client that keeps the rate is never refused, if the rate is at least 1 |
| `TokenBucket.AdmitsAnythingIffRateAtLeastOne` | internal/relay/server.go:109-133 | a limiter admits some request in some run if and only if its rate is at least 1 |
| `TokenBucket.Limiter.Allow` | internal/relay/server.go:116-133 | the method does the step the bounds are about |
| `TokenBucket.NewLimiter` | internal/relay/server.go:109-114 | no limiter for a rate of 0 or less, else a full one |
| `Gd01.Codec.RoundTrip` | internal/crypto/crypto.go:204-250 | opening the frames of any plaintext gives it back, under either opener's bounds |
| `Gd01.Codec.AcceptedFrom` | internal/crypto/crypto.go:204-250 | without forgeries an opener accepts exactly the runs of whole leading frames, and only ever releases whole leading chunks |
| `Gd01.AcceptedLanguage` | internal/crypto/crypto.go:168-250 | with the header kept and only this file sealed under the key, a file opens if and only if it is the header and the first k frames for some k, and the output is the matching prefix: nothing reordered, repeated, altered or cut inside a frame |
| `Gd01.UnforgedPinsIndices` | internal/crypto/crypto.go:57-66 | as nonces differ by index, only-this-file's-chunks means only the right chunk at each index |
| `Gd01.Codec.CutIsAcceptedOnlyBetweenFrames` | internal/crypto/crypto.go:204-250 | a sealed file cut at a byte opens if and only if the cut is between frames |
| `Gd01.Codec.TruncationHasNoForgery` | internal/crypto/crypto.go:204-250 | a cut sealed file meets the integrity hypothesis without any assumption |
| `Gd01.Codec.StrictRefinesLax` | internal/app/filecrypt.go:194-226 | crypto's opener accepts a stream if and only if app's does and no frame is longer than a full chunk; the outputs are the same |
| `Gd01.Codec.LaxIsStrictlyLaxer` | internal/app/filecrypt.go:194-226 | one genuine over-long frame is taken by app's opener and refused by crypto's |
| `Gd01.SealedSize` | internal/crypto/crypto.go:81-164 | a sealed file has 28 + n + 20*ceil(n/ChunkSize) bytes |
| `Gd01.Interchangeable` | internal/app/filecrypt.go:103-227 | the sealed form of any plaintext opens to it with either opener |
| `Gd01.ShippedFormat` | internal/crypto/crypto.go:81-250 | both of the last two at 1 MiB |
| `Gd01.Codec.FramesAppend` | internal/crypto/crypto.go:113-150 | sealing may be done chunk by chunk: the frames of a whole number of chunks, then those of the rest |
| `Gd01.Codec.ClosedForms` | internal/crypto/crypto.go:113-150 | chunk k starts at k*ChunkSize, and there are ceil(n/ChunkSize) chunks |
| `Gd01Loops.CryptoSealFile` | internal/crypto/crypto.go:81-164 | the loop writes exactly the sealed file and returns both digests and the length; a failure leaves no file |
| `Gd01Loops.AppSealFile` | internal/app/filecrypt.go:103-163 | the second loop writes the same file; a failure leaves what fitted |
| `Gd01Loops.SealWithProgress` | internal/app/seal.go:17-82 | the third loop writes the same file and reports each chunk's end once, in order |
| `Gd01Loops.CryptoOpenFile` | internal/crypto/crypto.go:168-250 | the loop writes exactly what the strict opener releases; once it has opened the destination and fails, there is no destination |
| `Gd01Loops.AppOpenFile` | internal/app/filecrypt.go:167-227 | the loop writes exactly what the lax opener releases |
| `Gd01Loops.ReadHeader` | internal/crypto/crypto.go:176-193 | magic and header nonce are read exactly if the stream has them |
| `Gd01Loops.WriteFrame` | internal/crypto/crypto.go:132-145 | the two writes of a frame succeed exactly if it fits, and leave the part that fits |
| `Gd01Loops.WriteChunk` | internal/crypto/crypto.go:119-146 | the sealing step all three loops share: what is written plus what is to come stays the whole file |
| `ChunkNonce.ChunkNonceInPlace` | internal/p2p/p2p.go:147-156 | the byte-wise XOR loop computes the nonce |
| `ChunkNonce.NonceStylesAgree` | internal/app/filecrypt.go:93-99 | the word-wise XOR computes the same nonce, for all bases and indices |
| `ChunkNonce.NonceInjective` | internal/crypto/crypto.go:57-66 | two indices share a nonce if and only if they are equal |
| `Envelope.SplitUndoesJoin` | internal/app/app.go:824-884 | splitting gives back manifest and payload if and only if the manifest has 1 byte to 16 MiB |
| `Envelope.SplitIsCanonical` | internal/app/app.go:851-884 | whatever is accepted is the envelope of what is returned |
| `Envelope.WriteEnvelope` | internal/app/app.go:824-849 | the writes put down the envelope, or the part that fits |
| `Envelope.SplitEnvelope` | internal/app/app.go:851-884 | the reads give the split, or fail; a manifest that does not parse fails before the payload file is created |
| `Stores.MemoryAcceptsWhatLocalAccepts` | internal/storage/local.go:109-121 | from equal contents, a reader of exactly the announced size: what local accepts memory accepts (save for the quota 2^63-1), and memory accepts more exactly if the overwritten blob makes the difference |
| `Stores.MemoryAccounting` | internal/storage/memory.go:39-149 | over every run the counter equals the bytes stored and is within the quota |
| `Stores.MemoryStepFacts` | internal/storage/memory.go:39-149 | every call on the memory store is a step of the expiring map; a rejected Put changes nothing |
| `Stores.SameStep` | internal/storage/local.go:109-262 | one call on equal contents leaves the two stores equal, with equal replies but for the kind of some errors |
| `Stores.SameRun` | internal/storage/local.go:109-262 | over every run in which both take or refuse each Put, they hold the same blobs |
| `Stores.PutThenGet` | internal/storage/memory.go:76-97 | whatever is done to other identifiers, Get before the expiry returns the stored bytes from the offset on |
| `Stores.UsedAfter` | internal/storage/memory.go:63-71 | storing and deleting move the sum by exactly the bytes concerned |
| `Providers.MemoryProvider.Put` | internal/storage/memory.go:39-73 | the method does the Put step and keeps the counter right |
| `Providers.MemoryProvider.Get` | internal/storage/memory.go:76-97 | the method does the Get step; an expired blob is dropped |
| `Providers.MemoryProvider.Delete` | internal/storage/memory.go:100-111 | deletes at most the named blob |
| `Providers.MemoryProvider.Exists` | internal/storage/memory.go:114-130 | reports an unexpired blob, drops an expired one |
| `Providers.MemoryProvider.Stat` | internal/storage/memory.go:133-149 | reports size and expiry of an unexpired blob, drops an expired one |
| `Providers.LocalProvider.Put` | internal/storage/local.go:109-169 | the copying loop stores exactly the first `size` bytes if it succeeds and changes nothing if not; with a live context and a sound disk it succeeds exactly if the rule says so |
| `Providers.CopyToTemp` | internal/storage/local.go:128-151 | the loop copies exactly `size` bytes, or reports a short reader or a context that ended |
| `Providers.LocalProvider.DirUsed` | internal/storage/local.go:64-79 | the loop adds up the sizes of all blobs |
| `Providers.LocalProvider.Get` | internal/storage/local.go:172-206 | the method does the Get step of the expiring map |
| `Providers.LocalProvider.Delete` | internal/storage/local.go:209-219 | deletes at most the named blob |
| `Providers.LocalProvider.Exists` | internal/storage/local.go:222-245 | reports an unexpired blob, drops an expired one |
| `Providers.LocalProvider.Stat` | internal/storage/local.go:248-262 | reports size and expiry of an unexpired blob, drops an expired one |
| `Providers.LocalProvider.Sweep` | internal/storage/local.go:82-106 | the loop removes exactly the expired blobs |
| `Ids.RelayIdsAmongStorageIds` | internal/relay/server.go:212-226 | the relay's identifiers are the storage package's up to 128 characters without a double dot |
| `Access.UnlockUndoesLock` | internal/app/app.go:361-470 | in all four modes, through their priority, the matching secret recovers the file key; locking fails only where X25519 refuses the public key |
| `Access.LockAccess` | internal/app/app.go:361-415 | the method writes the access block of the first mode that applies, or leaves the manifest alone |
| `Access.UnwrapUndoesWrap` | internal/crypto/crypto.go:372-436 | the recipient's private key recovers a wrapped file key, with either unwrapper |
| `Access.UnwrappersAgree` | internal/app/filecrypt.go:298-325 | the two unwrappers agree on every input, though one checks the length before and the other after opening |
| `Access.HexLength` | internal/app/app.go:472-482 | a string of hexadecimal digits decodes if and only if its length is even, to half as many bytes |
| `Access.HexRoundTrip` | internal/drops/manager.go:241-260 | a key written in hexadecimal reads back as it was |
| `Drops.CreateThenRetrieve` | internal/drops/manager.go:152-423 | Create, anything done to other drops, then Retrieve before the expiry with the file key, the recipient's key (no password set) or the password: the source comes back, the drop is VERIFIED, a one-time payload is gone |
| `Drops.RetrieveIsHonest` | internal/drops/manager.go:384-413 | whatever bytes the store returns and whatever key is used, nil means the destination is the original plaintext (unless the two collide under the hash), and no failing call marks a drop VERIFIED |
| `Drops.RetrieveTakesOnlyTheWholeFile` | internal/drops/manager.go:384-413 | whatever body the store presents behind the file's header, with only this file's chunks sealed under the key and no collision between the source and its chunk prefixes: Retrieve succeeds if and only if the sealed file was presented whole |
| `Drops.StatusesAgree` | internal/drops/manager.go:112-130 | along every run outside ghost mode, through failures, re-creation and restarts, memory and database agree on each drop both know; in ghost mode no row is written |
| `Drops.CallKeeps` | internal/drops/manager.go:152-460 | each call keeps that, on every failure path |
| `Drops.CreatedIsIntact` | internal/drops/manager.go:274-297 | a Create without error leaves the manifest, the sealed payload and the status READY |
| `Drops.CreateMarks` | internal/drops/manager.go:169-287 | a failing Create marks FAILED and leaves an earlier drop's manifest and payload alone, a successful one marks READY |
| `Drops.RetrieveMarks` | internal/drops/manager.go:357-423 | the status and destination of every outcome of Retrieve: nothing marked before the download but an expiry, DELIVERED if the download fails, FAILED if it does not decrypt or verify, VERIFIED only on success |
| `Drops.OthersKeepIntact` | internal/drops/manager.go:152-460 | calls on other drops leave a drop's manifest and payload alone |
| `Drops.EntitledResolves` | internal/drops/manager.go:301-354 | the key material that belongs to a drop resolves to its file key |
| `DropManager.Manager.SetStatus` | internal/drops/manager.go:112-119 | memory always, the row only outside ghost mode and only if it is there |
| `DropManager.Manager.Remember` | internal/drops/manager.go:121-130 | manifest and status of one drop |
| `DropManager.Manager.Create` | internal/drops/manager.go:152-298 | over the sealing loop and the memory store, with a source that may break and a full temporary disk, the method does the create step with the status of every path |
| `DropManager.Manager.Publish` | internal/drops/manager.go:263-297 | sign, validate and upload, by the store's own verdict |
| `DropManager.Manager.Upload` | internal/drops/manager.go:274-296 | payload, manifest and row appear together, exactly if the store takes the Put |
| `DropManager.Manager.Retrieve` | internal/drops/manager.go:357-423 | over the store's Get and the opening loop, the method does the retrieve step with the status and the destination of every path |
| `DropManager.Manager.Fetch` | internal/drops/manager.go:375-403 | download and decryption |
| `DropManager.Manager.Check` | internal/drops/manager.go:405-422 | digest, status, row, and the end of a one-time payload |
| `DropManager.Manager.Revoke` | internal/drops/manager.go:426-436 | the payload goes, then the status |
| `DropManager.Manager.Ask` | internal/drops/manager.go:439-460 | the expiry first, then memory, then the database |
| `EventBus.SubscribersSeeASubsequence` | internal/events/bus.go:36-69 | in every interleaving nothing is sent on a closed channel; a subscriber's received and buffered events are a subsequence of those offered to it, all of them if its buffer was never full; it was offered each publish that ended during its subscription once, and none overtaken by a later one |
| `EventBus.SequentialPublishesKeepOrder` | internal/events/bus.go:57-69 | if publishes do not overlap, exactly the events published during the subscription, in order |
| `EventBus.OverlappingPublishesMayCross` | internal/events/bus.go:57-69 | if they overlap, two subscribers may see them in opposite orders |
| `EventBus.StepKeepsInv` | internal/events/bus.go:36-69 | every micro-step keeps the invariant |
| `EventBus.Bus.Publish` | internal/events/bus.go:57-69 | the loop gives the event to every open channel with room, in any order, and touches nothing else |
| `EventBus.Bus.Subscribe` | internal/events/bus.go:36-44 | a new open channel with the asked buffer, or 32 |
| `EventBus.Bus.Unsubscribe` | internal/events/bus.go:45-52 | closes the channel once |
| `EventBus.Bus.Receive` | internal/events/bus.go:98-108 | takes the oldest buffered event |

## Left out

- HTTP plumbing, JSON, base64, SQLite, the file system below whole-file operations, QR codes, DERO RPC, wallet, UI, CLI, configuration, notifications, zip and URL handling: I/O or thin wrappers; JSON and base64 are taken as the identity on what they carry.
- `identity`, `payments`, `Backoff`, `Retry`, `CopyWithProgress`, `HashingReader`, filename checks, `Wipe`: they would add only easy members.
- Argon2id's cost, randomness and memory wiping: drawn values are parameters, Argon2id is an abstract function.
- Collision resistance and AEAD integrity as such: hypotheses of the theorems that conclude from them, for the strings concerned.
- `bufio` buffering in the sealers and openers: a write either fits the disk or leaves the part that fits.
- Two DirectDrop sessions on one destination at a time, and someone altering the unauthenticated ACK and FIN bytes: not modelled; frames altered on the way are covered by `DirectDropLoops.NilMeansVerified` only.
- DirectDrop progress callbacks.
- `DirectDropLoops.Send`: takes a source that can be read through, as Send has already read it once for its digest; source and destination are different files; a frame that could be written only in part counts as not sent.
- `RelayHandlers.Server.DeleteLocked`: a failed removal of a file, which the relay ignores, is not modelled.
- `RelayHandlers.Server.ReloadTokens`: records that cannot be read or parsed, which the source skips, are not modelled.
- `RelayServer.Open`: what ServeContent makes of a Range header, and writes that overlap a GET's streaming, are not modelled; the two critical sections of a one-time GET are separate steps.
- `RelayServer.Describe`: a record whose expiry does not parse counts as expired in the source; here a record always has one, as creation checks it.
- Get, Delete, Exists, Stat and Health of the relay client: one HTTP request each. Get takes a full 200 reply for the asked range, which is not modelled.
- The per-drop locks of the relay: each critical section is one step. The relay's byte counters for statistics.
- Relay quota as an invariant: creating a drop reserves nothing, so it is not one.
- `RelayUpload.SharedUploadsAreSafe`: the drop is neither deleted nor expires while the run lasts, and the source is not empty and shorter than 2^63-1 bytes; for the other sizes see `RelayResume.EmptyPayloadIsRefused` and `RelayServer.RunsAreSafe`.
- `RelayResume.ResumeCompletes`: the expiry, the size check and the token are in order, which is what its hypothesis asks.
- `TokenBucket.WindowBound`: over real numbers; rounding of float64 is not modelled.
- `Stores.MemoryAccounting`: each call is atomic, although Get has two critical sections; the byte counters are unbounded, so an overflow beyond 2^63 stored bytes is not modelled.
- `Providers.LocalProvider.Put`: a disk that fails between the two renames is not modelled; there the old sidecar would stay without its blob.
- Identifiers that are not valid: the local store's Exists and Stat do not check them; here nothing is stored under one.
- `Drops.CreateThenRetrieve`: with both a recipient and a password the wrapped key is the password's, so the recipient's key is covered only without a password.
- `Drops.StatusesAgree`: database calls succeed, and one call runs at a time.
- `DropManager.Manager.Remember`: a manifest is not saved to the manifest directory, and `DropManager.Manager.Retrieve` does not load one from it.
- `DropManager.Manager.Ask`: the manifest directory and the health check of the store for an unknown drop are not modelled.
- `DropManager.Manager.Create`: the manager works over the memory store; the local store is the same map by `Stores.SameRun`.
- REVOKED as a final status and at-most-once delivery of one-time drops: not so in the source, as Retrieve marks DELIVERED before it fetches and the relay streams outside the lock.
- App-level Send and Receive through the relay, and folders: only the envelope and the access block of that path are modelled.
- `EventBus.SequentialPublishesKeepOrder`: of a bus at rest; the clock stamp of an event and the SSE text are not modelled.
