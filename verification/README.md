# clienthellod in Dafny

clienthellod fingerprints clients from the first bytes they send: the TLS
ClientHello of a TCP connection, and the QUIC Initial packets of a UDP one. This
project models its core and proves what that core is meant to guarantee. Verify
it with `dafny verify dfyconfig.toml`.

The path of a QUIC client, bottom up:

- `Vli`, `Reader`, `FrameParser`: variable-length integers, the reader that
  pushes bytes back, and the loop that reads every frame of a payload.
- `Xor`, `Nonce`, `InitialPacket`: header-protection removal and the split of an
  Initial into header, packet number, ciphertext and tag. The mask and the AEAD
  are function parameters.
- `Reassembly`, `Batch`: the CRYPTO stream put together fragment by fragment, and
  the second implementation that sorts and concatenates.
- `HeaderPreimage`, `TransportParameters`: what the two QUIC hashes are fed.
- `Gathering`: the packets of one connection, until the ClientHello is whole.
- `Publication`, `QuicExpiry`: completion seen by concurrent readers, and the
  map of gatherers, as systems whose steps interleave in any way.
- `EndToEnd`: all of it in one theorem. Whatever the order of the datagrams, with
  repeats and with datagrams that do not decode among them, the gatherer
  recovers the client's message, its packets in number order and the header
  fingerprint.
- `Fingerprinter`, `ManyClients`: the map from sources to gatherers, and the same
  theorem for any number of clients at once.

The path of a TLS client: `Stream` (capture of a record and replay of the
connection), `Extensions` and `ClientHello` (extension walking, field filling and
the normalised fingerprint), `TlsLayout` (what the TLS hash is fed, byte by byte),
`TlsExpiry` (the map of captured hellos).

`Bytes`, `Options`, `Sorting` and `Frames` hold what the others share.

Code that updates state is a class or a method with loops, each proved equal to a
function of the old state: `Reassembly.Add`, `Gathering.Arrive`,
`FrameParser.Parse`, `InitialPacket.Decode` and so on. The theorems are about
these functions, over all runs. Each decoder has an encoder written from the RFC
as its partner, in both directions where the code accepts nothing else; each hash
input has its layout and a theorem that says what it tells apart; and the result
of each call, errors included, is told from its cause.

What the proofs turned up about the code:

- The cap of 32 fragments is compared with `>`, so 33 may be pending. A cut of a
  message into any number of pieces completes, in a given order, just when no
  arrival finds more than 32 earlier pieces waiting for one before them
  (`CompletesIff`; `GathersIff` says the same of packets). So up to 33 pieces
  complete in every order, and 34 or more fail when the first piece comes last.
- What is read back may be longer than the message that the header declares
  (`MoreThanDeclared`); `ReadBackExact` says when it is not.
- `maxCRYPTOLength` is 0x10000, which is 64 KiB; its comment says 10 KiB.
- A gatherer with no deadline set has the zero time as deadline and takes no
  packet (`UnsetDeadlineGathersNothing`). `NewQUICFingerprinter` makes such
  gatherers, since its timeout is zero.
- The comment on `ReadClientHello` says all bytes read are kept for the caller to
  replay. On input that ends early the capture is padded with zero bytes; it is
  what was read just under the condition of `CaptureIsWhatWasRead`.
- A QUIC expiry timer deletes its key whatever the map holds by then, so it may
  remove a newer gatherer of the same source (`StaleTimerRemovesNewer`). For each
  source this is ruled out, over a whole run, just when the source is never
  popped while present (`OwnIffNotPopped`), and a deletion left behind by a pop
  can always come to do it (`HarmlessIffOwn`). The TLS map compares before it
  deletes and has no such case (`LeavesOnlyBy`).
- A TLS handler that has found the fingerprinter open may store after `Close`
  (`StoreAfterClose`); nothing more can be stored just when those handlers are
  done (`NothingStoredIff`).
- The record built around a QUIC ClientHello holds its length modulo 65536, so
  it reads back whole just when the message is shorter than that
  (`RecordReadsBack`).

## Model

| member | source | states |
|---|---|---|
| `Reassembly.Reconstructor.constructor` | quic_clienthello_reconstructor.go:20-31 | starts with an empty buffer, nothing pending and no length learned |
| `Reassembly.Reconstructor.ClashesWithPending` | quic_clienthello_reconstructor.go:57-63 | the loop over the map finds a clash if and only if some pending fragment overlaps the new one |
| `Reassembly.Reconstructor.AddCRYPTOFragment` | quic_clienthello_reconstructor.go:50-116 | new state and result are those of `Add`: same order of checks, drain loop, learned length, end of message |
| `Reassembly.Reconstructor.ReconstructAsBytes` | quic_clienthello_reconstructor.go:119-127 | the buffer once the declared length is there, else nothing |
| `Reassembly.Reconstructor.FromFrames` | quic_clienthello_reconstructor.go:139-159 | feeds CRYPTO frames in order until one completes the message or fails; state and result are those of `Feed` |
| `Reassembly.AddKeepsInv` | quic_clienthello_reconstructor.go:50-116 | every call, accepted or rejected, keeps the invariant that ties buffer, pending map and learned length to the saved fragments |
| `Reassembly.AddGrows` | quic_clienthello_reconstructor.go:85-95 | the buffer is append-only |
| `Reassembly.Refinement` | quic_clienthello_reconstructor.go:53-95 | after any calls the buffer is the one longest gap-free prefix of the saved fragments; pending fragments start strictly beyond it, do not overlap, and are just what it lacks |
| `Reassembly.GapFreePrefixUnique` | quic_clienthello_reconstructor.go:46-50 | disjoint fragments have one longest gap-free prefix, so the reference definition determines the buffer |
| `Reassembly.BoundedStorage` | quic_clienthello_reconstructor.go:41-83 | in every reachable state at most 33 fragments are pending and buffer plus pending bytes are at most 65536 |
| `Reassembly.OversizedNeverCompletes` | quic_clienthello_reconstructor.go:99-113 | once the header declares more than 65536 bytes, no continuation returns end-of-message or yields bytes |
| `Reassembly.SavedIff` | quic_clienthello_reconstructor.go:51-80 | a non-empty fragment is saved if and only if it overlaps no saved one, ends by 65536 and at most 32 are pending |
| `Reassembly.AddResultIs` | quic_clienthello_reconstructor.go:50-116 | the result of any call, from the fragments saved before alone: duplicate of one still waiting, overlap with one waiting or with the gap-free prefix, too many waiting, too high an offset or declared length, end of message, or nil; a refused fragment changes nothing |
| `Reassembly.RefusesIff` | quic_clienthello_reconstructor.go:50-80 | among non-empty fragments, one is refused if and only if it overlaps a saved one, more than 32 are waiting, or it ends beyond 65536 |
| `Reassembly.FeedStops` | quic_clienthello_reconstructor.go:139-159 | feeding frames makes the calls in order up to and with the first that does not return nil, and that one decides the result, a failure included |
| `Reassembly.DeclaresItselfIff` | quic_clienthello_reconstructor.go:99-105 | a message declares its own length if and only if it is a handshake message: type, length of the body in three bytes, body |
| `Reassembly.AnyOrderCompletes` | quic_clienthello_reconstructor.go:50-127 | a message cut into at most 33 non-empty pieces, added in any order: every add returns nil but the last, which returns end-of-message, and the message is read back |
| `Reassembly.CompletesIff` | quic_clienthello_reconstructor.go:50-127 | for a message cut into any number of pieces, in a given order: every add returns nil but the last, which returns end-of-message, and the message is read back, if and only if no arrival finds more than 32 earlier pieces beyond the gap-free prefix of what came before |
| `Reassembly.PendingIsWaiting` | quic_clienthello_reconstructor.go:71-95 | the pending map holds as many fragments as lie beyond the first gap, counted from the fragments alone |
| `Reassembly.MorePiecesRejected` | quic_clienthello_reconstructor.go:71-74 | 33 is sharp: with more pieces and the first one last, the 34th add is refused |
| `Reassembly.ReadBackExact` | quic_clienthello_reconstructor.go:119-127 | after any calls, the bytes read back begin with the declared message, and are no more than it if and only if no saved fragment holds a byte where it ends |
| `Reassembly.TiledReadBack` | quic_clienthello_reconstructor.go:50-127 | a cut of m whose header declares at most its length is read back whole if and only if its order flows, and m is then the declared message if and only if it has the declared length |
| `Reassembly.MoreThanDeclared` | quic_clienthello_reconstructor.go:111-127 | a fragment that holds more than the declared message is read back whole |
| `Reassembly.FeedPieces` | quic_clienthello_reconstructor.go:139-159 | feeding a packet's frames adds the next pieces, and reports completion exactly with the last |
| `Reassembly.FeedRefused` | quic_clienthello_reconstructor.go:139-159 | feeding a packet of which one fragment is refused adds the pieces before it and none after |
| `Reassembly.FeedKeepsLacks` | quic_clienthello_reconstructor.go:139-159 | while a piece is missing, feeding any other pieces never completes the message |
| `Batch.CollectCRYPTO` | quic_frame.go:72-79 | the type-filtering loop keeps the CRYPTO fragments in order |
| `Batch.JoinSorted` | quic_frame.go:90-100 | the loop over sorted fragments yields their concatenation or a gap error, as `Join` defines |
| `Batch.ReassembleCRYPTOFrames` | quic_frame.go:71-101 | the result is `Join` of the CRYPTO fragments sorted by offset |
| `Batch.JoinIff` | quic_frame.go:90-100 | sorted non-empty fragments from offset 0 join to b if and only if they are a cut of b |
| `Batch.JoinAnywhereIff` | quic_frame.go:81-100 | the same wherever the first fragment starts, with offsets counted from it; with no fragment the result is empty and not an error |
| `Batch.StreamsIff` | quic_clienthello_reconstructor.go:50-95 | adding any number of fragments one by one rejects none, leaves nothing pending and assembles b if and only if they are a cut of b in an order that flows |
| `Batch.BatchAgreesWithStreaming` | quic_frame.go:71-101 | streaming rejects none, leaves nothing pending and assembles b if and only if batch returns b, under any sort of equal offsets, and the order flows; with at most 33 frames every order does |
| `Gathering.GatheredClientInitials.constructor` | quic_client_initial.go:93-127 | a new gatherer is empty, with its limits and its own reconstructor |
| `Gathering.GatheredClientInitials.AddPacket` | quic_client_initial.go:129-178 | new state and result are those of `Arrive`: expiry, absorption, window, cap, duplicate discard, sort, reassembly, completion |
| `Gathering.GatheredClientInitials.FindNumber` | quic_client_initial.go:155-159 | the loop finds a packet of that number if and only if there is one |
| `Gathering.GatheredClientInitials.KeepAndFeed` | quic_client_initial.go:161-177 | new state and result are those of `Gathered`: the packet in its place, its frames fed, completion |
| `Gathering.GatheredClientInitials.GatherComplete` | quic_client_initial.go:190-213 | new state and result are those of `Finish`; a failed parse leaves no ClientHello and no completion |
| `Gathering.ArriveIs` | quic_client_initial.go:129-213 | each answer of a call has its own cause: expired, rejected by count or window, nil, a failed reassembly with its error, a failed parse; a packet is taken in if and only if it is in time, wanted, within the limits and new |
| `Gathering.RunKeepsInv` | quic_client_initial.go:137-167 | after any arrivals, packets are strictly increasing in number, within the cap and within the window of the base, which is a member's number; completed if and only if there is a ClientHello |
| `Gathering.Absorbing` | quic_client_initial.go:137-139 | once the ClientHello is set, no later arrivals change anything |
| `Gathering.GathersIff` | quic_client_initial.go:129-178 | a message cut into any number of fragments over packets within the limits, in any arrival order before the deadline with any repeats: the packets are all kept, sorted; the message, its parse and the header hash are recovered if and only if the fragments, by first arrival of their packets, flow; else the gatherer never completes |
| `Gathering.OrderIndependence` | quic_client_initial.go:129-178 | with at most 33 fragments, every arrival order before the deadline, with any repeats, ends with the same sorted packets, the same message, its parse, and the same header hash |
| `Gathering.RepeatedArrival` | quic_client_initial.go:155-159 | in any reachable gatherer and at any time, a packet whose number is there already changes no part of the state |
| `Gathering.EmptyIffAllLate` | quic_client_initial.go:133-135 | a gatherer stays as created if and only if every arrival is after the deadline |
| `Gathering.UnsetDeadlineGathersNothing` | quic_fingerprint.go:115-120 | with no deadline set, no packet is ever gathered |
| `Publication.HeldWasAccepted` | quic_clienthello.go:34-42 | in every interleaving, a ClientHello that the gatherer holds was parsed as it stands by some writer, and has transport parameters without a parse error |
| `Publication.FirstAcceptedStays` | quic_client_initial.go:137-193 | once set, the ClientHello is never replaced, whatever else is parsed |
| `Publication.RunKeepsInv` | quic_client_initial.go:190-213 | in every interleaving of writers and readers, the flag is set only after all that it publishes |
| `Publication.PublishedForGood` | quic_client_initial.go:181-213 | what is published once the flag is set never changes |
| `Publication.PublicationSafety` | quic_client_initial.go:190-265 | a reader past `Wait` gets a ClientHello, its error-free parameters and the ID of the packets gathered, all final; the divergent error is unreachable; the channel is closed at most once |
| `Publication.WriterCompletes` | quic_client_initial.go:190-213 | a writer with a usable hello comes to publish it, its parameters and the ID of the packets gathered, and closes the channel |
| `Publication.WriterGivesUp` | quic_client_initial.go:190-196 | with a hello that cannot be used, nothing is published and the mutex is free again |
| `Publication.LateReaderReads` | quic_client_initial.go:251-254 | after completion `Wait` returns at once, and the reader reads all that is published |
| `Publication.WaitingReaderReads` | quic_client_initial.go:256-265 | a waiting reader is woken by the closed channel and reads the same |
| `Publication.EarlyReaderWaits` | quic_client_initial.go:251-258 | before completion a reader waits, and only its timer can end that |
| `Vli.DecodeLoop` | quic_common.go:55-60 | the shift loop computes the big-endian value with the prefix bits cleared |
| `Vli.NextInvertsEncode` | quic_common.go:24-63 | reading undoes encoding in every legal width and stops where the encoding ends |
| `Vli.DecodeIff` | quic_common.go:66-76 | a slice decodes if and only if its length is what its prefix announces, and to v if and only if it is the encoding of v in that width |
| `Vli.NextOnlyEncoded` | quic_common.go:24-63 | what is read before the input ends is an encoding, and what is left is what follows it |
| `Vli.NextCutOff` | quic_common.go:24-63 | an encoding cut off after its first byte is an error, and cut off later is read with zeros for what is missing |
| `Vli.DecodersAgree` | fingerprint_hash.go:25-31 | on every such slice the 64-bit fold of the cleared bytes gives the same value |
| `Reader.ByteReader.RewindReader` | internal/utils/rewindreader.go:19-28 | the pushed-back bytes come first, then the rest of the reader below; with none it is that reader |
| `Reader.ByteReader.Read` | internal/utils/rewindreader.go:32-43 | through any stack of rewound readers, a read takes exactly the next bytes of the logical input; exactly when it reports the end |
| `FrameParser.ReadNextVLI` | quic_common.go:24-63 | over the reader, value, width and bytes left are those of `NextVli`, short reads included |
| `FrameParser.ReadPadding` | quic_frame.go:141-160 | consumes the run of zeros and pushes back the byte that ends it |
| `FrameParser.ReadCrypto` | quic_frame.go:191-208 | offset, length and data as `NextCrypto` reads them |
| `FrameParser.ReadAllFrames` | quic_frame.go:32-67 | terminates on every input despite push-back, with the result of `Parse` |
| `FrameParser.ParsePrefix` | quic_frame.go:32-67 | written frames are read one by one, whatever follows them, even what fails |
| `FrameParser.ParseInvertsSerialise` | quic_frame.go:32-67 | every list of PADDING, PING and CRYPTO frames, in any legal widths, is read back with adjacent PADDING merged |
| `FrameParser.UnknownFails` | quic_frame.go:46-56 | a frame of any other type, wherever it comes, fails the payload |
| `FrameParser.CryptoCutOff` | quic_frame.go:191-208 | a CRYPTO frame cut off in its data is filled up with zeros, and fails if none of its data is there |
| `InitialPacket.SplitPacket` | quic_common.go:96-199 | on success every slice that the later steps take is in range |
| `InitialPacket.UnmaskNumber` | quic_common.go:223-229 | the loop unmasks the packet number, accumulates its value and appends it to the associated data |
| `InitialPacket.RemoveProtection` | quic_common.go:213-232 | first byte, packet number, associated data, ciphertext and tag are those of `Unprotect` |
| `InitialPacket.DecodeQUICHeaderAndFrames` | quic_common.go:96-250 | header and frames, or the error, are those of `Decode` |
| `InitialPacket.SplitInverts` | quic_common.go:96-199 | the fields of any version-1 Initial are recovered, whatever follows the packet |
| `InitialPacket.DecodeInvertsProtect` | quic_common.go:96-250 | for every legal Initial, mask function, opening function and trailing bytes, the decoder opens exactly the sealed body under the sent number with the unprotected header as associated data, and yields its frames |
| `InitialPacket.DecodeErrors` | quic_common.go:96-199 | which datagrams give which error: too short, not a long header, not an Initial, another version than 1, and malformed if and only if it is of the right kind and not a protected Initial |
| `InitialPacket.DecodeIff` | quic_common.go:96-250 | a datagram decodes to a packet if and only if it is a legal Initial, protected, with anything after it, that opens to the header and frames of that packet |
| `InitialPacket.TypesOnWire` | quic_frame.go:118-126 | the frame types that the header hash is fed are just those on the wire |
| `Nonce.BuildIV` | quic_crypto.go:123-127 | the in-place loop makes the IV the nonce of section 5.3 of RFC 9001 |
| `Nonce.NonceTwice` | quic_crypto.go:123-127 | building twice restores the IV |
| `Nonce.NonceCarries` | quic_crypto.go:123-127 | the first four bytes are those of the IV, and over the other eight lies the packet number in network byte order |
| `Nonce.NonceInjective` | quic_crypto.go:123-127 | under one IV, distinct 64-bit packet numbers get distinct nonces |
| `HeaderPreimage.DedupInPlace` | fingerprint_hash.go:241-252 | overwriting the slice while reading it yields `Dedup` of the old contents |
| `HeaderPreimage.DedupIsSet` | fingerprint_hash.go:241-252 | on sorted input the result is strictly increasing with the same members |
| `HeaderPreimage.WritePreimage` | fingerprint_hash.go:182-209 | the hash is fed `Preimage`, step by step |
| `HeaderPreimage.PreimageInjective` | fingerprint_hash.go:182-209 | two hash inputs are equal if and only if version, ID lengths, number length, token flag and the set of frame types are |
| `TransportParameters.ParseQUICTransportParameters` | quic_transport_parameters.go:46-152 | the loop's IDs and kept values are those of `Scan`, on an error too, when they are what was filled until then |
| `TransportParameters.ScanPrefix` | quic_transport_parameters.go:56-87 | written parameters are recorded one by one, whatever follows them, even what fails |
| `TransportParameters.ScanCutOff` | quic_transport_parameters.go:68-87 | extension data cut off inside a value fails, keeping all parameters before and the ID of the one cut off |
| `TransportParameters.ScanNoLength` | quic_transport_parameters.go:56-66 | one that ends before the length of a parameter fails, keeping nothing of it |
| `TransportParameters.ScanInvertsSerialise` | quic_transport_parameters.go:46-152 | a written parameter list, in any legal widths, is read back |
| `TransportParameters.SummaryIds` | quic_transport_parameters.go:68-146 | the ID list is sorted and is the multiset of the IDs, with 27 for each that is 31 * n + 27 |
| `TransportParameters.FieldDecodes` | quic_transport_parameters.go:89-134 | a kept parameter that is a variable-length integer in any width is hashed as its value |
| `TransportParameters.WritePreimage` | fingerprint_hash.go:216-238 | the hash is fed the IDs and then the eleven values |
| `TransportParameters.HashedWords` | fingerprint_hash.go:216-238 | the place of every listed ID and of each of the eleven values in the hash input, by parameter ID |
| `TransportParameters.GreaseIff` | quic_common.go:85-87 | an ID is taken for reserved if and only if it is 31 * n + 27 for some n |
| `TransportParameters.PreimageInjective` | fingerprint_hash.go:216-238 | two hash inputs are equal if and only if the ID lists and the eleven values are |
| `TransportParameters.PreimageCanonical` | fingerprint_hash.go:216-238 | the hash input is unchanged by reordering and by any change of the ID or value of a reserved parameter |
| `TransportParameters.WireCanonical` | quic_transport_parameters.go:46-152 | the same of extension data on the wire, in any legal widths |
| `Extensions.RawWalk.ParseKeyShares` | clienthello.go:290-308 | the loop appends the groups and lengths that it reads, and succeeds if and only if the data is well formed |
| `Extensions.RawWalk.ParseExtensionExtra` | clienthello.go:286-316 | one raw extension is kept as `Keep` says, and yields its ID with a reserved one replaced |
| `Extensions.RawWalk.ParseExtensionsExtra` | clienthello.go:263-284 | the cursor loop yields the IDs of `WalkBlock`, or its error; the IDs are stored on success only, the rest is kept in any case |
| `Extensions.SharesInvertWrite` | clienthello.go:290-308 | a written list of key shares is well formed and its groups and lengths are read back |
| `Extensions.KeepInvertsWrite` | clienthello.go:263-316 | walking a written block keeps what each of its extensions gives, in order |
| `Extensions.WalkInvertsWrite` | clienthello.go:263-316 | a written extension block yields its IDs in order with reserved ones replaced, and fails if and only if a key share is malformed |
| `Extensions.WalkIff` | clienthello.go:263-316 | a block is walked to a list of IDs if and only if it is a list of acceptable extensions with these IDs, reserved ones replaced |
| `Extensions.ExtensionOkIff` | clienthello.go:286-316 | an extension is acceptable if and only if it is not a key share, or is two bytes and a list of key shares |
| `Extensions.AlpnKept` | clienthello.go:288-289 | the last ALPN extension is kept as it is |
| `Extensions.SharesKept` | clienthello.go:290-308 | of the key share extension the groups, reserved ones replaced, and lengths are kept |
| `Extensions.UngreaseIs` | fingerprint_hash.go:44-56 | just the sixteen reserved values of RFC 8701 are replaced, by 0x0A0A |
| `Extensions.UngreasePSKIs` | fingerprint_hash.go:62-69 | just the eight reserved modes are replaced, by 0x0B |
| `Extensions.UngreaseALPNIs` | fingerprint_hash.go:72-77 | just the names that are the two bytes of a reserved value are replaced |
| `ClientHello.Capture.constructor` | clienthello.go:70-71 | no field is filled |
| `ClientHello.Uint16ToUint8` | internal/utils/typeconv.go:3-9 | the two bytes of each value, in order |
| `ClientHello.Capture.ParseExtension` | clienthello.go:147-197 | one extension does to the fields what `Fill` and `Copy` say: append, replace, parse the transport parameters, and copies with their lengths |
| `ClientHello.Capture.ParseExtensions` | clienthello.go:145-199 | the loop does so for each extension in turn |
| `ClientHello.CopiesMirror` | clienthello.go:145-199 | with no type repeated, each length-prefixed copy is its field once under its length, present just when the extension is |
| `ClientHello.FillAllPermutes` | clienthello.go:145-199 | extensions that fill distinct fields may be permuted |
| `ClientHello.WritePreimage` | fingerprint_hash.go:89-173 | the hash is fed `Preimage`, or `NormalPreimage` for the normalised fingerprint |
| `ClientHello.PreimageClean` | fingerprint_hash.go:89-173 | the hash input does not depend on which reserved values were sent |
| `ClientHello.UngreaseIff` | fingerprint_hash.go:44-56 | two values are made equal if and only if they are equal or both reserved |
| `ClientHello.NormalInvariant` | fingerprint_hash.go:89-173 | the normalised hash input is unchanged by permuting extensions of distinct non-reserved types and by swapping reserved values in ciphers, extension IDs, groups, signature algorithms, ALPN, key shares, PSK modes and versions |
| `ClientHello.ParsedInvertsWrite` | clienthello.go:145-316 | parsing a written message gives its IDs and fields, and fails if and only if a key share in it is malformed |
| `ClientHello.WireInvariant` | clienthello.go:248-316 | the invariance of the normalised hash input, on messages as written |
| `TlsLayout.Layout` | fingerprint_hash.go:89-173 | the thirteen parts of the hash input are each at their place, after those before |
| `TlsLayout.U16sWritten` | fingerprint_hash.go:96-99 | each value of a list is written in two bytes, high byte first, reserved ones replaced |
| `TlsLayout.VersionTells` | fingerprint_hash.go:93-94 | with all else fixed, hash inputs are equal if and only if the handshake versions are |
| `TlsLayout.CiphersTell` | fingerprint_hash.go:96-99 | the same of cipher suites, up to reserved values |
| `TlsLayout.CompressionTells` | fingerprint_hash.go:101-102 | the same of compression methods |
| `TlsLayout.ExtensionsTell` | fingerprint_hash.go:104-111 | the same of extension IDs in order, up to reserved values |
| `TlsLayout.GroupsTell` | fingerprint_hash.go:113-116 | the same of groups, up to reserved values |
| `TlsLayout.PointsTell` | fingerprint_hash.go:118-119 | the same of point formats |
| `TlsLayout.SignaturesTell` | fingerprint_hash.go:121-124 | the same of signature algorithms, up to reserved values |
| `TlsLayout.AlpnTells` | fingerprint_hash.go:126-133 | the same of protocol lists, up to reserved names, for names shorter than 256 bytes |
| `TlsLayout.KeySharesTell` | fingerprint_hash.go:135-138 | the same of key share groups, up to reserved values |
| `TlsLayout.ModesTell` | fingerprint_hash.go:140-143 | the same of PSK modes, up to reserved modes |
| `TlsLayout.VersionsTell` | fingerprint_hash.go:145-148 | the same of supported versions, up to reserved values |
| `TlsLayout.CertificatesTell` | fingerprint_hash.go:150-157 | the same of certificate compression algorithms |
| `TlsLayout.SizeLimitTells` | fingerprint_hash.go:159-164 | the same of record size limits; one of zero is not told from none |
| `TlsLayout.NormalTells` | fingerprint_hash.go:104-111 | normalised hash inputs are equal if and only if the multisets of replaced extension IDs are |
| `TlsLayout.PrefixesAreLengths` | clienthello.go:145-199 | each length prefix of a copy is the number of bytes after it, cut to its width |
| `TlsLayout.FieldsAre` | clienthello.go:145-199 | with no type repeated, each field holds what its own extension says, or nothing if there is none |
| `TlsExpiry.RunKeepsInv` | tls_fingerprint.go:47-134 | in every interleaving each stored hello has its own timer, pending or about to start |
| `TlsExpiry.EmptyWhenAllFired` | tls_fingerprint.go:57-66 | once all timers have fired the map is empty |
| `TlsExpiry.LeavesOnlyBy` | tls_fingerprint.go:57-121 | a hello leaves only by its own timer, a pop of its key or a newer hello, so an older timer never removes a newer hello |
| `TlsExpiry.StaysUntil` | tls_fingerprint.go:57-121 | until then it stays, through any other steps |
| `TlsExpiry.ClosedForGood` | tls_fingerprint.go:47-134 | once closed and with no handler left that was admitted before, nothing is stored again |
| `TlsExpiry.StoreAfterClose` | tls_fingerprint.go:48-57 | a handler admitted before can still store after the close, in any run |
| `TlsExpiry.NothingStoredIff` | tls_fingerprint.go:47-134 | after a close, no continuation has an entry that was not there before if and only if no handler admitted before is left |
| `TlsExpiry.OpenStores` | tls_fingerprint.go:47-57 | a handler that finds the fingerprinter open stores a hello of its own |
| `TlsExpiry.PopRemoves` | tls_fingerprint.go:117-121 | a pop removes the entry at once |
| `TlsExpiry.EntryExpires` | tls_fingerprint.go:57-66 | from any run, an entry goes once its own goroutine has started and its timer has fired |
| `QuicExpiry.RunKeepsInv` | quic_fingerprint.go:115-142 | in every interleaving each key present has its own deletion pending |
| `QuicExpiry.EmptyWhenAllFired` | quic_fingerprint.go:122-135 | once no handler owes a timer and all have fired, the map is empty |
| `QuicExpiry.HandlerKept` | quic_fingerprint.go:122-142 | the source and the gatherer of a handler never change |
| `QuicExpiry.OneGatherer` | quic_fingerprint.go:122-142 | every handler that looks a source up between the insertion of its gatherer and the removal, the inserting one included, feeds that gatherer and no other |
| `QuicExpiry.FedOnlyWhilePresent` | quic_fingerprint.go:122-142 | and only they feed it: whatever a gatherer was fed came from its own source, by a handler that looked it up while it was in the map |
| `QuicExpiry.OwnUntilPop` | quic_fingerprint.go:122-135 | a step leaves the pending deletions of a source aimed at its own gatherer if and only if it is not a pop of that source while present |
| `QuicExpiry.OwnIffNotPopped` | quic_fingerprint.go:122-135 | over a whole run and for each source, all deletions stay its gatherer's own if and only if that source is never popped while present |
| `QuicExpiry.StaleHarms` | quic_fingerprint.go:125-135 | from any reachable state, a deletion that is not its gatherer's own is after at most two further steps, none of them a pop, about to remove a foreign gatherer, and its expiry then does |
| `QuicExpiry.HarmlessIffOwn` | quic_fingerprint.go:125-135 | after any run, no continuation without a pop of the source lets a timer remove a foreign gatherer if and only if all its pending deletions are its gatherer's own |
| `QuicExpiry.StaleTimerRemovesNewer` | quic_fingerprint.go:243-247 | the shortest run in which an old timer removes a newer gatherer |
| `QuicExpiry.LookupChooses` | quic_fingerprint.go:122-135 | a lookup finds the gatherer that is there, or stores a new one and owes its timer |
| `QuicExpiry.HandlerFeeds` | quic_fingerprint.go:137-142 | every handler comes to feed its packet to the gatherer it chose |
| `QuicExpiry.PopRemoves` | quic_fingerprint.go:243-247 | a pop removes the entry at once |
| `QuicExpiry.EntryExpires` | quic_fingerprint.go:125-135 | from any reachable state, an entry goes by its own timer after at most one other step |
| `Stream.CaptureIsWhatWasRead` | clienthello.go:70-89 | capture plus what is left is the stream if and only if the header, and the record if it is a handshake, are whole |
| `Stream.CapturedBytes` | clienthello.go:70-89 | what is captured of any stream, what is left, and success if and only if it begins with a whole handshake record |
| `Stream.RewindConn.constructor` | internal/utils/rewindconn.go:20-33 | the captured bytes are to be replayed before the connection |
| `Stream.RewindConn.Read` | internal/utils/rewindconn.go:36-46 | bytes and state are those of `ReadConn` |
| `Stream.Transparent` | tls_fingerprint.go:72-97 | any reads on the rewound connection deliver the client's stream from its first byte, with nothing lost, repeated or reordered |
| `Stream.Progress` | internal/utils/rewindconn.go:36-46 | a read gets bytes while any are left, but for exactly one empty read when the replay ends |
| `Stream.BuildRecord` | quic_clienthello.go:13-21 | the indexed writes and the copy build the record |
| `Stream.RecordReadsBack` | quic_clienthello.go:13-28 | the record is read back whole if and only if the message is shorter than 65536 bytes, and otherwise cut short |
| `EndToEnd.HandleAllIsRun` | quic_fingerprint.go:105-142 | for one source, handling datagrams is a run of its gatherer over those that decode |
| `EndToEnd.DecodeSent` | quic_client_initial.go:24-45 | a sealed and protected Initial, with anything after it, decodes to the packet sent |
| `EndToEnd.RecoveredIff` | quic_fingerprint.go:88-143 | for a message cut into any number of fragments: the client's packets are all kept, and the message is recovered if and only if its fragments flow |
| `EndToEnd.ClientHelloRecovered` | quic_fingerprint.go:88-143 | from protected datagrams in any order, repeated, amid others that do not decode: the client's message, its packets sorted, its parse and the header fingerprint |
| `EndToEnd.OneInitialSuffices` | quic_fingerprint.go:88-143 | a message in one Initial is recovered from its one datagram |
| `Fingerprinter.QUICFingerprinter.constructor` | quic_fingerprint.go:66-80 | no gatherer, open, with its timeout |
| `Fingerprinter.QUICFingerprinter.HandlePacket` | quic_fingerprint.go:88-143 | nothing once closed or if the datagram does not decode; else the gatherer of its source, or a new one whose deadline runs from now, takes the packet; map and result are those of `Next` and `Handled` |
| `Fingerprinter.HandledIs` | quic_fingerprint.go:101-113 | nil without more if and only if the datagram is long enough and not a version-1 Initial; a packet is taken in if and only if it is a protected Initial that opens; the map is left alone otherwise |
| `Fingerprinter.QUICFingerprinter.Delete` | quic_fingerprint.go:125-128 | the source is gone from the map, and no other is touched |
| `Fingerprinter.QUICFingerprinter.Close` | quic_fingerprint.go:291-293 | closed, with the map as it was |
| `ManyClients.SourceAlone` | quic_fingerprint.go:88-143 | in any interleaving of sources and removals, a source is in the map if and only if one of its datagrams decoded since its last removal, and its gatherer is what those datagrams alone make of a new one, with the deadline set by the first that decoded and at most 4 packets, numbered at most 32 apart |
| `ManyClients.EveryClientRecovered` | quic_fingerprint.go:88-143 | for any number of clients at once, each with at most 4 Initials numbered at most 32 apart and all its datagrams within the timeout of the first that decodes: message, packets, parse and header fingerprint are recovered if and only if its own fragments flow |
| `ManyClients.LateChangesNothing` | quic_fingerprint.go:115-120 | a datagram later than the timeout after the first of its source that decoded changes nothing |
| `ManyClients.NoTimeoutGathersNothing` | quic_fingerprint.go:115-120 | with no timeout set, no source ever gathers a packet |

## Left out

- AES, GCM, HKDF and SHA-1: the mask, the opening of a payload and the hash are function parameters, and the fingerprints are stated on hash inputs.
- Parsing by the TLS library: its typed extension list is an input, and parsing a whole ClientHello is a function parameter of the gatherer.
- `parseExtra` before the extension block: it only skips over fields, with nothing to prove beyond the bounds that `cryptobyte` checks.
- Parsing one ClientHello object twice, which appends to fields already filled.
- `UNSET_VLI_BITS` set to false: the flag has its default value, true.
- RewindConn: the error for a nil connection is not modelled.
- Sockets, capture loops, UDP parsing, panic recovery, and everything under modcaddy.
- Finalizers: an object stays live while referenced.
- Allocation for declared lengths: sequences have no cost here, so a large declared length in a frame or parameter is read as zeros and not as an allocation failure.
- `SetDeadline`, `SetMaxPacketNumber` and `SetMaxPacketCount` after packets have arrived: the limits of a gatherer are fixed.
- Elapsed time: a timer may fire at any step, and the time of an arrival is a parameter.
- `Close` of the QUIC fingerprinter in `QuicExpiry`: a handler may look up at any time, which includes every run with a close in it.
- QUICFingerprinter: its map holds gatherers by value and a call is one step, so a gatherer still fed by a handler after its removal is not captured there; `QuicExpiry` has such handlers, and `GatheredClientInitials` the update in place.
- The final SHA-1 of `GenerateQUICFingerprint`: what it reads is modelled in `Publication`, its three words are not.
- `DedupIntArr`, JSON output, hexadecimal forms and accessors: nothing to prove.
- AddCRYPTOFragment: offsets are unbounded, so the wrap of a 64-bit sum is not modelled; an offset read from a variable-length integer is below 2^62 and cannot reach it.
- `sort.Slice`: an insertion sort stands for it, and where keys may be equal (`BatchAgreesWithStreaming`) the theorem holds for every sorted permutation.
- The TLS hash input is not claimed to be injective: it has no length prefixes.
