# Bitmancer, modelled and proved

Bitmancer is a client for a mesh of radios: packets flood from node to node, files travel in fragments, private
messages run through Noise sessions, a gateway lends its internet connection, a mailbox holds mail for peers who
are away. This project models the protocol layer under `src/` and proves what it promises. `dafny verify
dfyconfig.toml` checks everything.

How it is laid out:

- `Wire`, `WireLayout`: the packet codec, and its frames byte by byte.
- `Relay`, `Flood`, `FloodRules`, `FloodTermination`, `FloodReach`, `FloodOrder`, `FloodRounds`: the relay decision with
  its once-only memory (`FifoMemory`), the flood as a distributed protocol of nodes, links and copies in flight, what it
  must hold back and pass on, and how far it carries under which delays.
- `Fragment`, `AssemblerHistory`, `FilePacket`, `FileTransfer`, `FileWord`, `FieldLayouts`: splitting and reassembly, the
  file format, the path of a file from one end to the other through all four layers, and the bytes inside payloads.
- `NoiseCipher`, `NoiseHandshake`, `NoiseMachine`, `NoiseSession`, `NoiseDelivery`, `NoiseHalfOpen`, `NoisePayload`,
  `NoiseTranscript`, `NoiseRegister`: the replay window, the token machine of XX, IK, NK and X as functions and as the
  objects of the source, sessions and their manager, what holds over whole runs, which payloads a reader accepts, and
  what every handshake writes and mixes, in full. It follows sections 5.1 to 5.3, 6, 7.4, 7.5 and 11.4 of the Noise
  Protocol Framework, revision 34.
- `Gateway`, `GatewayRuns`, `GatewayLoops`, `GatewayAnswers`: the carrying policy, its budgets, its mailbag, its loop
  memory, and its answers from the history of calls alone.
- `Courier`, `Texts`, `Mailbox`, `ShelfLimits`, `ShelfFile`, `ShelfText`, `MailboxRuns`, `MailboxMail`,
  `MailboxAnswers`: envelopes, the shelf and its file.
- `Topology`, `TopologyWord`, `Geohash`, `GeohashLaws`, `GeohashNumbers`, `GeohashGrid`, `GeohashExact`,
  `MessageSplit`, `SplitLaw`: islands, cells and the text splitter.

Objects the source changes in place are classes whose methods are proved against functions on values; runs are
sequences of those values, one step between each two, and the main results are about all runs.

## What the code does that its words do not say

The model follows the code; these are the places where comments, documentation or expectation say otherwise.

- A file transfer fits the air only up to the 65535 bytes a version 1 frame can count, not the 1 MiB of the file
  format, because the transfer packet is made as version 1 (`FileTransfer.FramesExactlyWhen`).
- The size of a slice is reasoned without the sender id: a full fragment frame is 248 bytes and goes out unpadded
  (`FileTransfer.FragmentFrameSize`).
- Decoding a second time after unpadding never succeeds where the first try failed (`Wire.RetryNeverHelps`).
- A fragment repeated after its stream completed opens the stream again; exactly when is
  `Fragment.LateDuplicateReopensExactlyWhen`.
- A flood need not reach everyone within its TTL, even if nothing is lost: with free delays a short-lived copy may use
  up a node's one forward (`FloodReach.DelayLosesReach`). Every node nearer than that takes up a copy of a shortest way
  exactly if no node takes up a copy before one with more hops left (`FloodOrder.StrongestFirstExactlyWhen`), and then
  everyone is reached; delivering the oldest copy first is enough (`FloodOrder.OldestIsHighest`), in rounds or not.
- Events learned from the mesh are said never to be published, uplinked ones to be published at most once. A deposit in
  the mailbag is not looked at again when the relays are back: one that was noted from the mesh meanwhile goes out
  (`GatewayLoops.NotedThenPublished`), one that was published meanwhile goes out twice
  (`GatewayLoops.PublishedThenHandedOver`), and so does one that was deposited twice (`GatewayLoops.HeldTwice`). Over
  all runs, exactly those do (`GatewayLoops.HandedOverAgainExactlyWhen`, `GatewayLoops.LoopMemory`); a caller who checks
  that an id is not held before noting or offering it avoids it (`GatewayLoops.GuardedRunsAreClean`).
- Noting an id from the mesh again does not make it newer: the 512 newer ids of `GatewayLoops.LoopMemory` count from
  when it was taken as new (`GatewayLoops.NotingAgainDoesNotRefresh`).
- Initiating a handshake on a half-open session is not a retry: it always fails, and spoils the handshake under way
  (`NoiseHalfOpen.InitiateExactlyWhen`, `NoiseHalfOpen.SecondOpeningSpoils`). Two nodes that open to each other at
  once both lose (`NoiseHalfOpen.SimultaneousOpening`).
- A payload that does not authenticate is said to fail the message (`src/noise_protocol.rs:1238-1248`), so that nobody
  can blank a message whose sender still authenticates. An empty one never fails: it is read as the empty text, without
  a tag. Exactly that and what was sealed is accepted (`NoisePayload.PayloadAcceptedExactlyWhen`), so an envelope cut
  to 80 bytes reads as an empty text from its sender (`NoisePayload.BlankedMail`), and a handshake whose last tag is
  gone still establishes both sessions; only their handshake hashes, of transcripts with and without that tag, tell it
  (`NoisePayload.BlankedHandshake`).
- Encoding the centre of a geohash gives the geohash back, in exact arithmetic, exactly if no character was passed over
  (`GeohashLaws.CenterExactlyWhen`), and the child grid is one to one, in exact arithmetic, exactly while cells are
  wider than the tolerance that merges their centres (`GeohashGrid.GridExactlyWhen`). Floats lose both earlier, beyond
  the seventeen characters up to which they are exact (`GeohashExact.BisectionIsExact`); of the code, both are claimed
  up to the twelve characters a geohash may have (`GeohashExact.CenterUpToTwelve`, `GeohashGrid.TwelveIsAGrid`).
- Splitting text never ends if a character of an over-long word is wider than the budget, and ends otherwise
  (`MessageSplit.SplitEndsExactlyWhen`); both budgets of the source, 99 and 255, are wide enough
  (`MessageSplit.FourIsEnough`).

## What is assumed

- Cryptography is ideal (`NoiseCrypto.Laws`): Diffie-Hellman commutes, honest public keys are 32 bytes and valid, and
  a text opens exactly if it was sealed under the same key, nonce and associated data. Hash and key derivation are
  any functions. `SecureChannel` asks of each arriving frame that it opens only if it was sent
  (`NoiseCipher.Authentic`); `SecondOpeningSpoils` asks of one attempt that its sealed key is bound to its transcript
  (`NoiseHalfOpen.Distinct`).
- The 64-bit digest of a forwarded packet is injective on sender, recipient, timestamp, type and payload; the
  fingerprint of an envelope on tag, expiry and ciphertext.
- Time, fresh ephemeral keys, packet times and identifiers are parameters; the clock of the budget and mailbox runs
  does not go back.
- Writing the mailbox file succeeds, and the file is changed by nobody else.

## Model

| member | source | states |
|---|---|---|
| Wire.EncodeWithPadding | src/protocol.rs:159-231 | the bytes put out section by section are exactly `Encoded`: header, route, recipient, payload, signature, padded if asked; every refusal of the source is a `None` |
| Wire.DecodePacket | src/protocol.rs:233-245 | the frame is read as it is, and if that fails once more without its padding: `Decode` |
| Wire.DecodeFrame | src/protocol.rs:247-373 | the offset-driven reader, section by section, computes `DecodeCore` |
| Wire.RoundTrip | src/protocol.rs:159-244 | every well-formed packet encodes and decodes to itself, padding or not, with no help from the unpadding retry |
| Wire.RoundTripIff | src/protocol.rs:159-373 | an encodable packet comes back as it was if and only if it is well formed |
| Wire.DecodedIsWellFormed | src/protocol.rs:247-373 | whatever decodes satisfies the conditions of the round trip |
| Wire.ReencodeIsStable | src/protocol.rs:159-244 | for every raw frame that decodes, re-encoding and decoding gives the same packet |
| Wire.FrontIgnoresTail | src/protocol.rs:247-373 | bytes after the signature never change what is decoded |
| Wire.RetryNeverHelps | src/protocol.rs:235-244 | a frame that does not decode as it stands does not decode unpadded either |
| Wire.TruncationIsRefused | src/protocol.rs:247-373 | an unpadded frame cut anywhere before its end is refused, never misread |
| Wire.UnpadPad | src/protocol.rs:392-418 | unpadding undoes padding to any block within 255 bytes (section 6.3 of RFC 5652) |
| Wire.PaddedSize | src/protocol.rs:377-403 | the size on the air for every length: its block of 256, 512, 1024 or 2048, or the bare frame where padding would take more than 255 bytes or is not due |
| Wire.SigningBytesPinPacket | src/protocol.rs:141-149 | two well-formed packets have the same signing bytes if and only if they agree in everything but the TTL, the RSR flag and the signature |
| FifoMemory.Memory.Insert | src/relay.rs:113-125 | an id is new exactly if it is not among the last `limit` newly inserted ones; set and deque stay that window of the full history |
| FifoMemory.Memory.Contains | src/gateway.rs:101-103 | answers membership in the last `limit` newly inserted ids |
| FifoMemory.RunsAreSpaced | src/relay.rs:113-125 | over any run of offers, an id is accepted again only after `limit` newer ids |
| FifoMemory.RefusedUntilCrowdedOut | src/relay.rs:113-125 | an accepted id is still refused while fewer than `limit` ids have followed it |
| Relay.RelayPacket | src/main.rs:1689-1699 | policy before memory: the packet goes on, one TTL less, exactly if the plan forwards it and it was not forwarded before, and only then is it remembered |
| Relay.RelayPlan | src/main.rs:1680-1701 | the frame put out for a frame that came in, and what is remembered |
| Relay.HopChangesOnlyTtl | src/main.rs:1687-1700 | the relayed frame decodes to the same packet with the TTL one less and the same signing bytes |
| Relay.ChainChangesOnlyTtl | src/relay.rs:87-90 | over any number of hops the TTL falls by exactly the number of hops and nothing else changes |
| Relay.ChainDecodes | src/main.rs:1680-1701 | every frame of a chain of relays decodes |
| Flood.ForwardingRules | src/transport.rs:200-211 | a copy sent on leaves over a real link, never the ingress one, never from the origin, with a TTL in 2..7 before and one less after |
| Flood.RunAccounts | src/relay.rs:39-126 | over any run, what a node sent is a full fan for each origination and one link less for each forward |
| Flood.RunKeepsSpacing | src/relay.rs:113-125 | every node forwards a packet again only after 1024 others, in any run |
| Flood.NodeInRun | src/relay.rs:39-126 | while no more than 1024 packets intervene a node forwards a packet at most once and its sender never |
| Flood.FloodIsBounded | src/main.rs:1680-1701 | one flood costs at most deg(origin) plus the sum of (deg(v) - 1) transmissions, whatever the order, loss and other traffic |
| Flood.CopiesAreConserved | src/transport.rs:200-211 | every copy ever sent is in flight, delivered or lost |
| Flood.FloodTerminates | src/main.rs:1680-1701 | deliveries and losses of one packet, with what is in flight, never exceed that bound |
| FloodTermination.EveryFloodEnds | src/relay.rs:39-91 | with nothing new originated, any run of deliveries and losses is no longer than the weight of what is in flight, even if nodes forget |
| FloodReach.LockstepReach | src/relay.rs:39-91 | in lossless lockstep rounds a broadcast of TTL T reaches every node at distance d <= T in round d, every copy of that round carrying T - d + 1 |
| FloodReach.FloodEnds | src/relay.rs:87-90 | round T is the last |
| FloodReach.DelayLosesReach | src/main.rs:1689-1697 | a lossless run on five nodes in which the low-TTL copy arrives first and a node three links away, within TTL 3, is never reached |
| FloodReach.DetourIsValid | src/main.rs:1689-1697 | the five nodes of that run are a net: links between known nodes, both ways, listed once |
| FloodOrder.StrongestFirstExactlyWhen | src/relay.rs:39-91 | in any run that loses nothing, whatever the delays and the other traffic, every node at distance d < T takes up a copy with TTL T - d + 1 if and only if no node takes up a copy before one with more hops left |
| FloodOrder.ReachesExactlyWithin | src/relay.rs:39-91 | and then a node is handed a copy if and only if it is within T links of the sender |
| FloodOrder.HighestFirstOvertakesNone | src/relay.rs:39-91 | deliveries by hops left, most first, meet that condition |
| FloodOrder.OldestIsHighest | src/relay.rs:39-91 | so do deliveries in the order of sending, because those are by hops left, most first |
| FloodOrder.DetourOvertaken | src/main.rs:1689-1697 | the run on five nodes loses nothing and breaks the condition at the node behind the detour |
| FloodRounds.LockstepIsARun | src/relay.rs:39-91 | lockstep rounds are a run of the network that loses nothing, delivers most hops left first, and delivers every copy of every round |
| Fragment.ChunksJoin | src/fragment.rs:72-93 | the slices of a body, in order, are the body |
| Fragment.SplitShape | src/fragment.rs:72-93 | a body splits into the rounded-up number of slices, or into none if that is zero or above 10000 |
| Fragment.ParseSplit | src/fragment.rs:95-118 | each piece parses to its own id, index, total, type and slice |
| Fragment.Assembler.Expire | src/fragment.rs:211-214 | exactly the assemblies whose 30 seconds are over go |
| Fragment.Assembler.Append | src/fragment.rs:156-208 | the new table and the answer are `Appended`: capacity, changed total, duplicate, size limit, completion |
| Fragment.AppendKeeps | src/fragment.rs:120-208 | in every reachable table each assembly counts its filled slots, below its total, and its bytes within the limit, and there are at most 128 |
| Fragment.FullExactlyWhenCovered | src/fragment.rs:196-207 | an assembly is full exactly if every index has come |
| Fragment.StreamStep | src/fragment.rs:156-208 | one piece of a stream: completion with exactly the body if it was the last missing one, a duplicate refused, else pending |
| Fragment.OtherStep | src/fragment.rs:156-208 | a piece of one stream leaves every other stream as it was |
| Fragment.Reassembly | src/fragment.rs:156-208 | up to 128 streams interleaved in any order with duplicates: each arrival answers as for its own stream alone |
| Fragment.LateDuplicateReopensExactlyWhen | src/fragment.rs:159-175 | a piece that comes again after its stream completed opens it again exactly if there is room and the stream has other pieces |
| FilePackets.Encode | src/file_packet.rs:63-99 | the fields appended in order are `Encoded`, or nothing if the content is too large |
| FilePackets.Decode | src/file_packet.rs:101-165 | the cursor loop, wide content length with fall-back to a narrow one, computes `Decoded` |
| FilePackets.RoundTrip | src/file_packet.rs:63-165 | what was encoded decodes to it with the true size and without names too long for their field |
| FilePackets.NarrowContentIsRead | src/file_packet.rs:101-135 | content written with a two-byte length by an older client is read too |
| FileTransfer.FramesExactlyWhen | src/mesh.rs:1205-1269 | `file_frames` succeeds if and only if there is content and the transfer packet fits a two-byte length |
| FileTransfer.FramesAreTheTransfers | src/mesh.rs:1205-1269 | the frames of the end-to-end results are those `file_frames` returns |
| FileTransfer.FragmentFrameSize | src/mesh.rs:1255-1269 | no fragment frame is longer than 256 bytes; a full slice makes 248, unpadded |
| FileTransfer.MeshService.Receive | src/mesh.rs:1273-1381 | a frame from the air changes the assembler and tells the user what `HandleFrame` says: for a file its sender, title, type, content and whether it is an image |
| FileTransfer.TransferIsCarried | src/mesh.rs:1205-1269 | each frame of a transfer decodes to the fragment it was made from |
| FileTransfer.WholeTransferYieldsFile | src/mesh.rs:1285-1381 | the reassembled packet is dispatched as a file with the original content |
| FileTransfer.HoldsWhatCame | src/mesh.rs:1322-1365 | until the last frame is in, the assembler holds exactly the frames that came |
| FileTransfer.FileArrivesWithLastFrame | src/mesh.rs:1205-1381 | end to end, in any order, with duplicates, among frames of up to 127 other streams and anything else: the original content arrives exactly with the frame still missing and not before |
| NoiseCipher.CipherState.Check | src/noise_protocol.rs:191-202 | the window test is `IsValidNonce` |
| NoiseCipher.CipherState.Mark | src/noise_protocol.rs:205-224 | the window and the highest nonce become `Marked` |
| NoiseCipher.CipherState.Encrypt | src/noise_protocol.rs:258-336 | ciphertext, prefix and counter are `Encrypted` |
| NoiseCipher.CipherState.Decrypt | src/noise_protocol.rs:338-423 | result and new state are `Decrypted`; a failed frame changes nothing |
| NoiseCipher.ValidExactlyWhenNew | src/noise_protocol.rs:191-202 | a nonce is let in exactly if it is inside the window and was never accepted |
| NoiseCipher.WindowRefinesHistory | src/noise_protocol.rs:191-224 | over any run from a fresh key the highest nonce is the largest accepted one and the window is exactly the accepted nonces within 1024 of it |
| NoiseCipher.WindowIsBounded | src/noise_protocol.rs:205-224 | the window never holds more than 1024 nonces |
| NoiseCipher.SenderNumbersFrames | src/noise_protocol.rs:258-336 | encrypting in order numbers the frames in order |
| NoiseCipher.DeliveredExactlyWhen | src/noise_protocol.rs:338-423 | with frames reordered, repeated, dropped or forged, one is delivered exactly if it was sent, is inside the window and was not delivered before, with its own text |
| NoiseCipher.DeliveredAtMostOnce | src/noise_protocol.rs:338-423 | no nonce is delivered twice |
| NoiseCipher.PrefixWraps | src/noise_protocol.rs:250-256 | beyond 2^32 frames the four-byte prefix wraps and such a frame never opens |
| NoiseMachine.SymmetricState.MixKey | src/noise_protocol.rs:457-463 | chaining key and cipher key from the key derivation, counter and window reset |
| NoiseMachine.SymmetricState.EncryptAndHash | src/noise_protocol.rs:489-498 | text sealed under the transcript hash once there is a key, and the result mixed in |
| NoiseMachine.SymmetricState.DecryptAndHash | src/noise_protocol.rs:500-561 | its counterpart; the hash is mixed only if the text opens |
| NoiseMachine.SymmetricState.Split | src/noise_protocol.rs:563-582 | two fresh transport ciphers with prefixed nonces |
| NoiseMachine.HandshakeState.constructor | src/noise_protocol.rs:649-718 | protocol name, prologue and the responder static key of the pre-message mixed in |
| NoiseMachine.HandshakeState.WriteMessage | src/noise_protocol.rs:720-946 | the token loop: state and message are `Written`, and a failure leaves what had changed before it |
| NoiseMachine.HandshakeState.ReadMessage | src/noise_protocol.rs:948-1278 | the token loop over an offset: state and payload are `Read`, errors included |
| NoiseMachine.HandshakeState.GetTransportCiphers | src/noise_protocol.rs:1284-1299 | refused before completion; else the pair in the order of the role |
| NoiseHandshake.CipherPair | src/noise_protocol.rs:489-561 | what one side seals and hashes the other opens and hashes to the same state |
| NoiseHandshake.TokenInStep | src/noise_protocol.rs:738-945 | one token written and read keeps both ends in step, whatever bytes follow it |
| NoiseHandshake.MessageInStep | src/noise_protocol.rs:720-1278 | one message: the reader gets exactly the payload and both ends agree on hash, chaining key, key and nonce |
| NoiseHandshake.TablesRun | src/noise_protocol.rs:1322-1369 | no pattern ever asks for a key its ends do not have, and each exchanges the static keys it should |
| NoiseHandshake.Lockstep | src/noise_protocol.rs:720-1278 | for XX, IK, NK and X, any prologue, keys and payloads, both ends agree after every message |
| NoiseHandshake.HandshakeCompletes | src/noise_protocol.rs:1284-1299 | at completion each side sends under the key the other receives under, with one handshake hash and the static keys exchanged |
| NoiseHandshake.SealedMailOpens | src/courier.rs:220-260 | an untouched envelope opens for the recipient with the payload and the sender's static key |
| NoisePayload.PayloadAcceptedExactlyWhen | src/noise_protocol.rs:1231-1278 | once the tokens of a message can be read, any bytes after them are read as a text if and only if they seal it under the current key, nonce and hash, or there are none and the text is empty |
| NoisePayload.AlteredPayload | src/noise_protocol.rs:1231-1278 | between two ends in step, for every pattern, a message whose payload was replaced is read exactly as what the new bytes seal under the writer's key, nonce and hash; no bytes are read as the empty text |
| NoisePayload.BlankedInStep | src/noise_protocol.rs:500-526 | a message cut off after its tokens is read as empty; both ends have the same keys and each other's public keys, the hashes differ by the ciphertext |
| NoisePayload.AlteredMail | src/courier.rs:220-260 | whatever follows the first 80 bytes of an envelope is read, if at all, as from its sender, and exactly as the text it seals under the sender's key, or as empty if nothing follows |
| NoisePayload.BlankedMail | src/courier.rs:220-260 | an envelope of 96 bytes more than its payload, cut to 80, reads as an empty text from its sender |
| NoisePayload.BlankedHandshake | src/noise_session.rs:75-250 | XX with the last tag taken off: both sessions are established, seal and open for each other and know each other's key; the handshake hashes are of transcripts with and without the tag |
| NoisePayload.BlankedSecond | src/noise_protocol.rs:500-526 | XX with the second message's tag taken off: the third fails to open, unless what is sealed under one nonce and hash opens under the others |
| NoiseSessions.NoiseSession.ProcessHandshakeMessage | src/noise_session.rs:75-250 | a message read, answered unless it was the last, and the session established when the handshake is complete |
| NoiseSessions.NoiseSession.Encrypt | src/noise_session.rs:254-264 | only an established session seals, and only its sending cipher moves |
| NoiseSessions.NoiseSession.Decrypt | src/noise_session.rs:266-276 | only an established session opens, and only its receiving cipher moves |
| NoiseSessions.NoiseSessionManager.InitiateHandshake | src/noise_session.rs:519-590 | opens a session if there is none and writes the next handshake message of the one there is |
| NoiseSessions.NoiseSessionManager.HandleIncomingHandshake | src/noise_session.rs:592-654 | an established session is left alone; else the message goes to the session, made if need be, and a new fingerprint is filed |
| NoiseSessions.NoiseSessionManager.RemoveSession | src/noise_session.rs:437-453 | session and fingerprint are forgotten |
| NoiseSessions.NoiseSessionManager.HandleNoiseHandshake | src/mesh.rs:813-848 | a failed handshake message clears the session |
| NoiseDelivery.StepOnUp | src/noise_session.rs:592-618 | nothing but removal ends an established session and handshake messages do not touch it |
| NoiseDelivery.SessionSurvives | src/noise_session.rs:254-276 | over any run without a removal keys and remote identity stay and the receiving cipher sees exactly the frames of its peer |
| NoiseDelivery.FramesAreNumbered | src/noise_session.rs:254-264 | over any run the sending side numbers its frames from zero |
| NoiseDelivery.SecureChannel | src/noise_session.rs:254-276 | between two established sessions a text is delivered exactly if its frame was sent, is inside the window and was not delivered before, and never twice |
| NoiseDelivery.ChannelOpens | src/noise_session.rs:519-654 | three messages between two managers establish both sessions, each other's counterpart, and touch no other session |
| NoiseHalfOpen.ReachableShapes | src/noise_session.rs:519-654 | in every reachable manager an opened session waits for the second message, an answered one for the third, and any other is up with both ciphers |
| NoiseHalfOpen.InitiateExactlyWhen | src/noise_session.rs:559-580 | in every reachable state initiating succeeds exactly if the peer has no session, and sealing exactly if it has an established one |
| NoiseHalfOpen.OpeningOnHalfOpen | src/mesh.rs:830-841 | an opening message finds a half-open session unable to read it and clears it |
| NoiseHalfOpen.SimultaneousOpening | src/noise_session.rs:519-654 | two nodes that open to each other at once both fail and are left with no session |
| NoiseHalfOpen.SecondOpeningSpoils | src/noise_session.rs:559-580 | a second opening while the first is being answered fails and makes the answer unreadable, so the session is lost |
| Gateways.Gateway.AcceptUplink | src/gateway.rs:172-237 | the refusals in order, the budget, publishing or queueing: state and answer are `Uplinked` |
| Gateways.Gateway.AcceptDownlink | src/gateway.rs:258-281 | the refusals in order and the airtime budget: state and answer are `Downlinked` |
| Gateways.Gateway.TakeHeld | src/gateway.rs:244-250 | everything held is handed over and its ids are recorded as published |
| Gateways.Gateway.SetEnabled | src/gateway.rs:147-155 | switching off drops the mailbag and says how much |
| Gateways.Gateway.NoteCarriedOnMesh | src/gateway.rs:162-164 | the id is recorded as carried on the mesh |
| Gateways.Prune | src/gateway.rs:302-309 | stamps a minute old or more leave from the front |
| GatewayRuns.BudgetsHold | src/gateway.rs:283-309 | over any run, no half-open minute holds more than 10 accepted deposits of a peer or 30 broadcasts |
| GatewayRuns.TooFastExactlyWhen | src/gateway.rs:203-205 | a deposit is refused as too fast exactly if the tenth last accepted one is less than a minute old |
| GatewayRuns.MailbagBounded | src/gateway.rs:213-236 | at most 20 deposits are held, at most 5 of one peer |
| GatewayLoops.MemoriesSpaced | src/gateway.rs:82-104 | over any run no memory takes an id as new twice within 512 others |
| GatewayLoops.HeldIsTraced | src/gateway.rs:213-250 | over any run, what the mailbag holds are the deposits queued at known steps, oldest first |
| GatewayLoops.HandedOverAgainExactlyWhen | src/gateway.rs:162-250 | over any run, handing over a deposit repeats an id remembered from the mesh, one remembered as published, or a later item of the mailbag, if and only if while it was held its id was noted or published, fewer than 512 newer ids ago, or queued again |
| GatewayLoops.StaysCleanExactlyWhen | src/gateway.rs:147-281 | one step makes the mailbag repeat something if and only if it notes, publishes or queues an id that is in it |
| GatewayLoops.GuardedRunsAreClean | src/gateway.rs:147-281 | a caller who never notes or offers an id that is held is never handed a repetition |
| GatewayLoops.NotedThenPublished | src/main.rs:1113-1122 | an event queued and then noted from the mesh is handed to the relays while still remembered |
| GatewayLoops.PublishedThenHandedOver | src/main.rs:1113-1122 | an event queued and then published live is handed to the relays again |
| GatewayLoops.HeldTwice | src/gateway.rs:213-250 | an event deposited twice while the relays are down is held twice and handed over twice |
| GatewayLoops.LoopMemory | src/gateway.rs:162-281 | before 512 newer ids, what was published live or newly noted from the mesh is carried again if and only if the mailbag had it all along and is handed over |
| GatewayLoops.CarriedOnce | src/gateway.rs:244-281 | what the mailbag handed over as new is carried again, and what was broadcast is broadcast again, only after 512 newer ids |
| GatewayLoops.NotingAgainDoesNotRefresh | src/gateway.rs:82-99 | noting an id again does not renew it: the oldest goes with the next new one |
| Courier.New | src/courier.rs:78-95 | refused exactly if the ciphertext is empty or too large; the copy budget is clamped |
| Courier.Encode | src/courier.rs:106-125 | the fields pushed are `Encoded`, copies and prekey left out where they say nothing |
| Courier.Decode | src/courier.rs:130-178 | the offset loop computes `Decoded` |
| Courier.RoundTrip | src/courier.rs:106-178 | encoding and decoding changes at most the copy budget, clamped |
| Courier.RoundTripExactlyWhen | src/courier.rs:106-178 | an envelope comes back as it was if and only if its copy budget is one to eight |
| Courier.DecodedIsStable | src/courier.rs:130-178 | whatever decodes is well formed and decodes again from its own encoding |
| Courier.UnknownFieldsAreCarried | src/courier.rs:130-178 | an unknown field between any two others changes nothing that is read |
| Mailboxes.Mailbox.OpenAt | src/mailbox.rs:109-120 | what the file holds that has not expired |
| Mailboxes.Mailbox.Accept | src/mailbox.rs:147-207 | refusals, pruning, duplicate, quotas, eviction and saving: state and answer are `Deposited` |
| Mailboxes.Mailbox.MakeRoom | src/mailbox.rs:214-228 | the oldest stranger's item goes, or for a favourite the oldest of all, or nothing |
| Mailboxes.Mailbox.Collect | src/mailbox.rs:235-250 | exactly the addressed items are handed over, in order, and leave the shelf |
| Mailboxes.Mailbox.Prune | src/mailbox.rs:253-261 | exactly the expired items leave |
| Mailboxes.Mailbox.SetEnabled | src/mailbox.rs:135-144 | switching off empties the shelf and its file |
| Mailboxes.Mailbox.Save | src/mailbox.rs:311-338 | the file becomes the rows of the shelf, or goes if there are none |
| Mailboxes.Mailbox.Wipe | src/mailbox.rs:297-303 | shelf, count and file are gone |
| ShelfLimits.AcceptedExactlyWhen | src/mailbox.rs:147-228 | a deposit is accepted if and only if the mailbox is on, the expiry is in range, the mail is new, the share is not full, and there is or can be made room |
| ShelfLimits.StrangersEvictNoFavourite | src/mailbox.rs:214-228 | a deposit from no favourite never costs a favourite an item that had not expired |
| ShelfFile.SavedIsRead | src/mailbox.rs:311-366 | order, envelopes, depositors, tiers and times are read back as saved |
| ShelfFile.ReadBackExactlyWhen | src/mailbox.rs:311-366 | a saved shelf reads back as it was if and only if no depositor name has a tab or a line feed in it |
| MailboxRuns.RunIsSound | src/mailbox.rs:109-303 | over any run, restarts included, the shelf keeps its limits and the file stands for it |
| MailboxRuns.ShelfLimitsHold | src/mailbox.rs:34-46 | in every reachable state at most 40 items, 20 verified, 5 per depositor of which 2 verified, no mail twice, and no item that expires more than 25 hours after it was stored |
| MailboxRuns.NothingIsLost | src/mailbox.rs:135-303 | every accepted item is in exactly one of held, collected, evicted, expired and discarded |
| MailboxRuns.RestartRestores | src/mailbox.rs:109-120 | a mailbox with a file, opened again at any later time, has exactly what is still in date |
| Topologies.Build | src/topology.rs:93-117 | the loop over announcements computes `Built` |
| Topologies.BuiltIsWellMade | src/topology.rs:93-117 | direct peers are exactly those announced, the last announcement counting, and no claim names us or its maker |
| Topologies.ClaimedEdges | src/topology.rs:159-190 | the pairs are exactly the two sorted ends of each claimed link |
| Topologies.OnePairEach | src/topology.rs:159-190 | two linked peers make one pair and not two |
| Topologies.Adjacency | src/topology.rs:199-214 | each peer's neighbours are exactly those it claims or is claimed by |
| Topologies.Explore | src/topology.rs:217-235 | the queue loop ends with everything reached and no neighbour left out |
| Topologies.IslandsWithoutUs | src/topology.rs:198-238 | the islands are nonempty, disjoint, cover everyone known, and two peers share one if and only if a path of claims joins them |
| Topologies.WeAreABridge | src/topology.rs:241-243 | true if and only if two known peers have no path but through us |
| Geohash.Encode | src/geohash.rs:81-123 | the bit loop puts out the digits of the bisection |
| Geohash.BoundingBox | src/geohash.rs:174-210 | the loop over characters narrows to `CellOf` |
| Geohash.DecodeCenter | src/geohash.rs:292-326 | the centre of the bounding box |
| GeohashLaws.CellsPartition | src/geohash.rs:81-123 | encoding a point gives a geohash if and only if the point is in its cell, half open but for the end of the world |
| GeohashLaws.BoxHoldsPoint | src/geohash.rs:81-210 | the box of a point's geohash holds the clamped point |
| GeohashLaws.CenterExactlyWhen | src/geohash.rs:81-326 | in exact arithmetic, encoding the centre of a text's cell gives the text in lower case if and only if every character is in the alphabet |
| GeohashLaws.CellSize | src/geohash.rs:174-210 | a cell of p characters is 360 degrees halved ceil(5p/2) times wide and 180 halved floor(5p/2) times high |
| GeohashLaws.ChildrenTile | src/geohash.rs:213-218 | every point of a cell is in exactly one of its 32 children |
| GeohashLaws.ChildrenInside | src/geohash.rs:213-218 | no child reaches outside its parent |
| GeohashGrid.GridLayout | src/geohash.rs:233-269 | the layout is `Layout`: sorted, merged and looked up as in the source |
| GeohashGrid.MergesToLadder | src/geohash.rs:243-248 | sorting and merging evenly spaced values gives each once, in order |
| GeohashGrid.GridExactlyWhen | src/geohash.rs:233-269 | in exact arithmetic, the layout is one to one onto a 4 by 8 or 8 by 4 grid if and only if rows and columns are no closer than the tolerance |
| GeohashGrid.NorthAndWestFirst | src/geohash.rs:233-269 | later rows are further south, later columns further east |
| GeohashGrid.TwelveIsAGrid | src/geohash.rs:233-269 | for any prefix of up to twelve valid characters it is a grid |
| GeohashExact.BisectionIsExact | src/geohash.rs:81-326 | up to 85 bits, which are 17 characters, every bound, sum of bounds and middle of the bisection is a 64-bit float without rounding |
| GeohashExact.CenterUpToTwelve | src/geohash.rs:81-326 | up to the twelve characters of a geohash nothing is rounded, and the centre encodes to the text in lower case if and only if every character is in the alphabet |
| MessageSplit.Split | src/mesh.rs:1764-1805 | the loop over words computes `Chunks` |
| MessageSplit.Cut | src/mesh.rs:1780-1783 | stepping back to a character boundary finds the longest prefix within the budget |
| MessageSplit.SplitEndsExactlyWhen | src/mesh.rs:1775-1790 | the splitting ends if and only if the text is within the budget or no character of its words is wider than it |
| MessageSplit.ChunksAreSmall | src/mesh.rs:1764-1805 | no chunk is empty or over budget |
| MessageSplit.NothingIsLost | src/mesh.rs:1764-1805 | every character that is not white space comes out, in order |
| MessageSplit.WordsKeptExactlyWhen | src/mesh.rs:1764-1805 | the list of words survives if and only if no word is over budget |
| MessageSplit.FitIsLast | src/mesh.rs:1780-1785 | a cut is the last character boundary within the budget |
| WireLayout.DecodesExactlyWhen | src/protocol.rs:233-373 | bytes decode to a packet if and only if a frame of it stands at their front: every field at its place, sections as the flag bits say, compressed payloads within the limits and as they inflate |
| WireLayout.EncodesExactlyWhen | src/protocol.rs:159-231 | only an unknown version, more than 255 hops or a payload too long for version 1 keeps a packet from being written |
| WireLayout.FrameWritten | src/protocol.rs:159-231 | every byte of an unpadded frame, of well-formed packets and others: signatures cut to 64 bytes, no route in version 1, never compressed |
| WireLayout.PaddingIs | src/protocol.rs:377-403 | padding keeps the frame in front and consists of bytes that say how many they are |
| WireLayout.UnpadsExactlyWhen | src/protocol.rs:405-418 | bytes lose an end of n bytes if and only if each of the n is n |
| WireLayout.SigningBytesAre | src/protocol.rs:141-149 | what is signed is the padded frame with no hops left, no RSR flag and no signature |
| FloodRules.ForwardsExactlyWhen | src/relay.rs:39-91 | a node passes a copy on if and only if it is not from it, not for it alone, of a known type that is relayed, has a TTL of 2 to 7, is fresh, and there is another link |
| FloodRules.OutgoingExactly | src/relay.rs:87-90 | what is passed on goes over exactly the other links, one hop less |
| FloodRules.HeldBack | src/relay.rs:39-91 | over any run, every copy that its sender did not originate was one it may pass on |
| FloodRules.ArrivedIsHeldBack | src/relay.rs:55-59 | over any run, no copy leaves the node it is addressed to, unless that node originated it |
| FloodRules.PresenceStaysOnItsLink | src/relay.rs:61-81 | over any run, announcements, leaves, sync requests and unknown types are sent by their originator only |
| FloodRules.FreshIsPassedOn | src/relay.rs:39-91 | over any run, what may pass and is fresh is passed on over every other link, whether for everybody or for one node |
| AssemblerHistory.AnswersFollow | src/fragment.rs:156-208 | over any run of any fragments, each answer follows from the fragments and answers before: thirty seconds from the first piece, an end at a changed count, duplicates, the size limit, the cap, and the body in order of place |
| AssemblerHistory.InFlightExactlyWhen | src/fragment.rs:156-214 | a stream is in flight if and only if a fragment began it less than thirty seconds before the last one came and none ended it |
| FieldLayouts.SplitsExactlyWhen | src/fragment.rs:72-79 | a body is split if and only if it is not empty, slices are not, and ten thousand of them hold it |
| FieldLayouts.PieceLayout | src/fragment.rs:81-92 | the bytes of each piece: id, place, count, type, and its own stretch of the body |
| FieldLayouts.ParsesExactlyWhen | src/fragment.rs:95-118 | a payload is a fragment if and only if it is laid out as one whose place is below its count of at most ten thousand |
| FieldLayouts.FileExactlyWhen | src/file_packet.rs:101-178 | bytes are a file if and only if they are fields, read with the wide or narrow length of the source, the last of each kind telling of it, with content that is not empty or too long |
| FieldLayouts.FileLayout | src/file_packet.rs:63-99 | which files are written, and the fields they are written as |
| FieldLayouts.ImageExactlyWhen | src/file_packet.rs:34-50 | an image by its type in any case, or without a type by one of six endings of its name |
| FieldLayouts.EnvelopeExactlyWhen | src/courier.rs:130-178 | bytes are an envelope if and only if they are fields of the right sizes, the last of each kind telling of it, one to eight copies whatever they say |
| FieldLayouts.EnvelopeLayout | src/courier.rs:106-125 | the fields an envelope is written as, in order |
| FileTransfer.BlockedExactlyWhen | src/mesh.rs:564-569 | a peer is blocked if and only if a blocked fingerprint and its id are the same as far as both go |
| FileTransfer.BlockedIsSilent | src/mesh.rs:1313-1318 | no frame of a blocked peer changes anything or is told of |
| FileTransfer.BlockedInsideIsSilent | src/mesh.rs:1313-1318 | nor does a packet of a blocked peer that comes out of the assembler |
| FileTransfer.NoFileFromBlocked | src/mesh.rs:1273-1381 | in any state, no frame makes a file be told of as from a blocked peer or from ourselves |
| FileTransfer.RunNamesNoBlocked | src/mesh.rs:1273-1381 | over any run of deliveries, no file is told of as from a blocked peer |
| FileWord.FrameIsAPacket | src/mesh.rs:1235-1269 | each frame is an unsigned broadcast fragment with seven hops to go that carries its own stretch of the transfer |
| FileWord.InnerIsAPacket | src/mesh.rs:1205-1233 | the transfer is a packet made of the name, size, type and content given |
| FileWord.RefusedExactlyWhen | src/mesh.rs:1205-1269 | which files are refused, and with which words |
| FileWord.ToldIs | src/mesh.rs:1644-1674 | a transfer that arrives is told of by the name, type and content that were sent |
| FileWord.FrameDoes | src/mesh.rs:1273-1381 | what every frame, of whatever kind and from whomever, does to the fragments held and what is told of it |
| NoiseTranscript.EnvelopeReadsExactlyWhen | src/courier.rs:244-262 | an envelope reads as a text from a sender if and only if it is an ephemeral key, the sender's key sealed under `es`, and the text sealed under `es` and `ss`, written from the recipient's private key |
| NoiseTranscript.OpeningReadsExactlyWhen | src/noise_protocol.rs:1322-1369 | the same of the first message of IK, under its own name |
| NoiseTranscript.EnvelopeInFull | src/courier.rs:220-242 | every byte of an envelope, from the sender's private key |
| NoiseTranscript.XXInFull | src/noise_protocol.rs:1322-1369 | messages, hashes, final chaining key and transport keys of XX: `ee`, `es` and `se` from both static and both ephemeral keys |
| NoiseTranscript.IKInFull | src/noise_protocol.rs:1322-1369 | the same of IK: `es`, `ss`, `ee` and `se` |
| NoiseTranscript.NKInFull | src/noise_protocol.rs:1322-1369 | the same of NK: `es` and `ee` |
| NoiseRegister.FingerprintsExactlyWhen | src/noise_session.rs:398-453 | in every reachable state a peer's fingerprint is known if and only if its session is up, and is the hash of the static key of that session |
| NoiseRegister.SentIsEmitted | src/noise_session.rs:184-200 | in every reachable state a session's record of what it sent is the handshake messages put out for it since it was opened |
| NoiseRegister.SealedFrame | src/noise_protocol.rs:258-336 | a sealed text is its number in four bytes, the low one first, and the ciphertext under that number |
| GatewayAnswers.UplinkFollows | src/gateway.rs:172-237 | over any run, every answer to a deposit follows from the calls before: switched on, in neither memory, within fifteen minutes, fewer than ten accepted in the last minute, relays up or fewer than five held of that peer |
| GatewayAnswers.DownlinkFollows | src/gateway.rs:258-281 | over any run, every answer to an event from the relays follows from the calls before |
| GatewayAnswers.HeldExactlyWhen | src/gateway.rs:213-250 | a deposit is held if and only if it was queued, the mailbag was not emptied since, and fewer than twenty were queued after it |
| MailboxMail.CollectedExactly | src/mailbox.rs:235-250 | exactly the envelopes with one of the tags are handed over, each as often as it is there and in shelf order, and exactly the others stay |
| MailboxMail.HandedIsCollected | src/mailbox.rs:235-250 | over any run, the mail handed over, joined in order, is what the ledger has as collected |
| MailboxMail.ToldIsAccepted | src/mailbox.rs:147-207 | over any run, the ledger has exactly the deposits whose depositors were told so |
| MailboxMail.LiveInOrder | src/mailbox.rs:253-261 | what a sweep leaves is what is in date, in order |
| MailboxAnswers.DepositFollows | src/mailbox.rs:147-228 | what every deposit is answered, and exactly the shelf it leaves: which item goes, which copies are raised, where the new one stands |
| MailboxAnswers.DeliveredIsHandedOver | src/mailbox.rs:235-303 | over any run, the count of mail delivered is what was handed over since the mailbox was opened or wiped |
| MailboxAnswers.RowIs | src/mailbox.rs:311-338 | a line of the file to the letter |
| ShelfText.RowReadExactlyWhen | src/mailbox.rs:340-366 | a line is an item if and only if it has at least four parts between tabs that are an envelope in hex, a name, a tier and a time |
| ShelfText.HexMatches | src/mailbox.rs:340-366 | hex is read as some bytes if and only if it is their spelling, in either case |
| ShelfText.NumberReadExactlyWhen | src/mailbox.rs:340-366 | a time is read if and only if it is digits, perhaps after a plus sign, of a number of 64 bits |
| TopologyWord.ClaimsExactlyWhen | src/topology.rs:93-117 | a peer claims another if and only if its last announcement lists it, in any case, and it is neither us nor that peer |
| TopologyWord.NamesExactlyWhen | src/topology.rs:93-117 | a peer's name is the last one it announced |
| TopologyWord.EdgesExactlyWhen | src/topology.rs:159-190 | from announcements to edges: the sorted pairs of which either last announced the other |
| TopologyWord.IslandsExactlyWhen | src/topology.rs:93-238 | from announcements to islands: everyone heard of is on exactly one, and two share it if and only if a chain of announcements joins them |
| TopologyWord.BridgesExactlyWhen | src/topology.rs:198-243 | we are a bridge if and only if two peers heard of have no chain of announcements between them |
| GeohashNumbers.CellIs | src/geohash.rs:174-210 | where a cell lies: the bits of its digits, taken in turn, are two binary fractions of 360 degrees and 180 degrees, longitude first |
| GeohashNumbers.DigitsAre | src/geohash.rs:174-190 | the digits of a text, one by one, characters outside the alphabet passed over |
| GeohashNumbers.StandsExactlyWhen | src/geohash.rs:81-190 | a character stands for its place in the alphabet, in either case |
| GeohashGrid.LayoutLists | src/geohash.rs:233-269 | the layout lists the 32 children in the order of the alphabet, each with its own box |
| SplitLaw.ChunksExactlyWhen | src/mesh.rs:1764-1805 | the chunks of a text: itself if within the budget, and otherwise its words, by white space, in lines each filled before the next is begun, a word too long for a line cut as late as it can be |

## Left out

- Cryptographic primitives and the check of low-order points, which is the abstract `valid` of `NoiseCrypto.Suite`.
- DEFLATE: a compressed payload goes through an abstract partial function whose output length is checked.
- Bluetooth links, dialling and channels; of the router only the rule that a frame goes to all links but one.
- Nostr relays, the terminal interface, commands, configuration and images.
- FileTransfer.MeshService.Receive: handlers other than that of files are one event with the packet type, a file's sender is its id and not its nickname, and what is archived for gossip is not part of this model.
- `src/sync`, announcements, peer tables, blocked-list editing and the other packet handlers of `src/mesh.rs`.
- `NoiseSessionManager::migrate_session`, which nothing in the source calls, and the list of fingerprints marked as verified.
- Private-message records, receipts, favourites and the queue of messages waiting for a handshake.
- 64-bit counters running out: nonces are natural numbers, the four-byte prefix is modelled with its wrap-around.
- Failing disk writes, the temporary file they go through, and a mailbox file edited by hand.
- `Topology::nodes` and `Topology::layout`, and the order in which islands and edges are listed: sets stand for the source's ordered sets.
- Geohash relay ranking, `BBox::padded`, `is_valid` and `normalize`; rounding beyond the seventeen characters of `GeohashExact.BisectionIsExact`.
- Upper and lower case outside ASCII, in peer ids and geohashes; which file names are all white space.
- Flood.FloodIsBounded: asks that no more than 1024 packets intervene at any node, as the once-only memory does; termination without that is `FloodTermination.EveryFloodEnds`.
- FloodOrder.StrongestFirstExactlyWhen: the packet is not lost and not originated again; loss only takes reach away.
- Fragment.Reassembly: the whole interleaving falls within the 30 seconds of an assembly's life; what happens without that is `AssemblerHistory.AnswersFollow`.
- Gateways.Gateway.AcceptUplink: the JSON of an event is a text nobody looks into.
- Mailboxes.Mailbox.Collect: candidate tags are given; how a tag follows from a key and a day is not part of this model.
