# Aetherport, modelled and proved in Dafny

Aetherport forwards ports over WebRTC. Most of it connects libraries; this project models the small
stateful parts that are its own and proves what they promise, and, where they promise more than
they keep, exactly when they keep it.

| file | models |
|---|---|
| `Bytes.dfy` | little-endian numbers, powers of 256 |
| `Segmented.dfy` | byte sources seen through their underlying reads |
| `Framing.dfy` | the length-prefixed frame: in-place writer, header decoder, plain parser |
| `ChunkedReader.dfy` | `read` over a buffered reader that is empty at every call, on a transport of read segments |
| `Noise.dfy` | the IX / IXpsk0 handshake as both constructors drive it, with the responder's trial loop |
| `Exchange.dfy` | the two handshake messages through the framing layer |
| `Delivery.dfy` | cipher states with counters over frames over segments, in both directions, for whole runs |
| `Loss.dfy` | runs with messages of any length: what a message of bad length does to those behind it |
| `Certificate.dfy` | labels, certificates, serialising, parsing, signing |
| `CAPool.dfy` | PEM text, the CA pool and `Verify` |
| `Issue.dfy` | the three commands that issue certificates, up to loading and verifying their output |
| `Node.dfy` | the parts together, from issuing certificates to delivered messages |
| `Identity.dfy` | derivation of the pre-shared keys, peer validation, and both with the handshake |
| `TrickleIce.dfy` | the receive / defer / flush loop |
| `Signalling.dfy` | offer, answer and candidates between both proxies, as interleaved goroutines |
| `BackPressure.dfy` | writers, the buffered amount and the low-water callback of a data channel |
| `Registry.dfy` | concurrent handlers of the signalling server's ingress map |
| `Base62.dfy` | bytes as base-62 text |
| `Tty.dfy` | signalling by copy and paste: lines read through a buffer that is empty at every call |

## How it is modelled

- Foreign primitives are ideal. A signature is the public key and the message it was made for, a
  digest is the record it was computed from, handshake keys, hashes and ciphertexts are the terms
  that produced them. The transport cipher is a parameter with the laws it needs, and
  `Delivery.LawfulCipherExists` shows that they can be met; so can what is assumed of the byte form of
  handshake messages (`Exchange.CodecExists`) and, with messages of bad length, of the pieces of a
  stream of ciphertexts (`Loss.BadLengthInPlaceExists`). Protobuf bytes are the record they encode,
  zlib is a parameter with an inverse, a name carries whether IDNA lookup accepts it.
- What a transport delivers is a sequence of non-empty read segments; one underlying read takes at
  most one. The end of the sequence is the end of the stream.
- The low-water callback of a data channel runs when the buffered amount falls from above the low
  threshold to at most it, on the goroutine that drains the buffer, so nothing drains meanwhile.
- Goroutines are step systems with arbitrary interleaving, each step atomic. Objects and loops that
  update state are classes and methods, proved against functions on values; the theorems are about
  those functions.
- Clocks are parameters (nanoseconds; one reading per load of a pool), 64-bit times, 32-bit counters
  and Go's `int` limit on slice lengths are explicit.

## Where the code departs from its evident intent

The model follows the code in each of these, and a lemma gives the exact law.

- A length byte above the lowest that equals the newline ends the header early
  (`Framing.HeaderExactness`, `Framing.FrameRoundTrip`, `Delivery.DeliveredIffGood`); a handshake
  whose certificate takes 2464 to 2719 bytes therefore fails (`Exchange.SendableLengths`,
  `Node.NodesOfOneCADeliver`). Later on, such a message is lost with everything behind it, since the
  decrypt counter stays where it was (`Loss.NothingBehindBadLength`).
- `read` has a value receiver, so the buffer is lost between calls: what an underlying read brought
  along behind a frame is gone (`ChunkedReader.LostBehindFrame`, `ChunkedReader.SecondFrameLost`), and
  frames of fewer than 8 bytes can swallow what follows them (`ChunkedReader.ShortFrameLoses`).
- Labels are appended to as many blank ones, on the way out and on the way in, and a label key loses
  its last byte, so labelled certificates lose their signature when they are stored
  (`Certificate.ReloadLaw`, `Certificate.LabelPrintParse`, `Issue.LabelledNeverTrusted`).
- A CA that is generated along with a leaf gets no duration at all when the leaf is given one
  (`Issue.AutoCAOnlyWithDefaultDuration`).
- Every pre-shared key is derived from the issuer, whichever CA the loop is at
  (`Identity.ComputePresharedKeys`); the trial loop does not stop at a success and a later failure
  clears the payload (`Noise.LastTrialDecides`).
- Lookup and insertion of a registry handler are two accesses, so two masters of one id can both be
  admitted and the later insertion replaces the other's session, but only if both overlap
  (`Registry.ReplacesOnlyOverlapping`).
- Comparison and deletion at the end of a registry handler are two accesses; an insertion between
  them loses its entry (`Registry.RaceRemovesForeign`).
- A data-channel writer that finds the buffer full before, and counts itself after, the last test of
  a callback is left waiting over a drained buffer (`BackPressure.WaitsIffLate`,
  `BackPressure.WakeUpLost`).
- A candidate that is sent ahead of the offer holds the ingress's read loop, and one that arrives
  ahead of the answer, when the egress's gathering is over, holds the egress's; both sides then wait
  for each other until they are cancelled (`Signalling.StuckIffTrapped`, `Signalling.CompletesIffOpen`,
  `Signalling.IngressTrapReachable`, `Signalling.EgressTrapReachable`).
- A candidate that arrives when the receiving side's own gathering is over is never taken, and blocks
  what is behind it (`Signalling.HeldForGood`, `Signalling.LateCandidateLost`).
- The terminal's reading methods have value receivers as well: what a call's underlying reads
  delivered past its line is gone, so the second of two lines in one read is lost
  (`Tty.LostExactly`, `Tty.SecondLineLost`).
- The terminal reader does not look at the error of its read: at the end of its input it drops the
  last byte of an unterminated line, and panics on an empty one (`Tty.LineCallMeaning`).

## Model

| member | source | states |
|---|---|---|
| Framing.WidthIsLeast | messenger-chunked-io.go:38-54 | the chosen width holds the length, and no smaller one does |
| Framing.HeaderFits | messenger-chunked-io.go:56 | a slice of two bytes or more has room for its own header |
| Framing.Shift | messenger-chunked-io.go:56 | `append` onto the reslice moves the payload intact, in the same array exactly when the capacity suffices |
| Framing.PutHeader | messenger-chunked-io.go:57-83 | the bytes in front become the header, everything behind stays |
| Framing.Write | messenger-chunked-io.go:37-90 | what goes to the wire is the frame of the original payload, in place or reallocated; it panics exactly for capacities below two |
| Framing.DecodeHeader | messenger-chunked-io.go:111-135 | the cascade stops in front of the first newline at index 1 or later, with the little-endian value of the bytes before it |
| Framing.HeaderExactness | messenger-chunked-io.go:111-135 | reading back the header of n gives n modulo 256^j for the stopping index j, and width and n exactly if and only if no byte above the lowest is a newline |
| Framing.FrameRoundTrip | messenger-chunked-io.go:37-141 | the payload of a frame comes back if and only if its length is good; otherwise which shorter bytes come back |
| Framing.WholeFramePasses | messenger-chunked-io.go:105-141 | a stream that holds a whole frame gives its payload |
| Framing.OnlyWholeFramesPass | messenger-chunked-io.go:105-141 | success means header and payload were all there |
| Framing.TruncationNeverPasses | messenger-chunked-io.go:105-141 | success if and only if a whole frame is there, and short peeks without a delimiter always fail |
| ChunkedReader.ReadCallMeaning | messenger-chunked-io.go:92-141 | one call returns what the plain parser makes of the stream, for every cutting; the stream is the frame, the bytes the call lost and what the transport still holds |
| ChunkedReader.ReadsOneFrame | messenger-chunked-io.go:105-141 | segments that end with the frame: the payload is returned, nothing is lost, the following segments are untouched |
| ChunkedReader.CallWithin | messenger-chunked-io.go:105-141 | a call never reaches past segments that hold the whole frame, so what it loses lies in the segments up to the frame's end |
| ChunkedReader.LostBehindFrame | messenger-chunked-io.go:12-22 | exactly what is lost behind a frame within one segment: up to a full buffer, up to a second one, or nothing, by the frame's size |
| ChunkedReader.SecondFrameLost | messenger-chunked-io.go:105-141 | of two frames in one underlying read the second is lost whole |
| ChunkedReader.ShortFrameLoses | messenger-chunked-io.go:105-141 | behind a frame of fewer than 8 bytes a call loses some of what follows |
| ChunkedReader.ReadsFirstFrame | messenger-chunked-io.go:105-141 | on any cutting of several frames, a call takes exactly the first |
| ChunkedReader.BufferedRefinesPlain | messenger-chunked-io.go:12-22 | successive calls return all payloads in order although each starts from an empty buffer |
| ChunkedReader.Transport.PeekEight | messenger-chunked-io.go:106 | the buffer is filled until it holds 8 bytes or the stream ends |
| ChunkedReader.Transport.ReadFully | messenger-chunked-io.go:138 | the loop of buffered reads agrees with its specification function |
| ChunkedReader.Transport.ReadFrame | messenger-chunked-io.go:107-141 | everything after the peek, against its specification function |
| ChunkedReader.Transport.Read | messenger-chunked-io.go:105-141 | result, lost bytes and transport are those of the specification function of one call |
| Noise.NewNoisedMessengerI | messenger-noised.go:26-81 | the constructor, step by step over its handshake state, computes the initiator's specification functions on either side of the exchange |
| Noise.NewNoisedMessengerR | messenger-noised.go:83-148 | the constructor with its trial loop computes the responder's specification function |
| Noise.TrialMatches | messenger-noised.go:102-115 | a trial reads an initiator's message exactly under the initiator's key, and then reaches its state and payload |
| Noise.PayloadIsKept | messenger-noised.go:101-121 | after the loop the payload variable is the kept state's payload or empty, as the last trial left it |
| Noise.LastTrialDecides | messenger-noised.go:101-127 | for every key list the responder accepts if and only if all lengths are legal, the last key reads the message and its payload validates |
| Noise.OffersIff | messenger-noised.go:32-48 | an initiator starts exactly with a first key of 32 bytes, or an empty one or none |
| Noise.HeardIffOffered | messenger-noised.go:102-115 | of all messages there are, a trial reads exactly those that some initiator sends with that key |
| Noise.RespondsIffOffered | messenger-noised.go:97-127 | a responder accepts exactly the messages that some initiator sends with the last of its legal keys and a valid payload |
| Noise.AcceptedIffReply | messenger-noised.go:60-73 | of all messages there are, an initiator accepts exactly the replies that some responder makes to its message with a valid payload; tampered ones are refused |
| Noise.RefusedIffIllegal | messenger-noised.go:102-113 | the constructor fails on creating a state exactly when some key has neither 0 nor 32 bytes |
| Noise.UniformTrials | messenger-noised.go:101-121 | with equal keys all trials succeed or all fail, and the payload goes with the kept state |
| Noise.HandshakePairing | messenger-noised.go:26-148 | when both constructors return, each validated the other's payload and each encrypts with the key the other decrypts with |
| Noise.HandshakeCompletes | messenger-noised.go:26-148 | with messages handed over intact they do return when the last key of the responder is the initiator's first and both payloads validate; what the framing layer makes of it is in Exchange |
| Noise.RepliesAgree | messenger-noised.go:58-73 | the initiator reads back the responder's reply, and both reach one chaining key |
| Noise.TranscriptAgreement | messenger-noised.go:58-73 | an initiator that accepts a reply knows that the responder read exactly its message, whatever was delivered |
| Noise.SessionKeyInputs | messenger-noised.go:36-45 | the session keys mix psk, both ephemerals, ee, se and es in the prescribed order |
| Noise.HelloHashes | messenger-noised.go:36-50 | the handshake hash after the first message covers prologue, ephemeral key and both sealed parts in order |
| Noise.ReplyAuthenticates | messenger-noised.go:64-130 | the sealed parts of a reply authenticate all of the first message and everything before them |
| Noise.HandshakeNoncesDistinct | messenger-noised.go:50-130 | no two of the four sealed parts of the handshake share key and nonce |
| Exchange.ArrivesIfGood | messenger-noised.go:54-64 | a handshake message arrives alone when its length is good, for every cutting; otherwise the reader gets nothing that it takes |
| Exchange.ConnectedIffSendable | messenger-noised.go:50-140 | through the framing layer both constructors return what they would with intact messages, if and only if no payload is too long and both message lengths are good |
| Exchange.SendableLengths | messenger-chunked-io.go:105-141 | with a pre-shared key exactly the payloads of 2464 to 2719 bytes and those above the limit do not get through |
| Delivery.NoisedMessenger.Write | messenger-noised.go:159-166 | encrypt and frame with the next nonce, as one send step of a link; the tag keeps the framing layer from running out of capacity |
| Delivery.NoisedMessenger.Read | messenger-noised.go:150-157 | read one frame and decrypt it, as one receive step of a link; the counter moves only on success |
| Delivery.SendKeepsOrder | messenger-noised.go:159-166 | a deliverable write keeps the in-order invariant of its direction |
| Delivery.ReceiveKeepsOrder | messenger-noised.go:150-157 | a read keeps it, and returns exactly the next unread plaintext |
| Delivery.DeliveredIffGood | messenger-noised.go:150-166 | a message arrives if and only if its ciphertext length has no newline byte above the lowest |
| Delivery.CountersCount | messenger-noised.go:150-166 | in every run, with messages of any length and failed reads, the encrypt counter counts the messages written and the decrypt counter exactly those read, so a failed decryption does not move it |
| Delivery.StepKeepsOrder | messenger-noised.go:150-166 | every act of either side keeps both directions in order |
| Delivery.EndToEndDelivery | messenger-noised.go:26-166 | after a completed handshake, in every interleaving of deliverable writes and reads, reads are a prefix of the other side's writes, no read fails, and encrypt counter = decrypt counter + messages in flight |
| Delivery.Drain | messenger-noised.go:150-157 | reading until the link is idle returns everything that was written |
| Loss.ReceiveBad | messenger-noised.go:150-157 | the read spent on a message of bad length fails and leaves counters and reads alone |
| Loss.NothingBehindBadLength | messenger-noised.go:150-166 | in every run with messages of any length and any cutting, each side reads a prefix of good lengths; the first read that fails is at a message of bad length, and nothing is read ever after |
| Certificate.LabelPrintParse | certificate.go:275-302 | parse after print drops exactly the last byte of the key and keeps the value; what happens to keys with '=' |
| Certificate.LabelErodes | certificate.go:275-302 | after k rounds k bytes of the key are gone; after m + 1 rounds the label is blank for good |
| Certificate.GetDetailsRaw | certificate.go:120-141 | the method with its appending loop computes its specification function |
| Certificate.AppendParsed | certificate.go:77-94 | the parsed labels follow as many blank ones, and one label that does not parse fails the whole |
| Certificate.UnmarshalAetherportCertificate | certificate.go:60-105 | the parser computes its specification function |
| Certificate.ParsesIff | certificate.go:60-105 | of all encodings there are, exactly those parse whose labels are label texts, whose key is long enough and whose name is accepted |
| Certificate.ParsedWritesBack | certificate.go:60-141 | what was parsed is written back as it came if and only if it had no labels |
| Certificate.PrintedLabelsParse | certificate.go:88-94 | printed labels parse back exactly when no key starts with '=' |
| Certificate.ReloadLaw | certificate.go:60-141 | one trip keeps everything but the labels, of which n become 3n blank ones and the n parsed ones |
| Certificate.LabelsQuadruple | certificate.go:77-132 | one trip multiplies the number of labels by four |
| Certificate.LabelsAfterTrips | certificate.go:77-132 | k successful trips turn n labels into 4^k * n |
| Certificate.RoundTripIdentity | certificate.go:60-141 | the trip is the identity exactly on storable certificates without labels |
| Certificate.SignatureSurvivesIffUnlabelled | certificate.go:221-233 | a stored certificate still checks out if and only if it has no labels |
| Certificate.SignVerifies | certificate.go:167-190 | a signature verifies under the signer's key and names the signer's certificate |
| Certificate.SignsIff | certificate.go:167-190 | signing succeeds exactly with an accepted name and a readable issuer; a failure keeps the signature, but the issuer is set |
| Certificate.AetherportCertificate.Sign | certificate.go:167-190 | new details, signature and result, including the failures that leave the issuer changed |
| CAPool.VerifyIffTrusted | certificate.go:192-259 | Verify accepts if and only if: not blocklisted, issuer in the pool, signature valid, and CA start <= start <= t <= end <= CA end |
| CAPool.BlocklistingOnlyRemoves | certificate-authority.go:104-120 | blocklisting removes exactly the acceptances of that fingerprint |
| CAPool.FingerprintDetermines | certificate.go:247-255 | one fingerprint fixes everything verification looks at |
| CAPool.AddingNeverRemoves | certificate-authority.go:96 | adding a CA never removes an acceptance, even when it replaces an entry |
| CAPool.AddKeepsInvariant | certificate-authority.go:77-102 | an add keeps every entry a self-signed CA keyed by its own fingerprint, and a refused one changes nothing |
| CAPool.AetherportCAPool.AddCACertificateFromPEM | certificate-authority.go:77-102 | result, remaining text and new map of one add |
| CAPool.AetherportCAPool.BlocklistFingerprint | certificate-authority.go:104-107 | the fingerprint is listed and nothing else changes |
| CAPool.NewCAPoolFromPEM | certificate-authority.go:52-75 | the loading loop returns a sound pool that holds what its specification function says |
| CAPool.FirstBlock | certificate-pem.go:40-50 | decoding takes the first block and leaves exactly the text after it |
| CAPool.AddsFirstBlock | certificate-authority.go:77-102 | an add succeeds exactly when the first block is a self-signed CA certificate |
| CAPool.RefusedWhy | certificate-authority.go:77-102 | which of its errors an add gives for a first block that it refuses |
| CAPool.LoadMeaning | certificate-authority.go:52-75 | loading succeeds if and only if there is a block, every block is a self-signed CA and only white space follows the last; the pool then holds exactly their fingerprints |
| CAPool.LoadReportsExpiry | certificate-authority.go:58-72 | expired CAs enter the pool, and the load reports expiry exactly when there is one |
| CAPool.ReachablePoolsAreSound | certificate-authority.go:77-107 | every pool reachable by adds and blocklistings keeps the invariant |
| CAPool.SingleCALoads | certificate-pem.go:40-58 | a self-signed CA written as PEM loads if and only if it has no labels, and is then the only entry |
| Issue.GenerateCA | cli-certificate.go:137-150 | it succeeds exactly for an accepted name; the certificate has that name and the labels, is a CA's, signed by its own key, without an issuer, lasting from now for the duration |
| Issue.Generate | cli-certificate.go:71-88 | it succeeds exactly for an accepted name under a CA that can be serialised; the leaf has that name and the labels, is marked as a CA, signed by the CA's key, naming the CA, lasting from now for the duration or to a second before the CA's end |
| Issue.ReSign | cli-certificate.go:215-230 | the old certificate with the new name, window and labels, signed again under the CA given |
| Issue.IssuedAcceptedIff | cli-certificate.go:71-88 | whatever a pooled CA signs is accepted after storing if and only if it has no labels and its window lies in the CA's and contains t |
| Issue.GeneratedCALoads | cli-certificate.go:137-150 | a generated CA survives storing and makes a one-entry pool |
| Issue.IssueLoadVerify | cli-certificate.go:71-150 | issue, store, load, verify: accepted exactly from the issue time to one second before the CA's end |
| Issue.AutoCAOnlyWithDefaultDuration | cli-certificate.go:30-88 | a leaf generated together with its CA is accepted, and then up to a second before the CA's end, only when no duration was asked for |
| Issue.ReSignedWindow | cli-certificate.go:215-230 | re-signing keeps the length of the window, starts it now, and is accepted exactly there |
| Issue.LabelledNeverTrusted | certificate.go:88-132 | a labelled CA never loads and a stored labelled leaf is never accepted |
| Identity.PskList.PutFirst | identity.go:72 | the shifting assignment puts the key in front of the list, within the capacity |
| Identity.PskList.Put | identity.go:74 | appending within the capacity |
| Identity.ComputePresharedKeys | identity.go:49-78 | for every iteration order: one key per CA, never more than the initial capacity, every key derived from the issuer |
| Identity.Peer.ValidatePeer | identity.go:96-112 | it succeeds exactly when the payload parses to a certificate that is trusted, and only then remembers it |
| Identity.ValidIffTrusted | identity.go:96-112 | a valid payload is one with a trusted certificate: not blocklisted, issuer in the pool, signature good, windows nested around now |
| Identity.ListsAndTrials | identity.go:49-78 | with computed lists the trials all succeed or all fail, and succeed if and only if both issuers give the same key; the payload is the kept state's |
| Identity.SameIssuerConnects | identity.go:49-112 | two nodes of one CA whose certificates validate each other complete the handshake |
| Node.LeafIsTrusted | cli-certificate.go:71-88 | a stored default leaf finds its CA in the pool, survives further trips, and is accepted exactly in its window |
| Node.NodesOfOneCADeliver | identity.go:25-112 | two nodes with unlabelled default certificates of one CA, at any time in both windows and for every cutting, complete the handshake if and only if both certificates get through its messages, and in every run that follows each reads a prefix of what the other wrote |
| Node.ConnectedTrusted | identity.go:96-112 | for any two identities, when both constructors return, both certificates are trusted by the other side's pool |
| TrickleIce.PeerConnection.AddAll | ice.go:79-83 | the inner loop adds the whole batch in order |
| TrickleIce.TrickleLoop | ice.go:71-101 | the goroutine computes its specification function; what arrives before the turn that ends it is added or left deferred, nothing else |
| TrickleIce.TakesArrivals | ice.go:73-90 | the loop receives exactly the candidates that its turns deliver before the first that ends it, in order |
| TrickleIce.Conservation | ice.go:71-101 | the candidates that arrive are the added plus the deferred ones, as multisets |
| TrickleIce.TrickleOrder | ice.go:71-101 | nothing is added before the remote description; afterwards at most one candidate is out of receive order, having overtaken the whole deferred batch |
| TrickleIce.AddedOnceOrDeferred | ice.go:71-101 | a candidate is added at most once, and not at all only if it is still deferred |
| TrickleIce.FlushedAtHead | ice.go:78-85 | a loop head that sees the description leaves nothing deferred |
| Signalling.RunKeepsInv | signal-messenger.go:36-68 | what both sides' read loops and wires keep in every interleaving |
| Signalling.SignallingProgress | proxy-ingress.go:45-69 | with OFFER and ANSWER first on their wires no state before both are received is stuck: the next critical act is enabled and stays so, and of eight in all the stated number remains |
| Signalling.StuckIffTrapped | signal-messenger.go:36-68 | the exchange is stuck if and only if the egress's read loop holds a candidate, its gathering is over and the ingress has answered, or the ingress's read loop holds a candidate that came ahead of the offer and the egress awaits the answer |
| Signalling.HandedOver | signal-messenger.go:57-66 | a message handed over is gone and the loop reads on; reading only moves it from the wire into the loop |
| Signalling.CompletesIffOpen | proxy-egress.go:55-71 | from any reachable state some continuation receives the answer if and only if no candidate is ahead of the offer and, once the egress's gathering is over, none is ahead of the answer |
| Signalling.CandidateAheadOfOffer | signal-messenger.go:57-66 | the offer is received only if it was first on its wire; a candidate ahead of it holds the read loop until the ingress's own cancellation |
| Signalling.IngressTrapIsFinal | signal-messenger.go:57-66 | a read loop that holds a candidate while the offer is awaited holds it until then |
| Signalling.IngressTrapReachable | proxy-egress.go:55-59 | a run of the two proxies in which a candidate overtakes the offer, and both wait |
| Signalling.EgressTrapIsFinal | ice.go:51-92 | once gathering is over, a candidate ahead of the answer blocks the egress until its own cancellation |
| Signalling.EgressTrapReachable | proxy-egress.go:55-71 | that state is reached by a run of the two proxies, and then both wait |
| Signalling.HeldForGood | ice.go:51-92 | a candidate is taken only while the receiving side gathers; one held afterwards is never handed over and nothing behind it is read |
| Signalling.LateCandidateLost | proxy-ingress.go:65-71 | a run in which offer and answer are received and a candidate is lost that way |
| BackPressure.StepCounts | datachannel-conn.go:57-66 | every step keeps the counter equal to the parked writers plus one between send and decrement |
| BackPressure.CounterInvariant | datachannel-conn.go:57-123 | the same in every state of every interleaving, never negative, and a callback about to send finds a receiver |
| BackPressure.ReleasedBeforeReturn | datachannel-conn.go:58-66 | when a callback returns nobody is parked, and every writer parked before was woken in between |
| BackPressure.CallbackNeverStuck | datachannel-conn.go:58-66 | a running callback always has a step |
| BackPressure.ChecksAreWritten | datachannel-conn.go:112-123 | in every state a writer has written once for each of its checks, but for the write it is in, so a woken writer goes on to write |
| BackPressure.ParksOnlyWhenFull | datachannel-conn.go:114 | a check decides to wait exactly when more than the maximum is buffered |
| BackPressure.BufferBalances | datachannel-conn.go:112-123 | the buffer holds what was written and not yet drained |
| BackPressure.WaitsIffLate | datachannel-conn.go:57-123 | with no callback running and the amount low, a writer is parked if and only if its check came before, and its increment after, the last test of a callback |
| BackPressure.WakeUpLost | datachannel-conn.go:57-123 | a run from the start that ends with the buffer empty, a writer parked and nothing left to move it |
| BackPressure.LateWriterWaits | datachannel-conn.go:112-123 | a writer parked while no callback runs waits until the amount crosses the low threshold again |
| Registry.StepKeepsSafe | signal-server-aetherlight.go:77-121 | every step of every handler keeps the registry invariant |
| Registry.RegistrySafety | signal-server-aetherlight.go:77-121 | entries belong to running masters of their id, the map is empty once none runs, and an egress is relayed on the session that was in the map under its id at its lookup |
| Registry.RelayedWasRunning | signal-server-aetherlight.go:77-120 | the master of that session had inserted it and was still running at that lookup |
| Registry.AdmittedIff | signal-server-aetherlight.go:77-87 | a lookup admits a master exactly when its id has no entry, and an egress exactly when it has one |
| Registry.ReplacesOnlyOverlapping | signal-server-aetherlight.go:77-105 | an insertion replaces another session only if that one was inserted between the inserting handler's own lookup, which found the id free, and this insertion |
| Registry.RelayReachable | signal-server-aetherlight.go:77-120 | a run in which a master registers and an egress is relayed on its session |
| Registry.ForeignRemovalIffRaced | signal-server-aetherlight.go:106-111 | a clean-up removes another's session if and only if the id was inserted again between its comparison and its deletion and is still there |
| Registry.AtomicCleanupIsSafe | signal-server-aetherlight.go:106-111 | without such an insertion no clean-up ever removes another's session, racing masters included |
| Registry.RaceRemovesForeign | signal-server-aetherlight.go:105-111 | a run of two masters in which it does |
| Base62.NumberOfDigits | signal-tty.go:49-50 | reading a numeral gives the number written, in every base |
| Base62.DigitsOfNumber | signal-tty.go:95-101 | writing the number of a numeral loses exactly its leading zeros |
| Base62.TextRoundTrip | signal-tty.go:50-97 | base-62 text reads back and holds no newline |
| Base62.ReadableIff | signal-tty.go:95-98 | of all texts exactly those of digits and letters behind at most one sign are read |
| Base62.BytesRoundTrip | signal-tty.go:44-101 | bytes survive if and only if they do not start with a zero |
| Tty.Terminal.ReadBytes | signal-tty.go:88-95 | the loop over underlying reads and full buffers computes its specification function |
| Tty.Terminal.Next | signal-tty.go:78-123 | one call with its skipping loop, on a fresh empty buffer: result, lost bytes and terminal are those of the specification function |
| Tty.LineCallMeaning | signal-tty.go:78-123 | for every cutting of every input, one call returns what the plain reader makes of it; the bytes it lost and those still held are the rest of the input |
| Tty.FirstLineDecides | signal-tty.go:83-116 | for every cutting: no input panics, a first line that does not decode is reported, a non-empty string is returned, an empty one is skipped |
| Tty.TtyRoundTrip | signal-tty.go:16-123 | for every cutting, behind any number of empty messages a written string is read back; what is lost lies within the segment its line ends in, and is all the rest of that when it fits the buffer |
| Tty.LostExactly | signal-tty.go:22-123 | the loss goes to the end of the line's segment or of a full buffer, whichever comes first; nothing is lost if and only if the line ends its segment or fills buffers exactly |
| Tty.LinesArrive | signal-tty.go:39-123 | successive calls return all strings in order when no underlying read reaches across the end of a line |
| Tty.SecondLineLost | signal-tty.go:78-123 | of two lines in one underlying read the second is lost whole, and the next call panics on the exhausted input |

## Left out

- WebRTC, smux, websocket and TCP behaviour, relaying, tunnels and listeners: library code and plumbing.
- Cryptographic internals, the protobuf wire format (including its UTF-8 check), JSON, zlib, PEM
  armour and IDNA: ideal datatypes, parameters or predicates take their place.
- Errors of the transport other than its end (in runs of a session the stream does not end, and a
  read that lacks bytes blocks), partial writes, and contexts of `Read` and `Write`.
- Allocation failures below Go's `int` limit.
- The constructors' methods exchange messages as values; Exchange puts their specification functions
  on frames, with the byte form of a message as a parameter.
- Concurrent `NoisedMessenger.Write` calls: encrypting and sending is one step of a run.
- `authenticate` and `parseDate` of the signalling server, and its public-key endpoint.
- Deadlines of `DataChannelConn`: they change only a copy of the context holder. `detach` is library set-up.
- SCTP itself: how much of the buffer drains, and when, is arbitrary.
- The Go memory model: every access to the registry map and to the waiter counter is an atomic step.
- Errors of `AddICECandidate`: the loop goes on in the same way and reports them on a channel, whose
  reader then starts a second loop; the model has one loop.
- `SignalMessenger.Close` and messages of unknown type, which the read loop skips.
- `VerifyPrivateKey`, key PEM helpers, endpoint parsing and the allow list: straight-line checks.
- Signalling, BackPressure and Registry are step systems on values, not classes: what is modelled is
  the interleaving of goroutines, not update in place.
