# KN-IG

KN-IG watches protected files on Linux hosts. An agent in C collects events with
the processes behind them, enrolls itself with a Go backend to obtain a client
certificate, and streams its events there; a Python service turns stored events
into a report. This project models the parts of that system whose correctness is
decided by code rather than by a library, and proves what they promise.

| file | part of the system |
|---|---|
| `Store.dfy`, `Service.dfy` | the enrollment and certificate tables: each transaction as a function, and a class that performs it statement by statement |
| `Enrollment.dfy`, `Issuance.dfy` | any number of enrollment connections and registrations interleaved over those tables; what an issued certificate is good for, and for how long |
| `Channel.dfy`, `Handshake.dfy`, `Server.dfy` | the XOR-protected enrollment channel in Go and C, its frames and payloads, the agent's `ig_enroll_execute` and the server's `handleConn` |
| `HonestEnrollment.dfy` | agent, server and tables together on one undisturbed enrollment |
| `Wire.dfy`, `Messages.dfy`, `AgentCodec.dfy` | the C encoders and Go decoders of FILE_EVENT, REGISTER and HEARTBEAT |
| `Connection.dfy` | frame numbering on the agent's connection, the collector's sequence check, and sends that fail |
| `Collector.dfy` | the collector's session with its handlers, and the way of an event from the agent's threads to the collector's store |
| `PathCache.dfy`, `HookDedup.dfy` | the eBPF tracer's tombstoned path table and its duplicate suppression |
| `Ancestry.dfy`, `PidLru.dfy`, `ProcCache.dfy` | the bounded parent walks, the linked LRU before the /proc walk, the kernel's fork-time cache with its garbage collection |
| `StatParser.dfy`, `EventQueue.dfy` | the /proc stat parser and the drop-oldest ring |
| `Mitre.dfy`, `Aggregate.dfy`, `Assemble.dfy`, `Overlay.dfy` | the report's counters, ATT&CK matrix and glossary, and a language model's patch to it with the reconciliation afterwards |
| `Prelude.dfy`, `Text.dfy`, `Ordered.dfy` | optional values and 64-bit subtraction; numerals; counters, duplicate removal and stable sorting |

Code that changes things step by step is a class or a method with its loops; its
contract ties it to a function on values, and what the system promises is proved
about that function over every run. Foreign code (TLS, SHA-256, X.509, MySQL, the
kernel's own mechanisms) appears as a parameter or as an outcome that may go
either way. HMAC-SHA256 (section 2 of RFC 2104) is any function that returns 32
bytes. A store operation may fail before it takes effect or after it (`Fault`), so
a commit whose outcome the caller never learns is covered.

Where the code does not do what one would wish, the model follows the code and a
lemma says exactly when:

- a path-cache put of a new key is lost once no EMPTY slot remains
  (`PathCache.PutRefines`): putting as many different files as there are slots and
  removing them again leaves an empty table that takes no path any more
  (`PathCache.LostPut`, `PathCache.AgentLostPut`);
- an exec that finds an exited entry, after a throttled fork, puts it in front of
  live ones (`ProcCache.NextLiveFirst`, `ProcCache.SkippedForkBreaksOrder`);
- a clock set back makes the garbage collection's unsigned age huge
  (`ProcCache.ReapedEarly`, `ProcCache.ClockSetBack`);
- a chain with a negative depth makes an encoding that the collector rejects, unless
  the depth wraps to at most 16 (`AgentCodec.GoReadsBack`,
  `AgentCodec.DepthMinusOneIsRejected`). Only another caller of `ig_file_event_encode`
  can pass one: Agent/src/main.c:196 copies a byte, and
  Agent/src/scanner/pid_ancestry.c:247 and Agent/src/ebpf/ig_trace.c:115 count from 1;
- a send that fails with nothing written still takes its number; the collector takes
  every delivered frame if and only if each has the number after its predecessor's or
  that number is 0 (`Connection.TakenIfInStep`). For the sender this means that no send
  may be lost between two delivered ones, up to multiples of 2^32
  (`Connection.TakenIfNoGap`, `Connection.ShortConnection`), so one such failure ends
  the connection at the next frame unless the last number is 0
  (`Connection.LostNumber`);
- a send that fails partway, in the header or in the payload, is completed from the
  frames sent after it, so the collector gets a frame that was never sent, or ends the
  connection over its number (`Connection.TornFrameSwallows`,
  `Connection.HalfWrittenFrameCorrupts`). Agent/src/main.c:240-252 reconnects only on
  -2, after three failures in a row, and keeps sending after -1. Until more is sent
  the half-written frame has no effect (`Connection.TornFrameWaits`), and an agent
  that reconnected after every failure would lose nothing that it delivered and send
  nothing else (`Connection.CarefulLosesNothing`);
- a registration during which the store fails leaves the session named but not
  acknowledged, and its events and heartbeats are taken: a session that reports
  anything is acknowledged if and only if the store does not fail
  (`Collector.SpeaksForItsCertificate`, `Collector.ReportsAfterStoreFailure`);
- an enrollment stays claimed for ever if and only if, on the way, the server process
  is killed while it holds the claim, the claim commits but is reported as failed, or
  the deferred release fails (`Enrollment.StrandedExactlyWhen`,
  `Enrollment.OrphanIsForever`; one run each in `Enrollment.KilledServerStrands`,
  `Enrollment.UnknownClaimStrands` and `Enrollment.FailedReleaseStrands`). A lost
  connection does not do it: `Enroll` runs on, and its release has a context of its own
  (`Enrollment.NothingStranded`, `Enrollment.LostConnectionReleases`);
- a patch with an infinite number as the index of an entry makes `apply_patch` raise
  (`Overlay.InfiniteIndexBreaks`, `Overlay.OneInfiniteIndex`), which `build_report`
  calls outside its `try` (LLM/app/assemble.py:158-167). The counted part of the report
  is then untouched (`Overlay.Draft.ApplyPatch`).

Two events that share a slot of the duplicate suppression overwrite each other; since
the code compares the whole key, that only ever lets a duplicate through, never
suppresses an event of another key (`HookDedup.SuppressedExactly`). The schema
(Backend/internal/store/schema.sql:18-34) makes fingerprints unique, so fresh
fingerprints are not assumed: inserting a known one is an error, as it is there.

## Model

| member | source | states |
|---|---|---|
| Store.InsertKeeps | Backend/internal/store/agent_store.go:146-190 | an inserted row keeps fingerprints unique and at most one active row per agent, and only extends the table |
| Store.RotateAccepts | Backend/internal/store/agent_store.go:146-190 | rotation accepts exactly a never-seen fingerprint or the agent's own active certificate, and fails with a duplicate key otherwise |
| Store.NewCertificateStored | Backend/internal/store/agent_store.go:176-189 | a new certificate is stored with its own subject hash and fingerprint, for its agent, active and bound now |
| Store.RotatedIsAccepted | Backend/internal/store/agent_store.go:81-144 | what a rotation stored, registration accepts, again and again, and changes nothing |
| Store.MatchedIsAcceptedAgain | Backend/internal/store/agent_store.go:81-144 | a certificate accepted once is accepted again |
| Store.EnsureMatchingRefuses | Backend/internal/store/agent_store.go:81-144 | a refused certificate is reported as revoked exactly when its fingerprint is stored and revoked, and as a mismatch otherwise |
| Store.CreatedIsAdmitted | Backend/internal/store/enrollment_store.go:23-93 | a created enrollment is admitted with its binding until it expires; a known id is not created again and nothing else changes |
| Store.AdmissionExact | Backend/internal/store/enrollment_store.go:33-93 | exactly the pending, unexpired rows are admitted, each attempt counted; which error each of the others gets |
| Store.ClaimThenRelease | Backend/internal/store/enrollment_store.go:95-129 | exactly a pending, unexpired row is claimed, nobody else can claim or release it, and its release puts it back with its binding kept or cleared |
| Store.FinalizeThenMark | Backend/internal/store/enrollment_store.go:131-182 | finalizing succeeds exactly for a claimed, unexpired row and an acceptable certificate; only then can the row be marked used, and only once |
| Store.AgentsStored | Backend/internal/store/agent_store.go:40-65 | a registered agent is online with its payload, an enrolled one keeps its status and gets its payload, no other agent changes |
| Store.RotateKeeps | Backend/internal/store/agent_store.go:146-190 | a successful rotation leaves its fingerprint as the agent's single active certificate; no row is reactivated or removed |
| Store.EnsureMatchingKeeps | Backend/internal/store/agent_store.go:81-144 | an accepted registration certificate is the agent's single active one afterwards; a refused one changes nothing |
| Store.EnsureMatchingAccepts | Backend/internal/store/agent_store.go:81-144 | exactly which certificates registration accepts |
| Store.RevokedNeverMatches | Backend/internal/store/agent_store.go:81-144 | a revoked fingerprint is refused with the revoked error |
| Service.Database.RotateActiveCertificate | Backend/internal/store/agent_store.go:146-190 | the SELECT, UPDATE and INSERT together are the rotation of `Store.NewCertificateStored` and `Store.RotateAccepts`, with its errors |
| Service.Database.EnsureMatchingCertificate | Backend/internal/store/agent_store.go:81-144 | the lookups and the INSERT are the matching check; on error the certificates are untouched |
| Service.Database.RegisterAgentWithCertificate | Backend/internal/store/agent_store.go:40-65 | the transaction commits agent and certificate together or neither, under every fault |
| Service.Database.CreateEnrollment | Backend/internal/store/enrollment_store.go:23-31 | a new row is pending and bound as created; a known id is a duplicate key |
| Service.Database.GetPendingEnrollment | Backend/internal/store/enrollment_store.go:33-93 | which rows are admitted, the error for each of the others, and the counted attempt |
| Service.Database.ClaimEnrollment | Backend/internal/store/enrollment_store.go:95-113 | only an unexpired pending row is claimed, its agent overwritten |
| Service.Database.ReleaseEnrollmentClaim | Backend/internal/store/enrollment_store.go:115-129 | only the claimer's issuing row goes back to pending, keeping or clearing its agent |
| Service.Database.FinalizeEnrollmentIssue | Backend/internal/store/enrollment_store.go:131-163 | agent, rotation and issuing-to-issued commit together or not at all |
| Service.Database.MarkEnrollmentUsed | Backend/internal/store/enrollment_store.go:165-182 | only the agent's issued row becomes used |
| Service.Enroll | Backend/internal/enrollment/service.go:34-94 | with its `claimed` flag and deferred release, one call is the five steps of its session in the state machine, and succeeds exactly when that session has committed; missing input and a foreign agent number are refused with the tables untouched |
| Server.HandleConn | Backend/internal/enrollment/server.go:45-187 | one connection leaves the tables as its own steps of the state machine do, and sends exactly the frames that the machine's session accounts for, with the refusal of every failing step |
| Server.Answer | Backend/internal/enrollment/server.go:118-184 | the part from the second frame on: the request opened, enrolled and answered, the acknowledgement marking the row used |
| Server.StartSession | Backend/internal/enrollment/server.go:103-115 | keys, proof and challenge, or no session for an empty key |
| Server.TakeRequest | Backend/internal/enrollment/server.go:123-140 | the request exactly when it is authentic and decodes, else the reason sent back |
| Server.MakeResponse | Backend/internal/enrollment/server.go:150-165 | the sealed response, or none exactly when one of its texts is longer than 65535 bytes |
| Server.MonitorTypesDiffer | Backend/internal/collector/protocol.go:539-550 | different monitor types are stored under different names, the three known ones under theirs |
| Server.WhyExact | Backend/internal/enrollment/server.go:123-140 | each reason for refusing a request is given exactly for its cause: the type, bytes not sealed under the session's keys, sealed bytes that are no request |
| Server.RefusalLayout | Backend/internal/enrollment/server.go:181-187 | a refusal has the error type, the number of the frame refused and the message as its payload |
| Server.FramesShape | Backend/internal/enrollment/server.go:45-187 | a connection sends a refusal of the hello, or a challenge and then at most a response or a refusal, each under the number the protocol gives it |
| Server.HelloRefused | Backend/internal/enrollment/server.go:56-100 | each refusal of a hello and its cause: type, payload, row or key, nonce |
| Server.RequestAnswered | Backend/internal/enrollment/server.go:118-165 | a second frame gets the reason if it holds no request, else a refusal or the response, unless that is too long or cannot be sent |
| Server.UsedOnlyOnAck | Backend/internal/enrollment/server.go:162-176 | a connection makes a row used only if it is its own, its response went out and an acknowledgement sealed under the session's keys came back |
| Server.ResponseOnlyAfterCommit | Backend/internal/enrollment/server.go:142-165 | a response frame leaves only after an authentic request and the connection's one commit: the row is issued to the agent derived from the request, the certificate, as issued, is that agent's single active one, and the frame is the sealed response for just them |
| Server.EnrollCommits | Backend/internal/enrollment/service.go:72-93 | a session of Enroll that responds has made exactly one commit, with that row and certificate |
| HonestEnrollment.Enrolls | Agent/src/enroll/enroll.c:536-650 | an agent holding the key of a pending, unexpired, suitably bound enrollment, undisturbed and with a new certificate, sends three frames and gets two; it opens the response made for it; its row ends up used, every other row as it was, the agent is stored as it described itself, and the certificate is its single active one, with which any later registration is accepted |
| HonestEnrollment.Talks | Agent/src/enroll/enroll.c:536-650 | frames of the two sides that fit each other exist under just these conditions |
| HonestEnrollment.EnrollSucceeds | Backend/internal/enrollment/service.go:34-94 | without a fault, a pending unexpired row not bound to another agent and a new fingerprint make Enroll respond, leaving exactly that row issued and exactly that agent's payload changed |
| Enrollment.NextKeeps | Backend/internal/store/enrollment_store.go:95-182 | every step of every interleaving, faults and lost connections included, keeps the invariant on rows, sessions, bindings, commits and certificates |
| Enrollment.RunKeeps | Backend/internal/store/enrollment_store.go:95-182 | the invariant holds after every run |
| Enrollment.OneRotationPerEnrollment | Backend/internal/store/enrollment_store.go:131-163 | in every interleaving an enrollment id commits at most one certificate rotation |
| Enrollment.BindingSurvives | Backend/internal/enrollment/service.go:46-85 | a pending row always carries its original binding, and a pre-bound enrollment is only ever issued to its bound agent |
| Enrollment.CommitIffIssued | Backend/internal/store/enrollment_store.go:131-182 | a rotation commits exactly when its row goes from issuing to issued; issued and used rows never go back |
| Enrollment.ResponseAfterCommit | Backend/internal/enrollment/service.go:61-94 | a session that has a response to send has committed exactly that agent and certificate |
| Enrollment.ClaimIsExclusive | Backend/internal/store/enrollment_store.go:95-113 | at most one session holds the claim on an enrollment |
| Enrollment.OthersLeaveClaimAlone | Backend/internal/store/enrollment_store.go:95-129 | no step of another session, a release included, undoes or changes a held claim |
| Enrollment.OneActiveCertificate | Backend/internal/store/agent_store.go:146-190 | over every run each agent has at most one active certificate and no fingerprint is stored twice |
| Enrollment.RevokedNeverRegisters | Backend/internal/store/agent_store.go:81-144 | a fingerprint once revoked is refused by every later registration |
| Enrollment.RegistrationLeavesSingleActive | Backend/internal/store/agent_store.go:40-144 | a committed registration leaves its fingerprint as the agent's single active row |
| Enrollment.CommitLeavesSingleActive | Backend/internal/store/enrollment_store.go:131-163 | so does every committed rotation |
| Issuance.CommitExact | Backend/internal/store/enrollment_store.go:131-163 | a step that commits is the finalization of an unexpired claim, and commits its session's certificate for its session's agent |
| Issuance.ExpiredIsRefused | Backend/internal/store/enrollment_store.go:33-163 | an expired row is not admitted, not claimed and not issued |
| Issuance.AttemptsExact | Backend/internal/store/enrollment_store.go:78-92 | a row's attempts count exactly its admissions |
| Issuance.UsedByAcknowledge | Backend/internal/store/enrollment_store.go:165-182 | only the acknowledgement of a session that has its response, for the row's agent, makes a row used |
| Issuance.CommitIsAccepted | Backend/internal/store/agent_store.go:81-144 | the certificate a step has committed is accepted by the agent's next registration |
| Issuance.RegisteredIsAcceptedAgain | Backend/internal/store/agent_store.go:40-144 | a registration once accepted is accepted again and changes no certificate |
| Issuance.AcceptedUntilReplaced | Backend/internal/store/agent_store.go:81-190 | over every run: an agent's active certificate stays accepted until another one is committed for that agent |
| Issuance.IssuedIsAccepted | Backend/internal/store/agent_store.go:81-190 | so from its commit in any run on, the agent can register with what it was issued until it is issued another one |
| Enrollment.OrphanIsForever | Backend/internal/store/enrollment_store.go:115-129 | an issuing row whose claim nobody holds stays issuing under every continuation |
| Enrollment.OrphanedExactlyBy | Backend/internal/enrollment/service.go:50-61 | exactly which steps strand a row: a server killed while it holds the claim, a claim whose commit the caller takes for failed, a release that does not take effect |
| Enrollment.StrandedExactlyWhen | Backend/internal/enrollment/service.go:50-93 | over every run of all sessions: a row is stranded at the end if and only if one of these steps occurred |
| Enrollment.NothingStranded | Backend/internal/enrollment/service.go:50-93 | so without a kill, an unreported claim and a failed release nothing is stranded, whatever else fails and however many connections are lost |
| Enrollment.HolderSettles | Backend/internal/enrollment/service.go:54-93 | from any reachable state the rest of the holder's Enroll takes its row out of issuing, whatever issuer and store answer, if its release takes effect |
| Enrollment.KilledServerStrands | Backend/internal/enrollment/service.go:50-61 | a concrete run that strands an enrollment: the process killed between claim and certificate |
| Enrollment.UnknownClaimStrands | Backend/internal/enrollment/service.go:51-53 | another, with the server running: a claim that commits but is reported as failed has no release |
| Enrollment.FailedReleaseStrands | Backend/internal/enrollment/service.go:55-68 | and another: no certificate can be issued, and the deferred release fails |
| Enrollment.LostConnectionReleases | Backend/internal/enrollment/service.go:55-61 | a connection lost at the same point changes nothing: the claim is given back |
| Channel.DeriveSessionKeys | Backend/internal/enrollment/xor_crypto.go:21-37 | Go's keys, and exactly the inputs for which it refuses |
| Channel.DeriveSession | Agent/src/enroll/enroll.c:224-259 | C, filling a zeroed buffer through a moving pointer, derives the same keys from the C strings |
| Channel.ServerProof | Backend/internal/enrollment/xor_crypto.go:39-48 | Go's proof of key possession |
| Channel.ServerProofC | Agent/src/enroll/enroll.c:261-284 | C computes the same proof |
| Channel.BothSides | Backend/internal/enrollment/xor_crypto.go:21-48 | on a key and an id without NUL the Go and the C methods return equal keys and equal proofs |
| Channel.FillTranscript | Agent/src/enroll/enroll.c:228-245 | the zeroed buffer ends up as label, zero, id, zero and the two nonces |
| Channel.DerivedExactly | Backend/internal/enrollment/xor_crypto.go:21-48 | the session, encryption and MAC keys and the proof, as MACs of these labels, ids and nonces |
| Channel.TranscriptExact | Backend/internal/enrollment/xor_crypto.go:27-48 | two exchanges with one transcript have the same id and nonces |
| Channel.LabelsDiffer | Backend/internal/enrollment/xor_crypto.go:21-48 | keys and proofs are never derived under one label |
| Channel.XorBit | Backend/internal/enrollment/xor_crypto.go:105-109 | every bit of the result is set exactly when the bits of text and key differ |
| Channel.XorCommutes | Backend/internal/enrollment/xor_crypto.go:105-109 | text and key play the same part |
| Channel.XorTwice | Backend/internal/enrollment/xor_crypto.go:100-112 | exclusive or with the same byte twice gives the byte back; with `Channel.XorBit` that is what the operation is |
| Channel.CryptTwice | Backend/internal/enrollment/xor_crypto.go:100-112 | applying the keystream twice gives the text back, at any length |
| Channel.KeyByteIs | Backend/internal/enrollment/xor_crypto.go:100-112 | byte 32 b + i of the keystream is byte i of the MAC of frame number and b |
| Channel.BlockInputsDiffer | Backend/internal/enrollment/xor_crypto.go:101-105 | no two blocks, of one frame or of frames of different numbers, have the same MAC input |
| Channel.XorKeystream | Backend/internal/enrollment/xor_crypto.go:100-112 | Go's block loop with its 32-bit counter puts every byte under the keystream byte of its own position, bit by bit as `Channel.XorBit` and `Channel.KeyByteIs` say |
| Channel.XorCrypt | Agent/src/enroll/enroll.c:303-324 | C's loop with its wider counter does the same, in place behind an offset |
| Channel.OpenedExact | Backend/internal/enrollment/xor_crypto.go:50-73 | a payload opens to a plaintext under (type, seq) exactly when it is that plaintext sealed under the same keys, type and number |
| Channel.SealedParts | Backend/internal/enrollment/xor_crypto.go:50-58 | a sealed payload is the MAC of type, number and ciphertext in front of as many bytes as the plaintext |
| Channel.SealedBit | Backend/internal/enrollment/xor_crypto.go:50-58 | every bit of the ciphertext is the plaintext's, flipped exactly where the MAC of frame number and block number has a bit set |
| Channel.TamperingIsCollision | Backend/internal/enrollment/xor_crypto.go:60-98 | two different accepted frames with one MAC are two different inputs that HMAC does not tell apart |
| Channel.SealProtected | Backend/internal/enrollment/xor_crypto.go:50-58 | Go seals as specified |
| Channel.OpenProtected | Backend/internal/enrollment/xor_crypto.go:60-73 | Go opens as specified, refusing short and altered payloads |
| Channel.ProtectPayload | Agent/src/enroll/enroll.c:326-343 | C seals to the same bytes, or refuses what would not fit a frame |
| Channel.OpenProtectedPayload | Agent/src/enroll/enroll.c:345-370 | C opens exactly what Go opens |
| Handshake.FrameExact | Backend/internal/enrollment/protocol.go:66-102 | a stream yields a frame exactly when it begins with that frame's bytes |
| Handshake.FrameLayout | Backend/internal/enrollment/protocol.go:66-102 | a frame on the wire: length with header, type, number, payload |
| Handshake.PayloadLayouts | Backend/internal/enrollment/protocol.go:118-175 | hello, challenge and request on the wire, field by field |
| Handshake.ResponseOnWire | Backend/internal/enrollment/protocol.go:177-193 | the response on the wire, field by field |
| Handshake.WiredExact | Backend/internal/enrollment/protocol.go:177-193 | every text of the response goes into its own field, and none is cut |
| Handshake.WriteFrame | Agent/src/enroll/enroll.c:372-384 | the header counts itself; exactly the payloads that are too long are refused |
| Handshake.ReadFrame | Agent/src/enroll/enroll.c:386-408 | reads the frame the stream begins with, or nothing |
| Handshake.HelloExact | Backend/internal/enrollment/protocol.go:118-135 | the hello decoder accepts exactly the encodings with an id and a 32-byte nonce |
| Handshake.ChallengeExact | Agent/src/enroll/enroll.c:436-460 | the challenge decoder accepts exactly the encodings with 32-byte nonce and proof |
| Handshake.RequestExact | Backend/internal/enrollment/protocol.go:148-175 | the request decoder accepts exactly the encodings, trailing bytes refused |
| Handshake.ResponseExact | Agent/src/enroll/enroll.c:492-506 | the response decoder accepts exactly the encodings |
| Handshake.DecodeHello | Backend/internal/enrollment/protocol.go:118-135 | the reader's steps are that decoder |
| Handshake.DecodeRequest | Backend/internal/enrollment/protocol.go:148-175 | the reader's steps are that decoder |
| Handshake.EncodeRequestPlain | Agent/src/enroll/enroll.c:462-490 | the `remaining` count never runs out: only a string beyond 16 bits of length fails, and the buffer is the encoding |
| Handshake.DecodeResponsePlain | Agent/src/enroll/enroll.c:492-506 | the cursor steps are that decoder |
| Handshake.EncodeResponse | Backend/internal/enrollment/protocol.go:177-193 | the encoding of the response, or an error exactly when one of its texts is longer than 65535 bytes |
| Handshake.DecodeChallenge | Agent/src/enroll/enroll.c:436-460 | the cursor steps are the challenge decoder |
| Handshake.AgentExecute | Agent/src/enroll/enroll.c:536-650 | the frames the agent sends for any replies, and the response it stores, exactly when it acknowledges |
| Handshake.RequestIsAuthentic | Backend/internal/enrollment/server.go:118-140 | the server takes a request exactly when it was sealed under the session's keys for that type and number, and reads what was sealed |
| Handshake.ResponseIsAuthentic | Agent/src/enroll/enroll.c:610-627 | likewise the agent and the response |
| Handshake.AckIsAuthentic | Backend/internal/enrollment/server.go:168-176 | an acknowledgement counts exactly when something was sealed for that type and number under the session's keys |
| Handshake.AgentChecksProof | Agent/src/enroll/enroll.c:582-597 | the agent goes on exactly if the challenge carries the proof of the enrollment key for both nonces |
| Handshake.AgentNeedsChallenge | Agent/src/enroll/enroll.c:436-460 | and not at all from another frame |
| Handshake.AgentSends | Agent/src/enroll/enroll.c:536-650 | the agent's frames with their types, numbers and contents: the hello, the sealed request exactly after a proof, the sealed acknowledgement exactly after a stored authentic response |
| Handshake.ServerChallenges | Backend/internal/enrollment/server.go:90-115 | the server's session for a hello: its keys, its proof and its challenge, or none exactly without a usable key |
| Handshake.HonestKeysAgree | Agent/src/enroll/enroll.c:559-597 | agent and server sharing a NUL-free key and id end with equal keys, and the agent accepts the server's proof |
| Handshake.HonestExchange | Backend/internal/enrollment/server.go:118-176 | with equal keys request, response (number 4) and acknowledgement arrive as sent |
| Wire.ReadExact | Backend/internal/collector/protocol.go:138-186 | a field reads to a value exactly when the bytes there are its encoding |
| Wire.ParseExact | Backend/internal/collector/protocol.go:125-186 | a field list parses to values exactly when the bytes there are what writing them appends |
| Wire.BigEndian16 | Agent/src/transport/protocol.c:12-16 | the high byte of 16 bits goes first |
| Wire.BigEndian32 | Agent/src/transport/protocol.c:18-23 | the bytes of 32 bits go from the highest to the lowest |
| Wire.BigEndian64 | Agent/src/transport/protocol.c:25-32 | and so do those of 64 bits |
| Wire.LayoutAppend | Agent/src/transport/protocol.c:134-145 | fields follow one another in the order written |
| Wire.BinReader.ReadU8 | Backend/internal/collector/protocol.go:138-145 | advances by one field of the format, or shows the whole format cannot be read |
| Wire.BinReader.ReadU16 | Backend/internal/collector/protocol.go:147-154 | the same for 16 bits, big-endian |
| Wire.BinReader.ReadU32 | Backend/internal/collector/protocol.go:156-163 | the same for 32 bits |
| Wire.BinReader.ReadU64 | Backend/internal/collector/protocol.go:165-173 | the same for two 32-bit halves |
| Wire.BinReader.ReadStr | Backend/internal/collector/protocol.go:175-186 | the same for a length and that many bytes |
| Wire.WriteU32 | Agent/src/transport/protocol.c:18-23 | appends the big-endian bytes at the pointer and keeps what was written before |
| Wire.WriteU64 | Agent/src/transport/protocol.c:25-32 | the same for the two halves |
| Wire.WriteStr | Agent/src/transport/protocol.c:34-41 | the same for a length and the bytes |
| Messages.DecodedExact | Backend/internal/collector/protocol.go:344-452 | the collector accepts exactly the encodings of events with a chain of the stated depth of at most 16, and returns the event encoded |
| Messages.HeadLayout | Agent/src/transport/protocol.c:238-268 | the fixed part of a FILE_EVENT on the wire, field by field |
| Messages.EntryLayout | Agent/src/transport/protocol.c:212-221 | a chain entry on the wire, field by field |
| Messages.EntriesInOrder | Agent/src/transport/protocol.c:262-269 | the entries follow in order |
| Messages.PrefixFree | Backend/internal/collector/protocol.go:431-433 | no accepted payload is a proper prefix or an extension of another |
| Messages.DecodeFrom | Backend/internal/collector/protocol.go:344-452 | how the decoder fares on any bytes that start like an encoding |
| Messages.DecodeFileEvent | Backend/internal/collector/protocol.go:344-452 | the field-by-field reading with its early returns is that decoder |
| Messages.DecodeProcessInfo | Backend/internal/collector/protocol.go:454-507 | one chain entry is read as its ten fields, or not at all |
| Messages.DecodeChain | Backend/internal/collector/protocol.go:419-430 | the loop reads as many entries as the depth says |
| AgentCodec.StrNLen | Agent/src/transport/protocol.c:205-208 | the length up to the first NUL or the whole array |
| AgentCodec.ChainEntryEncode | Agent/src/transport/protocol.c:200-223 | the whole entry is written, laid out as `Messages.EntryLayout` and filled as `AgentCodec.EntryReadBack` says, or nothing exactly when it does not fit |
| AgentCodec.FileEventEncode | Agent/src/transport/protocol.c:225-272 | returns -1 exactly when the buffer is too small, else the encoding and its length |
| AgentCodec.GoReadsBack | Agent/src/transport/protocol.c:225-272 | the collector reads back exactly the message the agent encoded, for all paths, names and chains, if and only if the depth byte is at most 16; field by field in the next two rows |
| AgentCodec.EventReadBack | Agent/src/transport/protocol.c:225-272 | every field of the fixed part comes out as it went in, and as many entries as the depth, at most 16 |
| AgentCodec.EntryReadBack | Agent/src/transport/protocol.c:200-223 | every chain entry comes out with its own pid, parent, user ids, session and start, and each text is that of its own array |
| AgentCodec.CTextUnique | Agent/src/transport/protocol.c:205-208 | the text of an array is all that precedes its first NUL |
| AgentCodec.DepthMinusOneIsRejected | Agent/src/transport/protocol.c:255-269 | with the depth -1 the depth byte is 255 and the collector rejects the message |
| AgentCodec.NonNegativeDepthIsRead | Agent/src/transport/protocol.c:255-269 | with a non-negative depth it always does, with the first 16 entries at most |
| AgentCodec.OnlyWholeEncodings | Backend/internal/collector/protocol.go:431-433 | cutting an encoding short or adding to it makes it unreadable |
| AgentCodec.EventFits | Agent/src/transport/tcp_client.c:492-536 | any event fits the 65526-byte buffer, and with a non-negative depth is read back |
| AgentCodec.EventArrives | Agent/src/transport/tcp_client.c:492-536 | what the collector reads of an event: its kind and source mapped as the agent maps them, path, name and command as C texts, its numbers, its chain |
| AgentCodec.RegisterLayout | Agent/src/transport/protocol.c:134-145 | a REGISTER payload on the wire |
| AgentCodec.HeartbeatLayout | Agent/src/transport/protocol.c:177-186 | a HEARTBEAT payload on the wire |
| AgentCodec.RegisterEncode | Agent/src/transport/protocol.c:134-145 | -1 exactly when the buffer is too small, else the encoding |
| AgentCodec.DecodeRegister | Backend/internal/collector/protocol.go:295-324 | the reader's steps are the decoder below |
| AgentCodec.RegisterExact | Backend/internal/collector/protocol.go:295-324 | the collector accepts exactly the payloads that start with an encoding and returns what was encoded |
| AgentCodec.HeartbeatEncode | Agent/src/transport/protocol.c:177-186 | -1 exactly when the buffer is too small, else the 13 bytes of the encoding |
| AgentCodec.DecodeHeartbeat | Backend/internal/collector/protocol.go:327-341 | one length check in front suffices for the three reads |
| AgentCodec.HeartbeatExact | Backend/internal/collector/protocol.go:327-341 | the collector accepts exactly the payloads that start with an encoding and returns what was encoded |
| Connection.FrameExact | Backend/internal/collector/protocol.go:247-272 | a stream yields a frame exactly when it begins with that frame's bytes |
| Connection.FrameOnWire | Agent/src/transport/protocol.c:116-132 | a frame byte by byte: payload length, type, number, payload |
| Connection.ReadFrame | Backend/internal/collector/protocol.go:247-272 | reads the frame at the front, refusing a length over 65535 |
| Connection.TornFrame | Backend/internal/collector/protocol.go:247-272 | what is read from a frame cut off at any byte, in its header or its payload, and whatever follows it |
| Connection.TcpClient.NextSeq | Agent/src/transport/tcp_client.c:15-21 | numbers wrap at 32 bits |
| Connection.TcpClient.SendFrame | Agent/src/transport/tcp_client.c:323-372 | what reaches the wire, the number taken, the failure count and the return code, for every fate of the two writes |
| Connection.TcpClient.Connect | Agent/src/transport/tcp_client.c:218-227 | a new connection starts at number 0 with nothing written |
| Connection.TcpClient.Disconnect | Agent/src/transport/tcp_client.c:241-264 | numbers and failures are reset |
| Connection.RunOrderly | Agent/src/transport/tcp_client.c:374-385 | over any order of whole operations the wire is the frames sent, in order, numbered from 1 |
| Connection.DeliveredExactly | Agent/src/transport/tcp_client.c:323-372 | over any sends of a connection: the frames delivered are the successful sends in order, and the failure count is that of the last failures in a row, modulo 3 |
| Connection.ServesAll | Backend/internal/collector/agent_session.go:82-109 | a stream numbered on from the last number is taken to its end |
| Connection.NeverOutOfStep | Backend/internal/collector/agent_session.go:82-109 | for any threads sending successfully the collector reads exactly the frames sent, in order, numbered modulo 2^32, and its check never ends the connection, the wrap included |
| Connection.TakenIfInStep | Agent/src/transport/tcp_client.c:341-369 | over every run of sends that are delivered or fail with nothing written: the collector takes every delivered frame if and only if each has its predecessor's next number or that number is 0, and otherwise exactly those before the first that has not |
| Connection.TakenIfNoGap | Agent/src/transport/tcp_client.c:341-369 | over the same runs, in terms of the sends alone: everything delivered is taken if and only if between any two deliveries in a row a multiple of 2^32 sends is lost or the earlier one is a multiple of 2^32 sends into the connection |
| Connection.ShortConnection | Agent/src/transport/tcp_client.c:341-369 | with fewer than 2^32 sends that means: no send is lost between two delivered ones |
| Connection.LostNumber | Agent/src/transport/tcp_client.c:341-369 | after one such failure the next frame is refused, if and only if the last number accepted is not 0 |
| Connection.TornFrameWaits | Agent/src/transport/tcp_client.c:344-346 | a partial write as the last send changes nothing of what the collector dispatches |
| Connection.TornFrameSwallows | Agent/src/transport/tcp_client.c:344-346 | the bytes sent next complete a frame cut anywhere, for any bytes: the frame dispatched or refused, and how the reading goes on |
| Connection.HalfWrittenFrameCorrupts | Agent/src/transport/tcp_client.c:344-369 | a concrete run in which the collector dispatches a frame that was never sent in place of one that was |
| Connection.CarefulLosesNothing | Agent/src/main.c:240-252 | if every failed send, however much was written, is followed by a new connection, exactly the delivered frames are dispatched, over any run |
| Collector.AgentSession.Run | Backend/internal/collector/agent_session.go:59-109 | the loop leaves session, tables and stores as the handlers do when given the frames in step one after the other, until one closes the connection |
| Collector.AgentSession.HandleRegister | Backend/internal/collector/agent_session.go:112-190 | every refusal, the naming before the store is asked, and the store's answer |
| Collector.AgentSession.HandleHeartbeat | Backend/internal/collector/agent_session.go:200-214 | ignored when it does not decode, closing when it names another agent |
| Collector.AgentSession.HandleFileEvent | Backend/internal/collector/agent_session.go:217-278 | likewise, and saved as decoded otherwise |
| Collector.AgentSession.ValidateAgentIdentity | Backend/internal/collector/agent_session.go:44-56 | passes exactly the number of a registered session, else closes |
| Collector.GenerateAgentID | Backend/internal/collector/protocol.go:576-589 | the loop is the 64-bit hash, which is never 0 |
| Collector.HashSnoc | Backend/internal/collector/protocol.go:576-582 | the host name is read as digits to the base 31, modulo 2^64 |
| Collector.AgentNumberExact | Backend/internal/collector/protocol.go:576-589 | the address is the last digit, and 0 becomes 1 |
| Collector.ShortName | Backend/internal/collector/protocol.go:576-589 | the number of a host with a name of two letters |
| Collector.MatchesExact | Backend/internal/collector/agent_session.go:192-198 | the identity check accepts exactly the prefix followed by the agent's number |
| Collector.PacketMeans | Backend/internal/collector/agent_session.go:82-109 | which packets are ignored, which close the connection and which are saved |
| Collector.HeartbeatMeans | Backend/internal/collector/agent_session.go:200-214 | a heartbeat is reported exactly in the name of the registered agent, and closes the connection otherwise |
| Collector.RegistrationMeans | Backend/internal/collector/agent_session.go:112-190 | a registration under a certificate of another agent is refused with nothing stored; else the store decides: acknowledged, refused with the connection closed, or failed with it left open |
| Collector.SpeaksForItsCertificate | Backend/internal/collector/agent_session.go:112-190 | whatever bytes a peer sends, every report of its session is about the one agent its certificate names; a session that reports begins with the acknowledgement, its certificate that agent's single active one, if and only if the store does not fail, and is never acknowledged otherwise |
| Collector.ReportsAfterStoreFailure | Backend/internal/collector/agent_session.go:150-171 | a concrete session that reports without having been acknowledged |
| Collector.EventsArrive | Agent/src/transport/tcp_client.c:492-536 | whatever threads of an agent send on one connection, in any order: the collector keeps it open and reports the acknowledgement and then exactly what was sent, in order and unaltered, if and only if it admits the registration |
| Collector.KnownEventsAreSaved | Agent/src/transport/tcp_client.c:513-517 | events of a known source with a non-negative depth are then all saved as sent |
| Collector.MessageExact | Agent/src/transport/tcp_client.c:492-536 | what is sent of a heartbeat or an event, and exactly which of them the collector reports |
| PathCache.ScanMeaning | Agent/src/ebpf/ig_trace.c:149-221 | the probe loop hits exactly when the key is stored, offers a slot exactly when it is absent and some slot is EMPTY, and gives up otherwise |
| PathCache.OfferIsFirst | Agent/src/ebpf/ig_trace.c:153-170 | the slot offered is the first of the probe sequence that holds no path, so a tombstone passed is used again |
| PathCache.PutRefines | Agent/src/ebpf/ig_trace.c:149-180 | put is an exact map update, of a path cut as `PathCache.PutThenGet` says, when the key is present or some slot is EMPTY, and changes nothing otherwise |
| PathCache.GetRefines | Agent/src/ebpf/ig_trace.c:182-202 | get is exact lookup |
| PathCache.PutThenGet | Agent/src/ebpf/ig_trace.c:149-202 | a path put is got as it was put if it is shorter than 4096 bytes, else its first 4095; no other key is affected |
| PathCache.RemoveRefines | Agent/src/ebpf/ig_trace.c:204-221 | remove is exact deletion, and keeps every probe chain intact |
| PathCache.RemoveThenGet | Agent/src/ebpf/ig_trace.c:182-221 | a key removed is not found, every other key is |
| PathCache.AgentHashIs | Agent/src/ebpf/ig_trace.c:143-147 | a key's home is its own mixed value modulo 16384 |
| PathCache.MixSamples | Agent/src/ebpf/ig_trace.c:143-147 | sample values of the mixing of device and inode |
| PathCache.FollowsIdealMap | Agent/src/ebpf/ig_trace.c:149-221 | from any valid table, as long as fewer new-key puts occur than slots are EMPTY, the table stands for the ideal map |
| PathCache.FreshTableFollowsIdealMap | Agent/src/ebpf/ig_trace.c:126-221 | no put is lost until as many new-key puts as slots have occurred |
| PathCache.AgentTableFollowsIdealMap | Agent/src/ebpf/ig_trace.c:126-221 | the same for the agent's 16384 slots and its hash |
| PathCache.LostPut | Agent/src/ebpf/ig_trace.c:149-221 | the bound is sharp for every capacity and hash: any as many different keys as slots, put and removed again, leave an empty map on which every put is lost |
| PathCache.AgentLostPut | Agent/src/ebpf/ig_trace.c:126-221 | so it happens to the agent's 16384 slots under its own hash |
| PathCache.ProbeIsModulo | Agent/src/ebpf/ig_trace.c:154-155 | the probe sequence is addition modulo the capacity |
| PathCache.Cache.PutPath | Agent/src/ebpf/ig_trace.c:149-180 | the loop in the array, remembering the first tombstone, is the put of `PathCache.PutThenGet` |
| PathCache.Cache.GetPath | Agent/src/ebpf/ig_trace.c:182-202 | the loop is that lookup: the stored path, or the inode number in its place, whole if it is shorter than the caller's buffer and else cut to it |
| PathCache.Cache.RemovePath | Agent/src/ebpf/ig_trace.c:204-221 | the loop is that removal |
| HookDedup.SlotHoldsLastPass | Agent/src/ebpf/ig_trace.c:247-275 | each slot holds the last event that passed into it |
| HookDedup.SuppressedExactly | Agent/src/ebpf/ig_trace.c:254-275 | over any run an event is suppressed exactly when the last event that passed into its slot has its key and is less than 200 ms older in 64-bit arithmetic |
| HookDedup.PassesAreApart | Agent/src/ebpf/ig_trace.c:254-275 | with non-decreasing timestamps two passes of one key are at least 200 ms apart unless a colliding key passed between them |
| HookDedup.BackwardsPasses | Agent/src/ebpf/ig_trace.c:261-265 | exactly when an event older than the stored one is suppressed |
| HookDedup.AgentSlotIs | Agent/src/ebpf/ig_trace.c:247-251 | an event's slot is its own mixed value modulo 4096 |
| HookDedup.MixSamples | Agent/src/ebpf/ig_trace.c:247-251 | sample values of the mixing of device, inode and operation |
| HookDedup.Dedup.Check | Agent/src/ebpf/ig_trace.c:254-275 | the check and the update of the table |
| Ancestry.WalkIsPath | Agent/src/scanner/pid_ancestry.c:233-256 | the walk is a parent path of at most max_depth entries, untruncated exactly when its last entry is terminal |
| Ancestry.PathIsWalkPrefix | Agent/src/scanner/pid_ancestry.c:233-256 | every such parent path is a prefix of the walk |
| Ancestry.WalkIsLongestPath | Agent/src/scanner/pid_ancestry.c:233-256 | so the walk is the longest one |
| Ancestry.WalkLinks | Agent/src/scanner/pid_ancestry.c:233-256 | it starts at the given pid, and each entry's parent is the next entry |
| Ancestry.WalkGoesOn | Agent/src/scanner/pid_ancestry.c:233-256 | every entry is what the lookup of its step gives for the parent of the one before, and is no last one unless that parent is at most 1 or itself |
| Ancestry.WalkEnds | Agent/src/scanner/pid_ancestry.c:233-256 | where the walk ends and when it counts as truncated |
| Ancestry.Resolve | Agent/src/scanner/pid_ancestry.c:233-256 | the loop over /proc is the walk |
| Ancestry.EbpfCollect | Agent/src/ebpf/ig_trace.c:71-119 | the loop over the BPF map with its /proc fallback is the walk over the combined lookup |
| Ancestry.EbpfSourceWellKeyed | Agent/src/ebpf/ig_trace.c:71-119 | the combined lookup answers for the pid asked, so the walk's theorems apply |
| Ancestry.EbpfChainIsLongestPath | Agent/src/ebpf/ig_trace.c:71-119 | the eBPF chain is the longest parent path over the map and /proc together, truncated exactly when it does not end in a terminal process |
| Ancestry.EbpfChainShows | Agent/src/ebpf/ig_trace.c:89-113 | an entry of the chain shows the fields of the map's entry for its pid, exe and a missing cmdline from /proc, or else what /proc has |
| PidLru.BeginKeeps | Agent/src/scanner/pid_ancestry.c:460-481 | the first locked section keeps the list duplicate-free and equal to the slots in use, and accounts for the lookup |
| PidLru.InsertKeeps | Agent/src/scanner/pid_ancestry.c:484-495 | so does the second, evicting the tail only when no slot is free |
| PidLru.NextKeeps | Agent/src/scanner/pid_ancestry.c:460-495 | every step of every interleaving keeps the invariant |
| PidLru.EveryInterleaving | Agent/src/scanner/pid_ancestry.c:460-495 | lookups = hits + misses, and misses = entries + evictions + reuse drops + inserts under way, over every interleaving |
| PidLru.HitWasInserted | Agent/src/scanner/pid_ancestry.c:460-475 | a hit, in any interleaving, returns a chain inserted for the same pid and start time |
| PidLru.HitsExactly | Agent/src/scanner/pid_ancestry.c:463-481 | a lookup hits exactly when the pid is on the list with that start time |
| PidLru.ResolvedBumps | Agent/src/scanner/pid_ancestry.c:446-498 | a lookup moves its pid to the front and drops what no longer fits |
| PidLru.HoldsLatestPids | Agent/src/scanner/pid_ancestry.c:446-498 | single-threaded, the list holds exactly the last `capacity` distinct pids looked up, newest first |
| PidLru.HitsLatestPids | Agent/src/scanner/pid_ancestry.c:446-498 | so a single-threaded lookup hits exactly when its visit is among the last `capacity` distinct pids, and answers with a chain read for that very visit |
| PidLru.LatestExact | Agent/src/scanner/pid_ancestry.c:446-498 | these are the newest visits of every pid, newest first |
| PidLru.UnlinkedAt | Agent/src/scanner/pid_ancestry.c:358-365 | bypassing a node leaves a well-formed doubly linked list without it |
| PidLru.PushedFront | Agent/src/scanner/pid_ancestry.c:367-374 | prepending a node leaves a well-formed doubly linked list with it in front |
| PidLru.Cache.Unlink | Agent/src/scanner/pid_ancestry.c:358-365 | the pointer updates remove exactly that node |
| PidLru.Cache.PushFront | Agent/src/scanner/pid_ancestry.c:367-374 | the pointer updates put exactly that node in front |
| PidLru.Cache.AllocSlot | Agent/src/scanner/pid_ancestry.c:386-401 | the lowest free slot, else the evicted tail |
| PidLru.Cache.LookupSection | Agent/src/scanner/pid_ancestry.c:460-481 | the section on the linked slots is the first section, so it hits exactly as `PidLru.HitsExactly` says |
| PidLru.Cache.InsertSection | Agent/src/scanner/pid_ancestry.c:484-495 | the section on the linked slots is the second section |
| PidLru.Cache.ResolveCached | Agent/src/scanner/pid_ancestry.c:446-498 | what a whole lookup returns and leaves behind |
| ProcCache.NextKeeps | Agent/src/lkm/ig_lkm_proc_cache.c:244-347 | fork, exec, exit, preload and collection keep one entry per pid, at most 8192 of them, and account for every entry ever inserted |
| ProcCache.EveryRun | Agent/src/lkm/ig_lkm_proc_cache.c:244-518 | so does every run |
| ProcCache.ForkMeans | Agent/src/lkm/ig_lkm_proc_cache.c:244-291 | a fork puts the new process in front; an entry of its pid, or else the last one of a full cache, makes way; the others keep their order |
| ProcCache.ExecMeans | Agent/src/lkm/ig_lkm_proc_cache.c:293-327 | an exec moves its process to the front under its new names, keeping what could not be read |
| ProcCache.ExitMeans | Agent/src/lkm/ig_lkm_proc_cache.c:329-347 | an exit marks its process and moves it to the back |
| ProcCache.PreloadMeans | Agent/src/lkm/ig_lkm_proc_cache.c:473-518 | a preload adds a process not held in front of a cache that is not full, and does nothing else |
| ProcCache.NextLiveFirst | Agent/src/lkm/ig_lkm_proc_cache.c:293-347 | live entries stay in front of exited ones if and only if exec does not find an exited entry while another lives and a zero exit mark does not go behind an exited one |
| ProcCache.OrderlyRunLiveFirst | Agent/src/lkm/ig_lkm_proc_cache.c:244-347 | over every run of such steps all live entries precede all exited ones |
| ProcCache.EvictionSparesLive | Agent/src/lkm/ig_lkm_proc_cache.c:146-156 | after any such run a fork drops at most the tail, and a live entry only when no exited one of another process is left |
| ProcCache.SkippedForkBreaksOrder | Agent/src/lkm/ig_lkm_proc_cache.c:293-327 | a concrete run in which a skipped fork and an exec put an exited entry in front of a live one |
| ProcCache.SweepCuts | Agent/src/lkm/ig_lkm_proc_cache.c:451-461 | a collection removes the expired entries behind some cut and nothing else, and stops at a cut only with its budget of 256 used up |
| ProcCache.SweepOrder | Agent/src/lkm/ig_lkm_proc_cache.c:451-461 | what a collection keeps, it keeps in order |
| ProcCache.GcPass | Agent/src/lkm/ig_lkm_proc_cache.c:444-465 | with a clock not behind any exit mark: only entries past the grace period, from the tail, at most 256, and if fewer none is left |
| ProcCache.ReapedEarly | Agent/src/lkm/ig_lkm_proc_cache.c:454 | exactly which clocks make an entry count as expired before its grace period is over |
| ProcCache.ClockSetBack | Agent/src/lkm/ig_lkm_proc_cache.c:444-465 | a concrete run in which a fork, its exit and a collection with an earlier clock lose the entry at once |
| ProcCache.GcSparesLive | Agent/src/lkm/ig_lkm_proc_cache.c:453 | no collection removes a live entry, whatever the clock |
| ProcCache.IndexedAfterAdd | Agent/src/lkm/ig_lkm_proc_cache.c:285-286 | hash and list hold the same entries, each once in its own bucket, after an addition |
| ProcCache.IndexedAfterDelete | Agent/src/lkm/ig_lkm_proc_cache.c:146-156 | and after a removal from both |
| ProcCache.Cache.FindLocked | Agent/src/lkm/ig_lkm_proc_cache.c:136-143 | searching one bucket finds what searching the whole list would |
| ProcCache.Cache.OnFork | Agent/src/lkm/ig_lkm_proc_cache.c:244-291 | the callback on the shared entries is the fork step |
| ProcCache.Cache.OnExec | Agent/src/lkm/ig_lkm_proc_cache.c:293-327 | the callback is the exec step, seen through both structures |
| ProcCache.Cache.OnExit | Agent/src/lkm/ig_lkm_proc_cache.c:329-347 | the callback is the exit step |
| ProcCache.Cache.PreloadAll | Agent/src/lkm/ig_lkm_proc_cache.c:473-518 | stopping at the first process found with the cache full leaves what preloading every process would |
| ProcCache.Cache.GcWork | Agent/src/lkm/ig_lkm_proc_cache.c:444-465 | the reverse loop is the collection step |
| ProcCache.Cache.CollectChain | Agent/src/lkm/ig_lkm_proc_cache.c:351-400 | the loop is the bounded walk over the cache; hits count its entries, misses its failed lookup |
| ProcCache.ChainIsLongestPath | Agent/src/lkm/ig_lkm_proc_cache.c:351-400 | the kernel's chain is the longest parent path through the cache, truncated exactly when it does not end in a terminal process, and shows cached entries only |
| ProcCache.ChainShows | Agent/src/lkm/ig_lkm_proc_cache.c:362-395 | every entry shows its own cached row, exe and cmdline cut to 127 and 255 bytes, followed by its parent's row unless the walk ends there |
| StatParser.ParsedRendered | Agent/src/scanner/pid_ancestry.c:91-156 | for every command name, spaces and parentheses included, a rendered line parses back to its fields |
| StatParser.ParsedFromFile | Agent/src/scanner/pid_ancestry.c:56-66 | also when the line is longer than the 1023 bytes read, as long as field 22 ends within them |
| StatParser.StatRoundTrip | Agent/src/scanner/pid_ancestry.c:91-156 | for every command name: parent, session and start ticks come back as they were rendered, the terminal's text is that of the device packed and printed, the start time is computed from the ticks |
| StatParser.TtyNamesDiffer | Agent/src/scanner/pid_ancestry.c:69-88 | the terminal's text tells which device it is |
| StatParser.TtySamples | Agent/src/scanner/pid_ancestry.c:69-88 | sample device numbers and their texts |
| StatParser.StartTimeIs | Agent/src/scanner/pid_ancestry.c:147-153 | as long as it fits 64 bits the start time is boot time plus ticks, exactly if the tick rate divides a second into whole nanoseconds, else short by at most a nanosecond per tick |
| StatParser.UnknownStart | Agent/src/scanner/pid_ancestry.c:147-155 | and 0 without a boot time or tick rate |
| StatParser.Comm | Agent/src/scanner/pid_ancestry.c:107-111 | a command name of at most 15 bytes is kept whole, a longer one cut to 15 |
| StatParser.SplitInvertsPacking | Agent/src/scanner/pid_ancestry.c:69-88 | the terminal split inverts the device packing for major < 256 and minor < 2^20, also when the number was printed negative |
| StatParser.FieldIs | Agent/src/scanner/pid_ancestry.c:122-140 | each field is found by its number whatever follows the last |
| StatParser.NumberReadBack | Agent/src/scanner/pid_ancestry.c:129-135 | a rendered number is read back by strtol and, modulo 2^64, by strtoul |
| StatParser.NumbersStick | Agent/src/scanner/pid_ancestry.c:129-135 | numbers beyond the range of the type stick to its ends |
| StatParser.ParseFields | Agent/src/scanner/pid_ancestry.c:118-140 | the cursor loop takes fields 4, 6, 7 and 22, missing ones staying 0 |
| StatParser.ParseStat | Agent/src/scanner/pid_ancestry.c:91-156 | the cursor loops are the parse with terminal text and start time, refusing a line without a parenthesised name |
| Text.DecimalRoundTrip | Agent/src/scanner/pid_ancestry.c:129-135 | reading a rendered numeral gives the number back, whatever non-digit follows |
| Text.DecimalIsCanonical | Agent/src/ebpf/ig_trace.c:201 | a rendered numeral has no leading zero |
| EventQueue.NextKeeps | Agent/src/ig_queue.c:33-91 | push and pop keep the items equal to the latest part of the push history, and pushes = pops + dropped + items |
| EventQueue.EveryRun | Agent/src/ig_queue.c:33-91 | so does every run |
| EventQueue.OldestGoesFirst | Agent/src/ig_queue.c:33-91 | a push appends its event and drops exactly the oldest one, and only when 512 are held; a pop takes exactly the oldest event neither popped nor dropped |
| EventQueue.Ring.Push | Agent/src/ig_queue.c:33-50 | the array with its wrapping indices performs the push |
| EventQueue.Ring.Pop | Agent/src/ig_queue.c:59-91 | and the pop, -1 exactly when empty |
| Mitre.RulesAreInGlossary | LLM/app/classify.py:304-344 | no rule names a technique the glossary cannot explain |
| Mitre.PartOf | LLM/app/classify.py:385-396 | a part of a technique is placed where the technique is |
| Mitre.PhaseOf | LLM/app/classify.py:350-372 | which techniques each tactic has, all others evading defences, and the phase of each tactic |
| Mitre.TacticOrder | LLM/app/classify.py:375-382 | the order of the tactics |
| Aggregate.CellsExact | LLM/app/aggregate.py:141-166 | every severity, category, host and day cell, the days' totals, blocked, unblocked and Critical counts included, counts exactly the events it is for; a category is flagged exactly when one of its events is Critical |
| Aggregate.EventFacts | LLM/app/aggregate.py:145-158 | what rank, day, host and techniques an event counts for |
| Aggregate.TechsExact | LLM/app/aggregate.py:154-155 | the technique counter counts the events that name the technique |
| Aggregate.CountsAddUp | LLM/app/aggregate.py:141-201 | severity, category and host counts each add up to the events with a path; each day's severity buckets to its blocked count; blocked and unblocked to its total; the unblocked total is never cut off at 0 |
| Aggregate.CountEvents | LLM/app/aggregate.py:128-166 | the counting loop is that count |
| Aggregate.DayLabels | LLM/app/aggregate.py:35-40 | the report's days are the last of the range, at most 31 |
| Aggregate.ColumnsKeep | LLM/app/aggregate.py:237-245 | the built matrix holds exactly the counted techniques, columns in tactic order, techniques by falling count |
| Aggregate.BuiltIsWellBuilt | LLM/app/aggregate.py:236-265 | the skeleton meets what patching relies on: the matrix holds exactly the techniques of the events with their counts, the glossary exactly those of them with an entry of their own, and every incident technique is in both once |
| Aggregate.IncidentsExact | LLM/app/aggregate.py:247-253 | the incidents are at most four events with a path and a time, more severe first, then later, then listed first; no event left out goes before one taken, and none is left out unless four are; each has its event's severity and techniques |
| Assemble.ClassifiedKeeps | LLM/app/assemble.py:75-93 | a patch may add known techniques to an incident; those found by the rules stay, in order and in front |
| Assemble.ReclassifiedExact | LLM/app/assemble.py:75-93 | one entry adds exactly the known techniques it names, then gives the phases of all, and sets the severity it states |
| Assemble.ClassifiedExact | LLM/app/assemble.py:75-93 | after the whole patch an incident has exactly the rules' techniques and the known ones named for it, the severity stated last, and the phases of its techniques once one was named |
| Assemble.KillFor | LLM/app/assemble.py:56-58 | the kill-chain phases are exactly those of the techniques, ascending, never empty |
| Assemble.AddTechsKeeps | LLM/app/assemble.py:120-134 | the matrix keeps every technique and count and gains exactly the missing incident techniques in their tactic's column |
| Assemble.AddRowsKeeps | LLM/app/assemble.py:108-118 | the glossary keeps every row and gains exactly the missing known techniques |
| Assemble.EntryForExact | LLM/app/assemble.py:113-115 | a technique is explained by its own entry, else by its base's |
| Assemble.ArrangedKeeps | LLM/app/assemble.py:135-139 | sorting loses and invents nothing and puts columns in tactic order, techniques by falling count |
| Assemble.ReconciledKeeps | LLM/app/assemble.py:96-139 | after reconciling every incident technique is once in the matrix and once in the glossary, which gain nothing else |
| Assemble.AfterAnyPatch | LLM/app/assemble.py:142-155 | after any patch: each incident technique exactly once in matrix and glossary, earlier techniques, counts and rows kept, new ones with their number of incidents, columns in tactic order, ready for the next patch |
| Assemble.Skeleton.ApplyIncidentClassification | LLM/app/assemble.py:75-93 | the loop over the patch in place is that classification |
| Assemble.Skeleton.ReconcileMitre | LLM/app/assemble.py:96-139 | the loops in place are that reconciliation |
| Overlay.Draft.ApplyPatch | LLM/app/assemble.py:142-155 | the whole patch from its JSON: the three overlays, the checked classification with its index and severity, the reconciliation, the summary; an exception leaves the texts written so far and everything counted as it was |
| Overlay.InfiniteIndexBreaks | LLM/app/assemble.py:21-25 | applying a patch raises if and only if an entry of one of its lists has an infinite number as its index |
| Overlay.OneInfiniteIndex | LLM/app/assemble.py:158-167 | a concrete patch that raises |
| Overlay.RaisesExactly | LLM/app/assemble.py:28-41 | one overlay raises exactly then, and leaves what the entries before the first such index wrote |
| Overlay.OverlayItems | LLM/app/assemble.py:28-41 | the loops over entries and fields are the overlay, ending at the first exception |
| Overlay.LastSaidWins | LLM/app/assemble.py:28-41 | a text field ends up as the last usable entry for its item says, up to an infinite index, and as it was when there is none or the field is not one a patch may write |
| Overlay.StripExact | LLM/app/assemble.py:39-41 | stripping takes spaces from both ends and nothing else |
| Overlay.IndexExact | LLM/app/assemble.py:21-25 | the index an entry is about |
| Overlay.SeverityStated | LLM/app/assemble.py:91-93 | an entry states a severity exactly by one of the four names |
| Overlay.NamesAppend | LLM/app/assemble.py:61-72 | the names offered keep the order of the list |
| Overlay.TechniquesExact | LLM/app/assemble.py:61-93 | from the JSON of the patch: a technique is in an incident exactly when the rules put it there or an entry for the incident offers it and the glossary knows it |
| Overlay.RewordExact | LLM/app/assemble.py:142-155 | each list is overlaid on its own fields, and the summary replaced only by one that is not blank |
| Overlay.PatchReaches | LLM/app/assemble.py:142-155 | of a patch exactly its list of incidents reaches the incidents, and no patch changes nothing |
| Ordered.Dedupe | LLM/app/assemble.py:46-53 | the first occurrence of each non-empty name, in order |
| Ordered.SortStable | LLM/app/assemble.py:137-139 | sorting keeps the order of what compares equal |
| Ordered.SortMultiset | LLM/app/assemble.py:137-139 | sorting rearranges and does nothing else |
| Ordered.SortAt | LLM/app/aggregate.py:248-251 | where the elements of a sorted list come from: in order, and as they came where they compare equal |
| Ordered.AtMostExact | LLM/app/assemble.py:118 | the order of strings |
| Ordered.BumpInPlace | LLM/app/assemble.py:100-104 | a counter keeps its keys in the order of their first appearance |

## Left out

- Sockets, TLS, X.509 issuing, AES-GCM, SHA-256, bcrypt, MySQL itself, memory exhaustion and memory zeroing.
- DeleteAgent with its cascades, heartbeat and offline updates, the collector's session-map replacement and offline marking, HTTP handlers, SSE, the console and the language-model calls.
- Store: each transaction is one atomic step; string equality is exact, without MySQL's collation; timestamps other than `bound_at` and the expiry are not stored; a commit whose outcome is unknown is a fault after the operation took effect.
- Service.Enroll: the agent number and the issued certificate are parameters; parsing the address, deriving the number (`Collector.GenerateAgentID`) and signing the certificate happen outside it.
- Server.HandleConn: the frames that can be read are given as a list, deadlines are not modelled, and the key vault with its hash check is one function.
- Channel.Xor: defined bit by bit on numbers below 256 rather than by a machine instruction.
- Handshake.EncodeRequestPlain: a NUL inside a received text, which would end the C string early, is kept as a byte; whether the agent can write its files is one condition.
- Connection.TcpClient.SendFrame: reconnecting with its delays and the cached registration is not modelled; the wire takes bytes up to a budget and then fails.
- Collector.AgentSession.Run: a closed connection yields no further frame, though the TLS library may hold some already received; a failed SaveEvent is not told apart from a successful one, and publishing, alerts and the conversion to the console's types are left out.
- AgentCodec.EventFits: the strings of an event end within their arrays, as the monitors write them.
- Ancestry.EbpfCollect: the enrichment from /proc is a parameter for each step, since /proc changes during the walk.
- PidLru.Cache.ResolveCached: stated without interference; interleavings are the subject of `PidLru.EveryInterleaving`. Counters are unbounded.
- ProcCache.Cache.OnFork: the throttle's one-second window and a failed allocation are one condition under which the fork is skipped; the bucket hash is any function below 4096; counters are unbounded.
- EventQueue.Ring.Pop: waiting with a timeout is not modelled; it releases the lock, so it is other operations in between and another pop.
- HookDedup.Dedup.Check: the slot function is a parameter; `HookDedup.AgentSlot` is the agent's.
- StatParser.ParseStat: the status, exe and cmdline readers are not modelled; boot time and ticks per second are given.
- Overlay.Draft.ApplyPatch: which characters are space and what int() makes of a string are parameters; titles and descriptions of techniques are represented by the glossary entry they are taken from; the final schema validation is left out.
- Aggregate.CountEvents: the path rules and the inference of techniques from a process chain are parameters; the campaign, the findings, the previous period, the alert counts and the percentages are not modelled; category and host bars show the largest entries of the counters proved here.
- The baseline database, the kernel policy table, burst counter, configuration parsers, inotify table, PIN authentication and log formatting: sequential updates that would add only easy members.
