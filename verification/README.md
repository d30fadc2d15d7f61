# Rustica in Dafny

Rustica is an SSH certificate authority with an SSH agent. A client proves possession of a key by answering a
challenge, the server issues a short-lived SSH certificate and, when due, new mTLS credentials; it also publishes the
registered keys as an allowed-signers file. The agent caches certificates and signs for SSH clients over the agent
protocol. This project models those parts and proves what they guarantee over every input, every run and every
interleaving.

| module | models |
|---|---|
| `Words`, `Texts`, `Wrappers` | wrapping 64-bit arithmetic, decimal numbers, joined and split text, `Option`/`Result` |
| `SshModel` | keys, certificates, MACs and signatures, symbolically |
| `ChallengeTexts`, `ChallengeProtocol` | the challenge text; `challenge`, `validate_request`, `complete_rustica_challenge` |
| `ProtocolRuns` | logs of challenge, signing, certificate and registration events among arbitrary clients |
| `Signing`, `Authorization`, `Issuing` | signing authorities, the local authorizer, the `certificate` call |
| `Renewal` | mTLS renewal across server and agent |
| `RateLimiter`, `SignersCache`, `SignersText` | the allowed-signers endpoint: limiter, concurrent cache, file format |
| `AgentWire`, `AgentConnection`, `AgentHandler`, `Locks` | agent messages, one connection, the handler's state, its mutexes |

How the parts are modelled:

- **Cryptography is symbolic.** A signature names its signer and the body it covers, a MAC names its text. In
  `ProtocolRuns` a client may present any certificate it can assemble: a tag must have been issued before, a valid
  signature must have been made before, and nobody but the server signs with the challenge key. Clocks are arbitrary at
  every event.
- **Integers are `u64`.** The release profile leaves overflow checks off, so sums and differences wrap; `as` casts
  reinterpret. `Duration` values (rate limiter, cache) are natural numbers of their smallest unit: those additions never
  wrap in the original.
- **Concurrency is interleaving.** In `SignersCache` every access to shared state is one step of one request, and the two
  cache fields are read and written in separate steps. The read/write lock and the mutexes of `Locks` serve their waiters
  first come, first served.
- **The handler's runs** are sequences of its atomic sections: adding a key, obtaining a certificate under its locks, and
  signing. Listing is two sections, and other tasks may run between them (`ListingAcross`).
- **Libraries are parameters.** Key and certificate codecs, the X.509 library, the CA builder and device slots are
  arbitrary functions; the laws a theorem needs of them (that printing reads back) are in its `requires`.
- **State that the source changes in place** is a class (`RateLimiter.Limiter`, `Authorization.LocalDatabase`,
  `Renewal.Configuration`, `AgentHandler.Handler`, `AgentWire.Reader` and `Writer`), each method proved against a
  function whose own meaning is proved by lemmas.

## Where the code and its documentation part

- The comment at `rustica/src/server.rs:182-184` says that a challenge time ahead of the clock makes the wrapped
  difference exceed five. That holds for every challenge time exactly when the clock is at least five
  (`WindowIsPastIffClockPastFive`).
- A challenge text determines its time always. By itself it determines key and identities exactly when neither holds a
  dash (`PartsDeterminedIffDashFree`), and every OpenSSH key text holds one; equal texts have equal parts when the
  identities of both sides hold no dash (`TextDeterminesParts`). Otherwise a challenge is accepted for other parts than it
  was issued for, with the key text longer (`DashMovesParts`) or shorter (`DashMovesPartsBack`).
- The server keeps no record of used tags: an accepted challenge is accepted again exactly while it is inside the window
  (`ReplayAcceptedIff`).
- With proof required, a request for the server's own challenge key needs no further signature: the challenge itself is
  already signed by that key. Every other key's owner must have signed (`OwnerSignedIff`), and the exception happens
  (`ChallengeKeyNeedsNoSignature`).
- That answers at time t list every key registered at or before t minus the cache validity is not true of the code: it is
  true of keys registered before that instant and of no later ones (`ListedExactlyWhenOlder`). A key registered at the very
  instant at which a refresh starts, but after its query, is missing one validity length later (`TieIsMissed`).
- The start of an issued certificate's validity comes from the request and its end from the permission row, so an
  issued certificate is ever valid exactly when that start comes before that end (`IssuedWindow`), and the server can issue
  one that is never valid (`NeverValidCertificate`).
- The notes on the permission tables (`rustica/migrations/2021-01-14-051956_hosts/up.sql:80-84`) describe a restriction to
  hosts. The local authorizer looks these hosts up and `certificate` does not use them: no entry about hosts changes a
  response (`HostsNeverMatter`).
- At every clock, renewal raises all expiries it touches exactly when the renewal period does not exceed the validity
  length (`RenewalRaisesExpiryIff`; past the range of 64-bit signed expiries it always does); nothing in the configuration
  demands that.
- The agent does not check whom a fetched certificate is for. It can sign for all that it lists exactly when the
  certificate it lists is for its own key (`AllListedAnswerableIff`), which a server of this model ensures
  (`IssuedIsForSignatory`) and the runs of `AgentHandler` take for granted.
- Lengths are cast with `as u32`, so a frame reads back exactly when its body is shorter than 2^32 bytes
  (`FrameReadsBackIff`).
- The five-second margin of the agent's certificate cache holds exactly at clocks to which five can be added
  (`ReusedIsNotStaleIff`); that clock is read before the call queues for its mutexes.

## Model

| member | source | states |
|---|---|---|
| `Words.WrappingIsModular` | rustica/src/server.rs:185-185 | Sums, differences and casts are arithmetic modulo 2^64 |
| `Texts.ParseOfDecimal` | rustica/src/server.rs:441-445 | The decimal time that `challenge` prints is parsed back by `validate_request` as the same number, for every `u64` |
| `Texts.ParseOfLonger` | rustica/src/server.rs:165-174 | A printed number is read if and only if it fits 64 bits, with or without a plus sign, and is printed without leading zeros |
| `ChallengeTexts.TextDeterminesTime` | rustica/src/server.rs:227-232 | Two challenge texts are equal if and only if their times are equal and so are their remainders |
| `ChallengeTexts.TextDeterminesParts` | rustica/src/server.rs:441-448 | With dash-free identities, equal texts have equal time, public key and identities |
| `ChallengeTexts.PartsDeterminedIffDashFree` | rustica/src/server.rs:227-232 | A text determines its key and identities, among all choices, if and only if neither holds a dash |
| `ChallengeTexts.DashFreeChoiceIff` | rustica/src/server.rs:227-232 | Among the choices with dash-free identities a text names one only, if and only if its own identities hold no dash |
| `ChallengeProtocol.ExtractCertificateInformation` | rustica/src/server.rs:108-140 | The loop succeeds if and only if the certificate parses and every common name is a string; then it returns all of them in order, and the expiry |
| `ChallengeProtocol.ChallengeIsInert` | rustica/src/server.rs:389-471 | A challenge is issued if and only if the client certificate is readable, the key text is within 1024 characters and parses; it verifies under the challenge key, is for the key asked about, carries the tag of time, key text and caller, names no principal and is valid at no time |
| `ChallengeProtocol.AcceptsExactlyWhen` | rustica/src/server.rs:148-353 | A request is accepted if and only if it passes the checks, each stated from the request, the client certificate and the clock alone; it is then accepted for the key of its text, the caller's common names and the renewal due |
| `ChallengeProtocol.RefusalsSayWhy` | rustica/src/server.rs:148-353 | Which error a refused request gets, for each error code |
| `ChallengeProtocol.WindowExactly` | rustica/src/server.rs:175-194 | The wrapped comparison accepts exactly five seconds back, and the five values that wrap around ahead |
| `ChallengeProtocol.WindowIsPastIffClockPastFive` | rustica/src/server.rs:182-194 | No challenge time ahead of the clock is accepted, if and only if the clock is at least five |
| `ChallengeProtocol.CompleteRusticaChallenge` | rustica-agent/src/rustica/mod.rs:60-153 | The agent returns the challenge untouched where no signature is asked for; otherwise its answer verifies and is addressed and signed by its own key; it refuses a challenge for another key exactly as such |
| `ChallengeProtocol.HonestAgentIsComplete` | rustica-agent/src/rustica/mod.rs:60-153 | For every key, identity list and proof mode the agent's answer to the server's own challenge is accepted if and only if it is in the window and within 1024 bytes, and is accepted for that key and those identities; the signatory need be able to sign only where proof is required |
| `ProtocolRuns.AcceptedWasIssued` | rustica/src/server.rs:148-245 | In every run an accepted request carries a tag issued by an earlier `challenge` for the same text, at most five seconds before and, once the clock has passed five, never after |
| `ProtocolRuns.AcceptedForSameParts` | rustica/src/server.rs:227-245 | With dash-free identities the tag was issued to the same identities and for the accepted key |
| `ProtocolRuns.DashMovesParts` | rustica/src/server.rs:227-245 | With a dash in the identities at issue a run exists, in either proof mode, in which the challenge is accepted for a longer key text from shorter identities |
| `ProtocolRuns.DashMovesPartsBack` | rustica/src/server.rs:227-245 | With a dash in the key text a run exists, in either proof mode, in which a challenge issued to any identities, dash-free ones included, is accepted for a shorter key text from longer identities |
| `ProtocolRuns.SignatureWasMade` | rustica/src/server.rs:196-224 | The signature on an accepted certificate was made earlier in the run by the owner of its signing key, or by the server when it issued that very tag |
| `ProtocolRuns.ProofOfPossession` | rustica/src/server.rs:289-352 | With proof required, the owner of the accepted key signed a certificate holding the tag after its issue and before its acceptance |
| `ProtocolRuns.OwnerSignedIff` | rustica/src/server.rs:289-352 | With proof required, the run holds the owner's signature on the accepted certificate if and only if the accepted key is not the server's challenge key |
| `ProtocolRuns.ChallengeKeyNeedsNoSignature` | rustica/src/server.rs:312-352 | That exception happens: a challenge for the challenge key, returned untouched, is accepted in a run of two events without any owner's signature |
| `ProtocolRuns.ServerSignedWithoutProof` | rustica/src/server.rs:289-310 | Without proof, the accepted certificate is field for field one that the challenge key signed when it issued this tag |
| `ProtocolRuns.AnswerIsAccepted` | rustica/src/server.rs:148-353 | Every answer that matches the issued text, in time and within the size limit, completes a run that ends in acceptance, in both proof modes and for every key |
| `ProtocolRuns.HonestRunExists` | rustica-agent/src/rustica/mod.rs:60-153 | An honest agent's exchange is such a run: the challenge presented at its end is the one that `complete_rustica_challenge` produces |
| `ProtocolRuns.ReplayAcceptedIff` | rustica/src/server.rs:148-245 | In every run an accepted challenge presented again, whatever happened since, is accepted for the same key if and only if its issue time is still inside the window |
| `ProtocolRuns.IssuedOverRun` | rustica/src/server.rs:474-649 | Every certificate issued in a run verifies, is what the permission row entitles the validated key to, and answers a challenge issued in time and, with proof required, signed by that key's owner in between |
| `ProtocolRuns.RowsStay` | rustica/src/auth/database.rs:116-169 | Over every run a registered row never changes or disappears |
| `ProtocolRuns.RegisteredOverRun` | rustica/src/server.rs:651-861 | Every key registered in a run was validated by a challenge for that key, issued in time and, with proof required, signed by its owner in between, with an attestation where one is required |
| `ProtocolRuns.RegisteredIff` | rustica/src/server.rs:651-861 | A fingerprint is registered if and only if some accepted call was for it and its attestation fits, or none was given and none is required |
| `ProtocolRuns.RegisteredContents` | rustica/src/server.rs:720-726 | A row comes from the first such call and holds a text of the validated key, the caller's common names in order and the attestation given with the call |
| `Signing.AnnouncedKeySigns` | rustica/src/signing/mod.rs:191-219 | An authority signs a type if and only if it announces a key for it and, where its signer is remote, that signer responds; what it signs verifies if and only if the announced key was placed in it |
| `Signing.FileKeysSign` | rustica/src/signing/file.rs:83-100 | A signer built from a file announces and signs user certificates with the configured user key and host certificates with the configured host key |
| `Signing.RemoteKeysSign` | rustica/src/signing/yubikey.rs:155-190 | A remote signer announces and signs each type with the key it holds for that type, or fails |
| `Signing.FileConvertsExactlyWhen` | rustica/src/signing/file.rs:113-145 | A file configuration converts if and only if it gives both SSH keys or neither and its CAs build; the client CA is built from its own three settings |
| `Signing.ConvertToSigningMechanism` | rustica/src/signing/mod.rs:251-320 | In any iteration order it succeeds if and only if every signer converts and all user and host keys of all authorities are pairwise distinct; every authority is kept with its own signer; an error is true of the configuration and a duplicate names two different authorities that share a key |
| `Authorization.GrantedAreTheRows` | rustica/src/auth/database.rs:38-114 | Each name is granted exactly as often as the table holds a row of it for that fingerprint and authority |
| `Authorization.HostsAreTheRows` | rustica/src/auth/database.rs:57-65 | The hosts looked up are exactly those of the rows, or none where hosts are unrestricted |
| `Authorization.ExtensionsAreTheRows` | rustica/src/auth/database.rs:38-114 | An extension is set if and only if a row of that fingerprint and authority names it, and its value is that of the last such row, empty where the row has none |
| `Authorization.ExtensionIsItsRow` | rustica/src/auth/database.rs:67-76 | Under the table's primary key every row sets its extension, whatever the order of rows |
| `Authorization.InsertedOnce` | rustica/src/auth/database.rs:116-169 | Every stored row is one registration that was asked for, the first of its fingerprint |
| `Authorization.AskedIsInserted` | rustica/src/auth/database.rs:116-169 | Every fingerprint asked for has a row |
| `Authorization.AttestationReadsBack` | rustica/src/auth/database.rs:116-169 | The columns of a row tell the two kinds of attestation, and every field of them, apart |
| `Authorization.InsertionsStay` | rustica/src/auth/database.rs:116-169 | Later registrations leave an existing row as it is |
| `Authorization.LocalDatabase.RegisterKey` | rustica/src/auth/database.rs:116-169 | A new fingerprint gets a row that records key, joined identities and the whole attestation; a known one is refused and changes nothing; the table always records the insertions of its whole history |
| `Issuing.IssuedIsEntitled` | rustica/src/server.rs:487-599 | An issued certificate is for the validated key; a user certificate only where type 1 was asked for and the row of key and authority allows user certificates, a host certificate only for type 2 and the host permission; with exactly the granted principals (the requested ones if unrestricted) and the extensions of its rows, no critical option, serial 0, ending at authorization time plus the row's maximum; and it verifies under the authority's announced key |
| `Issuing.IssuedIsForSignatory` | rustica-agent/src/rustica/mod.rs:60-153 | Whatever response an agent completed, a certificate issued on it is for the agent's own key |
| `Issuing.IssuesExactlyWhen` | rustica/src/server.rs:493-599 | After validation the server issues if and only if the requested window is ordered and not past, the type code is 1 or 2, the authority announces a key for it and is in reach, and the row's flag for that type is set; otherwise the error says which of these failed |
| `Issuing.RefusalsPassThrough` | rustica/src/server.rs:474-491 | A call without challenge or client certificate is a bad request, and a refused challenge is refused with its own error |
| `Issuing.RenewalIsSentIff` | rustica/src/server.rs:609-629 | An issued response carries new client credentials if and only if they are due and the configured client authority has a CA |
| `Issuing.ForcedOptionsAppear` | rustica/src/server.rs:561-568 | A forced command and a forced source address appear as critical options, and nothing else does |
| `Issuing.IssuedWindow` | rustica/src/auth/database.rs:92-113 | An issued certificate is valid at some time, in the sense of OpenSSH's PROTOCOL.certkeys, if and only if the requested start comes before the row's end |
| `Issuing.NeverValidCertificate` | rustica/src/server.rs:511-570 | Every request that is issued for has a sibling for which a certificate is issued that is valid at no time |
| `Issuing.HostsNeverMatter` | rustica/src/server.rs:511-599 | The response is the same whatever hosts the tables grant and whichever keys they leave unrestricted as to hosts |
| `Renewal.Configuration.FetchNewCertificate` | rustica-agent/src/lib.rs:643-685 | The loop asks servers in order and installs the new certificate, and the new key if one came, in the answering server's entry alone, its address kept; nothing changes without new credentials or for an unusable certificate; the result says which failure occurred |
| `Renewal.WithoutCrThen` | rustica-agent/src/lib.rs:659-665 | Carriage returns are removed wherever they are |
| `Renewal.WithoutCrKeeps` | rustica-agent/src/lib.rs:659-665 | Every carriage return goes and every other character stays |
| `Renewal.RenewalRaisesExpiryIff` | rustica/src/server.rs:262-276 | At every clock to which the validity length can be added, the policy raises every expiry it touches if and only if the renewal period does not exceed the validity length; a renewal that ends past every expiry always does |
| `Renewal.RenewedExactlyWhenDue` | rustica/src/server.rs:262-276 | The wrapping test renews if and only if less than the renewal period is left, expired certificates included, for one validity length from now; an expiry before 1970 counts as one just below 2^64 |
| `Renewal.OneRenewal` | rustica/src/server.rs:609-629 | An installed renewal was due, ends one validity length after the validation time, and installs a matching pair |
| `Renewal.RenewsExactlyWhen` | rustica-agent/src/lib.rs:643-685 | A round renews a server's credentials if and only if the servers before it refuse, it issues a certificate, less than the renewal period is left and its client authority has a CA |
| `Renewal.ExpiryNeverFalls` | rustica-agent/src/lib.rs:643-685 | Over any run of requests no server's expiry ever falls |
| `Renewal.RenewalRaisesExpiry` | rustica-agent/src/lib.rs:643-685 | Each installed renewal raises the expiry strictly above all earlier ones |
| `Renewal.RenewalsAreSpaced` | rustica/src/server.rs:262-276 | Any two renewals of one server are more than validity length minus renewal period apart |
| `Renewal.CredentialsStayPaired` | rustica-agent/src/rustica/cert.rs:47-66 | Certificate and key of a server entry stay halves of one pair through every run |
| `RateLimiter.RecencyMeaning` | rustica/src/server.rs:356-384 | The recency list gives each caller the deadline of its last call, behind exactly the callers since |
| `RateLimiter.LookupInPrefix` | rustica/src/server.rs:364-374 | A cache of n entries knows exactly the callers with fewer than n distinct others since |
| `RateLimiter.PushTruncates` | rustica/src/server.rs:364-374 | Pushing into the bounded cache commutes with truncating the unbounded recency list |
| `RateLimiter.VerdictFromHistory` | rustica/src/server.rs:376-384 | A call is denied if and only if the unbounded map denies it and fewer than capacity distinct others called since |
| `RateLimiter.Limiter.Push` | rustica/src/server.rs:364-374 | Finding the key, taking its entry out or evicting the least recent one, and inserting in front gives exactly the contents and the displaced entry that `PushTruncates` relates to the full recency list, within the capacity |
| `RateLimiter.Limiter.IsRateLimited` | rustica/src/server.rs:356-384 | Over any run of calls the verdict is the one stated from the history alone, and the cache stays a prefix of the recency list |
| `SignersCache.InvHolds` | rustica/src/server.rs:1132-1213 | The invariant holds after every interleaving |
| `SignersCache.AnswersAreFresh` | rustica/src/server.rs:1132-1213 | An answer at time t lists only registered keys and every key registered before t minus the validity; a key registered exactly then is missing only if the refresh behind the answer started at that instant; payload and expiry come from one refresh |
| `SignersCache.ListedExactlyWhenOlder` | rustica/src/server.rs:1132-1213 | For every validity, r and t: all answers at t list all keys registered at r if and only if r plus the validity is less than t |
| `SignersCache.YoungIsMissed` | rustica/src/server.rs:1158-1205 | For every validity and every t up to and including r plus the validity, a reachable answer at t misses a key registered at r |
| `SignersCache.RefreshesAreSpaced` | rustica/src/server.rs:1146-1205 | Refreshes start more than the validity apart, each raises the expiry, and the settled cache is what the last one stored |
| `SignersCache.FailedRefreshChangesNothing` | rustica/src/server.rs:1158-1202 | Between settled states without a completed refresh neither cache field changes |
| `SignersCache.RefusedExactlyWhen` | rustica/src/server.rs:1123-1202 | A request is refused if and only if the limiter denied it, its query or encoding failed, or its client left |
| `SignersCache.EndpointRefusesExactlyWhen` | rustica/src/server.rs:1123-1202 | Limiter and cache together: with the limiter's proved verdicts, a request is refused if and only if the history of calls denies it, its refresh fails or its client leaves |
| `SignersCache.SomeRequestCanStep` | rustica/src/server.rs:1132-1156 | The first-come-first-served read/write lock never wedges: while a request is unfinished some request can step |
| `SignersCache.StopsOnlyFinished` | rustica/src/server.rs:1132-1213 | In every interleaving some request can step if and only if some request is unfinished |
| `SignersCache.RequestStepsAreBounded` | rustica/src/server.rs:1132-1213 | However n requests interleave with each other, with registrations and with the clock, they take at most thirteen steps each |
| `SignersCache.RunHasTrace` | rustica/src/server.rs:1132-1213 | Every run has the actions that the bound counts |
| `SignersText.PrintedReadsBackIff` | rustica-agent/src/ffi/signing.rs:44-54 | The file reads back to the printed list if and only if identities have no space or line feed, keys no line feed, and no key but the last ends in a carriage return |
| `SignersText.LookupFindsFirst` | rustica-agent/src/ffi/signing.rs:87-91 | Lookup in a printed list yields the identity of the first entry with that key, and nothing if there is none |
| `SignersText.RegisteredKeyIsFound` | rustica-agent/src/ffi/signing.rs:87-91 | End to end, in every interleaving: a key registered longer ago than the validity is found in the text answered |
| `Locks.PathsAreOrdered` | rustica-agent/src/lib.rs:220-261 | Every path of the handler takes its mutexes in one increasing order and returns them all |
| `Locks.NestsExactly` | rustica-agent/src/lib.rs:376-442 | The edges of the lock graph: exactly which mutex each operation waits for while it owns which |
| `Locks.TakenExactly` | rustica-agent/src/lib.rs:220-261 | Each operation takes exactly its mutexes |
| `Locks.SignatoryTakings` | rustica-agent/src/rustica/mod.rs:65-142 | The signatory is locked once for each server asked and once more for each that wants a signature |
| `Locks.InvHolds` | rustica-agent/src/lib.rs:297-316 | In every reachable state the head of each queue owns or is about to own its mutex, and owners follow the order |
| `Locks.MutualExclusion` | rustica-agent/src/lib.rs:297-316 | In every reachable state no two tasks own one mutex |
| `Locks.DeadlockFree` | rustica-agent/src/lib.rs:376-442 | For any number of tasks a reachable state can step if and only if some task is unfinished |
| `Locks.RunsAreBounded` | rustica-agent/src/rustica/mod.rs:124-142 | No run is longer than the work of its tasks, so every maximal run finishes them all |
| `AgentWire.FrameReadsBackIff` | rustica-agent/src/sshagent/protocol.rs:46-62 | A frame reads back with nothing beyond it consumed, if and only if its body is shorter than 2^32 |
| `AgentWire.U32WritesBack` | rustica-agent/src/sshagent/protocol.rs:46-62 | Four bytes are written for the number they read as, most significant first |
| `AgentWire.ReadsExactlyFrames` | rustica-agent/src/sshagent/protocol.rs:46-53 | An input reads as a body and a rest if and only if it is that body's frame and that rest |
| `AgentWire.ResponsesFollowTheDraft` | rustica-agent/src/sshagent/protocol.rs:140-167 | Message numbers and layouts of the responses, as in sections 4.4 and 4.5 of draft-miller-ssh-agent-04 |
| `AgentWire.ResponseReadsBack` | rustica-agent/src/sshagent/protocol.rs:140-167 | Every response whose lengths fit decodes to itself |
| `AgentWire.FramesSplit` | rustica-agent/src/sshagent/protocol.rs:46-62 | Frames written back to back split into exactly those frames, whatever follows |
| `AgentWire.ResponsesReadBack` | rustica-agent/src/sshagent/protocol.rs:139-167 | Any sequence of responses written back to back is split and decoded to that sequence |
| `AgentWire.SignRequestReadsBack` | rustica-agent/src/sshagent/protocol.rs:83-114 | An encoded sign request decodes to its fields, whatever bytes follow |
| `AgentWire.SignDecodesExactly` | rustica-agent/src/sshagent/protocol.rs:83-114 | A message decodes to a sign request if and only if it is an encoding of it, followed by anything |
| `AgentWire.NumbersFollowTheDraft` | rustica-agent/src/sshagent/protocol.rs:27-43 | Number 11 asks for the listing, 13 for a signature, 17 adds a key that parses; the empty message is an error and all else is unknown |
| `AgentWire.Reader.ReadMessage` | rustica-agent/src/sshagent/protocol.rs:46-53 | Reading consumes exactly one frame, or fails |
| `AgentWire.Reader.ReadRequest` | rustica-agent/src/sshagent/protocol.rs:83-114 | Reading a request consumes exactly its frame and depends only on the bytes of that frame |
| `AgentWire.Writer.WriteMessage` | rustica-agent/src/sshagent/protocol.rs:55-62 | Writing appends exactly one frame |
| `AgentWire.Writer.WriteIdentities` | rustica-agent/src/sshagent/protocol.rs:150-158 | The loop appends the encoding of all identities in order |
| `AgentWire.Writer.WriteResponse` | rustica-agent/src/sshagent/protocol.rs:140-167 | Writing appends the frame of the encoded response |
| `AgentConnection.HandleClient` | rustica-agent/src/sshagent/agent.rs:16-27 | The loop writes exactly the responses of the specified session and ends in its state |
| `AgentConnection.ServesItsFrames` | rustica-agent/src/sshagent/agent.rs:16-27 | On every input the connection answers exactly the complete frames of that input, in order |
| `AgentConnection.AnswersInOrder` | rustica-agent/src/sshagent/handler.rs:20-34 | The i-th response answers the i-th request in the state left by those before it; responses stop only at the first error |
| `AgentConnection.EarlierAnswersStand` | rustica-agent/src/sshagent/agent.rs:16-27 | Bytes that arrive later never change what was answered |
| `AgentConnection.ClientGetsAnswers` | rustica-agent/src/sshagent/agent.rs:16-27 | End to end: a client that sends messages decodes from the output each answer, in order |
| `AgentHandler.PeekIsReuse` | rustica-agent/src/lib.rs:211-282 | The no-fetch call returns a certificate if and only if the fetching call would reuse it, whatever the servers say |
| `AgentHandler.FetchedIsKept` | rustica-agent/src/lib.rs:240-258 | A fetched certificate is returned, cached and reused until five seconds before its end, and no longer; a failed fetch changes nothing |
| `AgentHandler.FetchedIsReused` | rustica-agent/src/lib.rs:211-282 | Over every run the certificate fetched by one call is the one that later calls reuse, until a call meets a clock within five seconds of its end |
| `AgentHandler.ReusedIsNotStaleIff` | rustica-agent/src/lib.rs:215-240 | In every valid state a reused certificate has more than five seconds left from the call's clock reading, if and only if five can be added to that reading |
| `AgentHandler.SignsExactlyFor` | rustica-agent/src/lib.rs:354-473 | A signature is always by the key the blob names; an unlisted blob of another key is refused |
| `AgentHandler.AnswerableIsAnswered` | rustica-agent/src/lib.rs:354-473 | A blob is signed for if and only if it is loaded, on a device, or names the handler's key, and the one key that answers for it is able to sign |
| `AgentHandler.ListedIsAnswerable` | rustica-agent/src/lib.rs:304-351 | Every listed blob is one the handler signs for, also when other tasks add keys between the copying of the loaded keys and the fetch |
| `AgentHandler.AllListedAnswerableIff` | rustica-agent/src/lib.rs:304-351 | Whatever verifying certificate was fetched, all listed blobs are answerable if and only if the listed certificate is for the handler's key |
| `AgentHandler.AllKeysAreListed` | rustica-agent/src/lib.rs:304-351 | Every loaded key, device key and the handler's own key is listed |
| `AgentHandler.ListingExactly` | rustica-agent/src/lib.rs:304-351 | A listing entry by entry: each loaded key once with its comment, each device key once, then the own key and certificate in the configured order, or the key alone with its notice |
| `AgentHandler.ReachableIsValid` | rustica-agent/src/lib.rs:297-473 | In every reachable handler state the cache is coherent, its certificate verifies and is for the handler's key, and each identity is under the blob of its own key |
| `AgentHandler.StaysAnswerable` | rustica-agent/src/lib.rs:297-473 | A blob that was answerable once is so for the rest of every run |
| `AgentHandler.ListedIsSigned` | rustica-agent/src/lib.rs:304-473 | Over every run of interleaved tasks a blob listed once is answered by any later sign request, under the key it names, while the device that holds that key responds |
| `AgentHandler.AddedSigns` | rustica-agent/src/lib.rs:297-302 | A key that was added is stored under its own blob, other entries stay, and a sign request for that blob is answered by that key |
| `AgentHandler.AddedIsListedAndSigns` | rustica-agent/src/lib.rs:297-473 | Over every run an added key is listed and signs until a key of the same name is added |
| `AgentHandler.ConnectionSignsNamedKeys` | rustica-agent/src/sshagent/handler.rs:20-34 | On a whole connection every answer fits its request: each signature is by the key its blob names, each listing is the handler's list at that point |
| `AgentHandler.Handler.constructor` | rustica-agent-cli/src/config/multimode.rs:160-175 | A handler built from a lawful configuration starts valid, with an empty certificate cache |
| `AgentHandler.Handler.GetCertificate` | rustica-agent/src/lib.rs:211-282 | Both modes do what the cache specification says; a successful fetch is returned and stored with its end as `stale_at` |
| `AgentHandler.Handler.AddIdentity` | rustica-agent/src/lib.rs:297-302 | The key is stored under its own blob, replacing only that entry, and the state stays valid |
| `AgentHandler.Handler.ListIdentities` | rustica-agent/src/lib.rs:304-351 | The two loops and the fetch produce the specified listing and cache state |
| `AgentHandler.GetAllPivKeys` | rustica-agent/src/lib.rs:583-628 | It succeeds if and only if every device opens; then the map holds exactly keys of slots 0x82 to 0x95 of these devices, every one of them, under its own blob |

## Left out

- gRPC, TLS, Unix sockets, tokio start-up and shutdown: transport failures appear only as refusals or failed reads.
- Cryptographic primitives and the byte formats of X.509, SSH certificates and SSH keys: symbolic or uninterpreted, with the read-back laws stated where they are needed. Hexadecimal tags are compared as values, so upper and lower case of one tag are not told apart.
- zstd: compression is one step that may fail; the cached payload is the list of rows and `SignersText` models the text it decompresses to.
- Yubikey, FIDO and Amazon KMS back ends and the attestation chain check: device and remote signing operations succeed or fail by a flag of the call, and an attested key is given with a registration event.
- The external authorizer: issuing and registration are stated for the local one, except `ForcedOptionsAppear`, which covers any authorization.
- `attested_x509_certificate` and its agent counterpart, FFI pointer handling, the GUI, command-line parsing, notifications and loggers: none of them holds state that these properties depend on.
- `slot_parser`, policy enumerations, configuration versions and migrations: each is settled by reading one branch.
- `SELECT` without `ORDER BY` is taken to return rows in insertion order; no property depends on more than the set of rows, except the order in which the file lists them and, should a table break its primary key, which row of an extension counts (`ExtensionsAreTheRows`, `ExtensionIsItsRow`).
- `SignersCache` takes a clock past zero: at a clock reading of zero the initial, empty cache counts as unexpired.
- `SignersCache` and `Locks` prove that some task can always step and that all steps together are bounded, not that the scheduler is fair; a cancelled task in `Locks` is not modelled.
- The debug profile, which panics instead of wrapping, and `unwrap` panics inside library calls (a broken system clock in the agent, X.509 generation).
- Writing the agent's configuration file after a renewal: its failure is only logged by the original. Errors while writing a response to the socket are not modelled either.
- `Renewal`: clock readings plus validity length stay within the year 9999, the last that an X.509 time can name; the state of each server is arbitrary in every round except its renewal policy.
- `HandleCertificate`: the agent's own request fields (`rustica-agent/src/rustica/cert.rs:20-35`) are arbitrary, so the issuing theorems cover every client, not only this agent.
