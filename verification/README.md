# Discrypt protocol kernels, verified

This project models the stateful kernels of Discrypt in Dafny and proves what they promise over whole runs: the
live-key oracle, retention and cross-device shredding, signed invites and admission, rate limiting and backoff, and
the peer mesh, voice negotiation and event log of the desktop client. `dafny verify dfyconfig.toml` checks
everything.

Code that updates state is a class or a method with a loop here as well, proved against a step function. The
theorems are about sequences of such steps: every run, every interleaving, every key.

| file | what it models |
|---|---|
| `LiveKey.dfy`, `LiveKeyProofs.dfy`, `KeyStates.dfy` | the live-key oracle, its membership proofs, and the oracle built from local group state |
| `Retention.dfy`, `RetentionLabels.dfy`, `Shred.dfy` | retention windows and transitions, their labels, tombstones on online and offline devices |
| `Codec.dfy` | one codec for all signed messages, with the two round-trip theorems |
| `InviteFormat.dfy`, `InviteBuilder.dfy`, `SignedMessages.dfy`, `MessageBuilders.dfy` | the signed formats, the append-style builders, and the separation of the four kinds of message |
| `InviteMetadata.dfy`, `Invites.dfy`, `InviteIntegrity.dfy`, `Admission.dfy` | metadata validators and defaults, the invite store, the one-record invite, what signatures bind, and the admission pipeline |
| `RateLimit.dfy`, `AbuseMetrics.dfy`, `Backoff.dfy` | the per-key limiter, the abuse gate with its counters, and the retry schedule |
| `VoiceNegotiation.dfy`, `EventLog.dfy`, `Mesh.dfy` | the answerer's choice and the candidate buffer, event paging, and who offers on each edge |

Conventions. Times are integers in nanoseconds; signed expiries are their floor in milliseconds. A Rust `String` is
its bytes. Machine integers are written out: `u32` and `u64` as ranges, saturating and wrapping operations as such,
`usize` with 64 bits. Ed25519 and SHA-256 are parameters; a theorem that needs a law about them names it in its
`requires` (honest signatures verify; one signature under one key is valid for one message), and a theorem that
depends on a hash names the collision it would take to break it.

## Where code and documentation differ

The model follows the code.

- `transition_key_state` is documented never to bring a locked key back. Lengthening and then shortening does
  (`Retention.LockCanReopen`); `Retention.LockExact` gives the exact condition.
- `RateLimiter` is described as a fixed window. It keeps a log of hits and bounds every sliding window, on every run
  whose clock steps back by at most some amount, if and only if that amount is zero, the limit is one or the window is
  negative (`RateLimit.SlidingWindowExact`). With a larger limit one nanosecond back is enough to break the bound
  (`RateLimit.StepBackBreaksBound`).
- A retry after exactly `retry_after_ms` is refused, except when the oldest hit was about to expire at once
  (`RateLimit.RetryOnMillisecondClock`).
- A custom window follows the documented rule if and only if its seconds are at most `i64::MAX / 1000`
  (`Retention.WindowRuleExact`). Above that `Duration::seconds` panics, except that the largest windows, from
  2^64 - `i64::MAX / 1000` seconds on, are cast to a negative length and lock every message at once
  (`Retention.LongestWindowLocks`). The run theorems cover all windows, with a panic as an outcome.
- A counter that saturates at its type's maximum never exceeds a limit equal to that maximum. The exact theorems
  cover this case; the bounds `LiveKey.ServedBound` and `Admission.PasswordQuota` are for smaller limits.
- Registering a known device again as offline forgets what it has seen (`Shred.ServesAgainIff`).
- An offer that repeats the active negotiation with an older time stamp lowers the answerer's time stamp
  (`VoiceNegotiation.MaxRegisterExact`, with the run in `VoiceNegotiation.RegressionHappens`).

## Model

| member | source | states |
|---|---|---|
| LiveKey.StateAfter | crates/content-keys/src/lib.rs:749-768 | over every run requests change nothing but the counters, and each counter is the number of proof-valid requests for its rate key, saturated at `usize::MAX` |
| LiveKey.ExactQuota | crates/content-keys/src/lib.rs:749-803 | the answer to every request of every run follows from the history: the n-th proof-valid request that agrees on requester leaf, epoch, author leaf and network hash gets the key exactly when n <= `max_requests` (always, at `usize::MAX`), every other request gets the configured failure |
| LiveKey.SharedCounterIff | crates/content-keys/src/lib.rs:588-605 | two requests share a counter if and only if requester leaf, epoch, author leaf and network hash are all equal |
| LiveKey.ValidAskExact | crates/content-keys/src/lib.rs:787-803 | a request counts if and only if it comes from a member of its epoch, is signed over the epoch's commitment, and its device key was accepted at the start or authorized before it |
| LiveKey.GrantedExact | crates/content-keys/src/lib.rs:693-711 | over every run a device key is accepted exactly if it was at the start or has been authorized since for a member of its epoch |
| LiveKey.FailureShape | crates/content-keys/src/lib.rs:512-530 | uniform failures are all the same answer, whatever went wrong; decoy mode tells over-limit requests from invalid ones; the real key comes with `authorized` and only then |
| LiveKey.OtherKeysInvisible | crates/content-keys/src/lib.rs:596-605 | deleting every request for other rate keys from a run changes no answer for this one |
| LiveKey.NonInterference | crates/content-keys/src/lib.rs:596-605 | two runs that agree on the authorizations and on the requests of one leaf, epoch, author and network give those requests the same answers, whatever else they contain |
| LiveKey.ReducedRuns | crates/content-keys/src/lib.rs:749-768 | the runs compared hold exactly the authorizations and the requests they are named after |
| LiveKey.AllObserved | crates/content-keys/src/lib.rs:749-768 | no request of the rate key, and no proof-valid one, is missing from the answers compared |
| LiveKey.ProbesInvisible | crates/content-keys/src/lib.rs:749-768 | deleting every request with an invalid proof changes no remaining answer |
| LiveKey.ServedTotal | crates/content-keys/src/lib.rs:749-803 | conservation: the number of requests answered with the key is the sum, over the rate keys used, of their proof-valid requests capped at the quota |
| LiveKey.ServedBound | crates/content-keys/src/lib.rs:749-803 | below `usize::MAX`, at most `max_requests` times the number of distinct rate keys used are answered with the key |
| LiveKey.LiveKeyOracle.constructor | crates/content-keys/src/lib.rs:609-617 | the object starts in the given oracle state |
| LiveKey.LiveKeyOracle.AuthorizeMemberDevice | crates/content-keys/src/lib.rs:693-711 | a device key is registered for current members of the epoch only, nothing else changes, and the result says whether it was |
| LiveKey.LiveKeyOracle.RequestKeyScoped | crates/content-keys/src/lib.rs:749-768 | new state and answer are those of the step function the run theorems are about |
| LiveKeyProofs.CommitmentBytes | crates/content-keys/src/lib.rs:501-510 | feeding the hash epoch, count and leaves in ascending order builds the commitment preimage, for every member set |
| LiveKeyProofs.AscendingOrder | crates/content-keys/src/lib.rs:501-510 | the iteration order of the member set is strictly ascending and lists exactly its members |
| LiveKeyProofs.PreimageInjective | crates/content-keys/src/lib.rs:501-510 | the hashed bytes determine the epoch and the member set |
| LiveKeyProofs.TranscriptInjective | crates/content-keys/src/lib.rs:481-499 | the signed transcript determines leaf, epoch, group id, commitment and device key |
| LiveKeyProofs.TranscriptLayout | crates/content-keys/src/lib.rs:481-499 | tag, leaf and epoch in big-endian, framed group id, commitment and device key, in this order |
| LiveKeyProofs.SignatureBindsProof | crates/content-keys/src/lib.rs:457-499 | under ideal signatures two proofs that verify with one key and one signature are the same proof against the same commitment |
| LiveKeyProofs.OneMembershipView | crates/content-keys/src/lib.rs:668-682 | oracles that accept one proof agree on the members of its epoch, or their two preimages are a hash collision |
| LiveKeyProofs.NewExact | crates/content-keys/src/lib.rs:668-682 | a new oracle has the given members and their commitments, no devices, no requests, a limit of at least one and the default decoy |
| LiveKeyProofs.FromLocalState | crates/content-keys/src/lib.rs:626-664 | the constructor loop fails on differing epochs and at the first eligible member whose key does not parse, and otherwise returns an oracle in the specified state |
| LiveKeyProofs.EnrolledKeys | crates/content-keys/src/lib.rs:644-661 | authorizing the devices one by one registers, for each eligible member, that member's own key and no other |
| LiveKeyProofs.ActiveLeavesExact | crates/content-keys/src/lib.rs:636-646 | the members of a locally built oracle are exactly the active role holders that are not banned |
| LiveKeyProofs.LocalOracleExact | crates/content-keys/src/lib.rs:626-664 | a locally built oracle accepts a proof if and only if the device key of an active member with a role and no ban signed it over this membership commitment |
| LiveKeyProofs.LocalRunsExact | crates/content-keys/src/lib.rs:626-803 | over every run of requests a locally built oracle hands out the key exactly for proofs signed by an eligible member within the quota |
| Retention.WindowRuleExact | crates/content-keys/src/lib.rs:186-203 | for every window: `key_state` applies the documented rule to every message at every time if and only if the seconds are at most `i64::MAX / 1000`; every other window panics or wraps |
| Retention.LongestWindowLocks | crates/content-keys/src/lib.rs:186-203 | concrete window of 2^64 - 1 seconds that does not panic and locks a message of age 0 |
| Retention.PresetLengths | crates/content-keys/src/lib.rs:66-76 | the presets last 1 and 24 hours and 7, 30 and 90 days; only the warned window is unlimited |
| Retention.DefinedExact | crates/content-keys/src/lib.rs:198 | exactly the windows of at most, or of all but at most, `i64::MAX / 1000` seconds do not panic |
| Retention.LockedStaysLocked | crates/content-keys/src/lib.rs:186-203 | under a fixed window a message that is locked stays locked at all later times |
| Retention.EffectiveWindow | crates/content-keys/src/lib.rs:207-246 | for every window, panics included, the branching rule equals the simple one: messages from before the change get the smaller of both windows, later ones the new window; no transition is more permissive than its new window is documented to be |
| Retention.OpenStep | crates/content-keys/src/lib.rs:250-264 | from every state but `Locked` and `Shredded`, one transition between any windows gives the window rule with the effective window, panic included |
| Retention.CacheExact | crates/content-keys/src/lib.rs:250-264 | over every run a cached key stays cached throughout if and only if the message fits the effective window of each transition |
| Retention.CacheEnds | crates/content-keys/src/lib.rs:250-264 | at the first transition whose effective window the message does not fit, the key locks, or the window panics |
| Retention.SameWindowKeepsLock | crates/content-keys/src/lib.rs:240-264 | a transition to the same window never reopens a lock |
| Retention.ShreddedForever | crates/content-keys/src/lib.rs:250-264 | no run of transitions between any windows leaves `Shredded` or panics |
| Retention.RunStep | crates/content-keys/src/lib.rs:250-264 | one transition between any windows takes `Locked` to `Cached` exactly when it shortens the window and the message fits the new one as the code measures it, and panics exactly when it shortens to a window that `Duration` cannot hold |
| Retention.LockExact | crates/content-keys/src/lib.rs:250-264 | over every run a locked key stays locked throughout if and only if no transition of the run shortens to a window that panics or that the message still fits |
| Retention.LengtheningKeepsLocks | crates/content-keys/src/lib.rs:250-264 | no lock is lost, and nothing panics, on a run of transitions between any windows that do not shorten |
| Retention.ShorteningKeepsJustifiedLocks | crates/content-keys/src/lib.rs:250-264 | a lock survives every contiguous run of shortening transitions, with a clock that does not run backwards, from the window that justified it, if and only if that window does not wrap |
| Retention.WrappedChainReopens | crates/content-keys/src/lib.rs:186-264 | from every window that wraps, shortening to an hour brings a locked message back |
| Retention.LockCanReopen | crates/content-keys/src/lib.rs:248-259 | concrete run, 1 hour to 30 days to 7 days, that turns `Locked` into `Cached`, against the comment on the function |
| RetentionLabels.AccumulateExact | crates/content-keys/src/lib.rs:80-97 | parsing with overflow checks accepts exactly the numerals whose unbounded value fits a `u64`, and returns that value |
| RetentionLabels.DecimalExact | crates/content-keys/src/lib.rs:52-62 | printing a number gives a non-empty numeral with that value |
| RetentionLabels.NotAPreset | crates/content-keys/src/lib.rs:80-97 | text that starts with `c` after normalization is never captured by a preset alias |
| RetentionLabels.LabelRoundTrip | crates/content-keys/src/lib.rs:52-97 | every window, with every `u64` of seconds, is read back from its own label |
| RetentionLabels.LabelsInjective | crates/content-keys/src/lib.rs:52-62 | distinct windows have distinct labels, also up to letter case and surrounding whitespace |
| RetentionLabels.NormalizeBlank | crates/content-keys/src/lib.rs:80-81 | white space around a label does not matter |
| RetentionLabels.LowerAlphabet | crates/content-keys/src/lib.rs:80-81 | the letters A to Z are lowered and nothing else is |
| RetentionLabels.AliasIsRead | crates/content-keys/src/lib.rs:81-90 | every alias of a preset is read as that preset |
| RetentionLabels.OnlyAliases | crates/content-keys/src/lib.rs:81-90 | nothing but its aliases is read as a preset |
| RetentionLabels.ParseExact | crates/content-keys/src/lib.rs:91-96 | a `u64` is read from its digits, which one plus sign may precede, and from nothing else |
| RetentionLabels.CustomExact | crates/content-keys/src/lib.rs:91-96 | a custom window is read from its number between the two words, and from nothing else |
| Shred.AlwaysConsistent | crates/content-keys/src/lib.rs:309-370 | in every reachable state each device has seen only shredded messages, and all of them while it is online |
| Shred.ServeExact | crates/content-keys/src/lib.rs:374-387 | a device may serve a message if and only if it is registered and the message is not shredded or its tombstone is pending there |
| Shred.GlobalIsUnion | crates/content-keys/src/lib.rs:330-352 | the global set is the union of everything shredded or merged, however often and in whatever order |
| Shred.Convergence | crates/content-keys/src/lib.rs:330-387 | runs that shred the same messages end with the same global set, and devices online at the end of both serve the same messages |
| Shred.NothingPendingOnline | crates/content-keys/src/lib.rs:361-379 | once all devices are online nothing is pending anywhere |
| Shred.StatusExact | crates/content-keys/src/lib.rs:311-370 | a device is known if and only if it was registered, and it is online if and only if its latest event says so |
| Shred.SeenAtLastOnline | crates/content-keys/src/lib.rs:311-370 | an offline device that was not registered again has seen exactly the global set of its last online moment |
| Shred.SeenNothing | crates/content-keys/src/lib.rs:311-327 | a device registered offline and never online since has seen nothing |
| Shred.ServesAgainIff | crates/content-keys/src/lib.rs:311-387 | a device that saw a tombstone serves that message again at some later moment if and only if it is registered again as offline |
| Shred.CrossDeviceShredState.constructor | crates/content-keys/src/lib.rs:304-309 | starts empty |
| Shred.CrossDeviceShredState.Absorb | crates/content-keys/src/lib.rs:339-352 | inserting ids one by one gives the union |
| Shred.CrossDeviceShredState.SyncOnline | crates/content-keys/src/lib.rs:330-352 | the loop over the devices hands the ids to the online ones and leaves the others alone |
| Shred.CrossDeviceShredState.RegisterDevice | crates/content-keys/src/lib.rs:311-327 | step of the run model: an online device catches up, an offline one starts from nothing |
| Shred.CrossDeviceShredState.Shred | crates/content-keys/src/lib.rs:330-336 | step of the run model |
| Shred.CrossDeviceShredState.MergeTombstones | crates/content-keys/src/lib.rs:339-352 | step of the run model, for every list with repetitions |
| Shred.CrossDeviceShredState.SetDeviceOnline | crates/content-keys/src/lib.rs:361-370 | step of the run model: coming online catches up, an unknown device is ignored |
| Codec.NatRoundTrip | crates/admission/src/lib.rs:1132-1283 | a fixed-width integer in either byte order is read back |
| Codec.NatIsOnto | crates/admission/src/lib.rs:1132-1283 | every byte string of a width is the encoding of the integer it decodes to |
| Codec.LittleAt | crates/admission/src/lib.rs:1132-1283 | `to_le_bytes`: byte i is digit i of the number to base 256 |
| Codec.BigIsReversed | crates/content-keys/src/lib.rs:481-510 | `to_be_bytes` is the reverse of `to_le_bytes` |
| Codec.DecodeEncode | crates/admission/src/lib.rs:1132-1283 | for every message format and every value, decoding the encoding followed by any bytes returns the value and those bytes |
| Codec.EncodeDecode | crates/admission/src/lib.rs:1132-1283 | bytes that decode are the encoding of the decoded value followed by the rest: no second spelling is accepted |
| Codec.UniqueReading | crates/admission/src/lib.rs:1132-1283 | equal bytes force equal contents and equal remainders |
| InviteFormat.IceInjective | crates/transport/src/ice.rs:181-195 | the ICE policy, server by server, is determined by its encoded value |
| InviteFormat.BootstrapInjective | crates/admission/src/lib.rs:1227-1278 | bootstrap metadata with all profiles, lists and optional parts is determined by its encoded value |
| InviteFormat.InviteUniqueReading | crates/admission/src/lib.rs:1132-1225 | a decoder reads every signed field of an invite back whatever follows, so equal signing bytes force equal invites, the expiry to the millisecond |
| InviteBuilder.TextsBytes | crates/admission/src/lib.rs:1239-1242 | count, then each string: the encoding of the list |
| InviteBuilder.OptTextBytes | crates/transport/src/ice.rs:569-577 | presence byte and string: the encoding of the optional string |
| InviteBuilder.TurnsBytes | crates/transport/src/ice.rs:188-194 | the loop over the TURN servers builds the encoding of their list |
| InviteBuilder.IceSigningBytes | crates/transport/src/ice.rs:181-195 | the appended buffer is the encoding of the ICE policy |
| InviteBuilder.ProfilesBytes | crates/admission/src/lib.rs:1234-1259 | the loop over the profiles, with its three inner loops, builds the encoding of their list |
| InviteBuilder.ThreeBytes | crates/admission/src/lib.rs:1260-1275 | presence byte and three commitments: the encoding of the optional DM or group part |
| InviteBuilder.BootstrapSigningBytes | crates/admission/src/lib.rs:1227-1278 | the appended buffer is the encoding of the bootstrap metadata |
| InviteBuilder.SignalingBytes | crates/admission/src/lib.rs:1140-1174 | the appended buffer is the encoding of the signaling metadata with its framed ICE policy |
| InviteBuilder.AdmissionBytes | crates/admission/src/lib.rs:1183-1193 | the appended buffer is the encoding of the admission snapshot |
| InviteBuilder.PasswordBytes | crates/admission/src/lib.rs:1201-1219 | the appended buffer is the encoding of the password policy |
| InviteBuilder.CanonicalInviteSigningBytes | crates/admission/src/lib.rs:1132-1225 | the whole append-style builder produces the canonical encoding that `InviteUniqueReading` is about |
| SignedMessages.WelcomeUniqueReading | crates/admission/src/lib.rs:1414-1432 | Welcome bytes determine every signed field and what follows |
| SignedMessages.HelperUniqueReading | crates/admission/src/lib.rs:1604-1622 | helper-proof bytes determine every signed field and what follows |
| SignedMessages.MembershipUniqueReading | crates/content-keys/src/lib.rs:481-499 | live-key transcripts determine every field and what follows |
| MessageBuilders.WelcomeSigningBytes | crates/admission/src/lib.rs:1414-1432 | the appended buffer is the encoding of the Welcome authorization |
| MessageBuilders.HelperSigningBytes | crates/admission/src/lib.rs:1604-1622 | the appended buffer is the encoding of the helper proof |
| MessageBuilders.TranscriptBytes | crates/content-keys/src/lib.rs:481-499 | the appended buffer is the encoding of the membership proof |
| SignedMessages.WelcomeFitsExact | crates/admission/src/lib.rs:1414-1432 | the Welcome theorems hold for every Welcome whose lengths fit a `u64` and whose expiry fits an `i64` |
| SignedMessages.HelperFitsExact | crates/admission/src/lib.rs:1604-1622 | the same for helper proofs |
| InviteFormat.Bits64Exact | crates/admission/src/lib.rs:1222 | a signed expiry is written modulo 2^64 |
| Signatures.VerifiesExact | crates/admission/src/lib.rs:843-855 | nothing verifies under a key of another length than 32, or with a key or signature that does not parse or check |
| SignedMessages.DomainsDisjoint | crates/admission/src/lib.rs:1132-1134 | no invite, Welcome, helper-proof or live-key message is a prefix of a message of another kind |
| SignedMessages.NoCrossUse | crates/admission/src/lib.rs:828-856 | under ideal signatures no signature is valid, under one key, for two kinds of message |
| InviteFormat.PolicyNamed | crates/admission/src/lib.rs:172-177 | the signed signaling bytes name the endpoint policy right after the endpoint |
| InviteFormat.KindNamed | crates/admission/src/lib.rs:266-273 | the signed bootstrap bytes name the invite kind right after tag and version |
| InviteFormat.AdapterNamed | crates/admission/src/lib.rs:292-300 | the signed profile bytes name the adapter right after the profile id |
| InviteFormat.ProtocolNamed | crates/admission/src/lib.rs:1203-1210 | the signed password bytes name the protocol right after the flag |
| InviteMetadata.SpaceExact | crates/admission/src/lib.rs:222-227 | white space is the UTF-8 form of exactly the characters that `str::trim` removes |
| InviteMetadata.TrimDropsSpace | crates/admission/src/lib.rs:222-227 | trimming removes a space of one, two or three bytes at either end |
| InviteMetadata.TrimKeepsRest | crates/admission/src/lib.rs:222-227 | trimming keeps everything that neither starts nor ends with a space |
| InviteMetadata.FingerprintExact | crates/admission/src/lib.rs:1128-1130 | a text is a fingerprint if and only if it is the hexadecimal form of a digest, in either case |
| InviteMetadata.HexExact | crates/admission/src/lib.rs:1119-1126 | each byte is written as its two lower-case digits to base 16 |
| InviteMetadata.SignalingExact | crates/admission/src/lib.rs:179-748 | signaling metadata passes if and only if endpoint, scheme, fingerprint, trust status and ICE policy do, and fails with the error of the first that does not |
| InviteMetadata.RevocationExact | crates/admission/src/lib.rs:497-506 | a revocation policy passes if and only if it enforces everything under a fingerprint |
| InviteMetadata.PlainEndpointExact | crates/transport/src/ice.rs:517-527 | an ICE endpoint passes the common checks if and only if it has 1 to 512 bytes and no white space; being trimmed follows |
| InviteMetadata.IceExact | crates/transport/src/ice.rs:114-131 | an ICE policy passes if and only if it names a server and each server passes on its own |
| InviteMetadata.HexOfDigest | crates/admission/src/lib.rs:1119-1130 | the hexadecimal form of every digest passes `is_hex_fingerprint` |
| InviteMetadata.PrintableIsPlain | crates/transport/src/ice.rs:517-531 | printable ASCII of at most 512 bytes is trimmed and free of white space, as UTF-8 spells it |
| InviteMetadata.DefaultIceValid | crates/transport/src/ice.rs:92-131 | the default ICE policy passes its validator |
| InviteMetadata.DefaultsValid | crates/admission/src/lib.rs:471-748 | whatever the hash, the default signaling metadata and the default revocation policy pass their validators |
| Invites.ConsumeExact | crates/admission/src/lib.rs:1305-1317 | an invite can be used if and only if it is not revoked, not expired and not used up; the error is that of the first |
| Invites.SignedAsRequested | crates/admission/src/lib.rs:892-1061 | a new invite holds id, commitment and expiry as asked for, the maximum of 1 and `max_uses`, the request's metadata or the defaults where it names none, and a signature over all of it |
| Invites.IssuanceExact | crates/admission/src/lib.rs:945-1061 | issuing succeeds if and only if every part of the request passes its own validator, and fails with the first error |
| Invites.VerificationExact | crates/admission/src/lib.rs:828-856 | verification passes if and only if every part is valid, the version is 1 and the signature covers every signed field, and fails with the first error |
| Invites.ConsumeChecksRecord | crates/admission/src/lib.rs:1084-1101 | in every store, reachable or not, a record that does not verify cannot be consumed |
| Invites.FreshInviteVerifies | crates/admission/src/lib.rs:828-1061 | what issuance validates is what verification checks, for plain issuance because the defaults are valid, and use counts and revocations are not signed: an issued invite verifies after any of them |
| Invites.StoreRefinesInvites | crates/admission/src/lib.rs:765-1101 | over every run each stored invite verifies, keeps its signed fields as issued, and agrees with the one-record invite that starts from what was asked for and sees its own events |
| Invites.ConsumeAgrees | crates/admission/src/lib.rs:1084-1101 | consume on the store returns, at every moment of every run, what the one-record invite returns, with the same error precedence; the signature check never adds an error |
| Invites.NotIssuedNotUsed | crates/admission/src/lib.rs:1084-1101 | an id nobody issued is absent and never consumed |
| Invites.UsesConserved | crates/admission/src/lib.rs:945-1101 | with fresh ids the stored use count is the number of successful consumes and at most `max_uses` |
| Invites.StoredExact | crates/admission/src/lib.rs:945-1101 | with fresh ids an issued invite holds what was asked for, its successful consumes, and a revocation if and only if there was one since |
| Invites.UsableIff | crates/admission/src/lib.rs:1084-1101 | with fresh ids a consume succeeds if and only if the invite was not revoked since, has not expired, and has been used fewer than max(1, `max_uses`) times |
| Invites.InviteRecord.constructor | crates/admission/src/lib.rs:1288-1297 | unused and not revoked |
| Invites.InviteRecord.Revoke | crates/admission/src/lib.rs:1300-1302 | sets the flag only |
| Invites.InviteRecord.Consume | crates/admission/src/lib.rs:1305-1317 | result and new state are those of the specification; an error changes nothing |
| Invites.InviteStore.constructor | crates/admission/src/lib.rs:937-942 | starts empty |
| Invites.InviteStore.IssueInvite | crates/admission/src/lib.rs:945-1061 | step of the run model for all four ways to issue, with the first failing validation as the error |
| Invites.InviteStore.RevokeInvite | crates/admission/src/lib.rs:1070-1081 | step of the run model; an unknown id is `NotFound` |
| Invites.InviteStore.ConsumeInvite | crates/admission/src/lib.rs:1084-1101 | step of the run model, signature check included |
| InviteIntegrity.SignatureBindsInvite | crates/admission/src/lib.rs:828-927 | under ideal signatures another record with the same key and signature verifies if and only if it agrees on every signed field, the expiry to the millisecond |
| InviteIntegrity.SignatureBindsWelcome | crates/admission/src/lib.rs:1364-1392 | one Welcome signature under one key admits to one group by one invite with one payload, or the payloads are a hash collision |
| InviteIntegrity.SignatureBindsHelperProof | crates/admission/src/lib.rs:1454-1479 | one helper signature under one key vouches for one subject, challenge and helper |
| Admission.WelcomeExact | crates/admission/src/lib.rs:1364-1392 | a Welcome passes if and only if it is for this invite, unexpired, for this payload and signed over all fields; any other gets the error of the first condition that fails |
| Admission.HonestWelcomeExact | crates/admission/src/lib.rs:1340-1392 | an honestly signed Welcome passes for its invite and payload, up to hash collisions, exactly until its expiry |
| Admission.HelperProofExact | crates/admission/src/lib.rs:1454-1479 | a helper proof passes if and only if it is by this helper, about this subject, unexpired and signed over all fields, else it gets the error of the first condition that fails |
| Admission.StepOnInvite | crates/admission/src/lib.rs:1718-1747 | an admission uses the invite once if it succeeds and leaves it alone if it fails |
| Admission.UsesConserved | crates/admission/src/lib.rs:1305-1317 | over every interleaving of admissions by any number of controllers with revocations, the rise in `uses` is the number of successes and stays within `max_uses` |
| Admission.StepOnController | crates/admission/src/lib.rs:1683-1699 | one step counts at most its own subject at its own controller |
| Admission.AttemptsCounted | crates/admission/src/lib.rs:1683-1747 | a gate that asks for a password has counted, for each subject, exactly the password admissions that brought a good Welcome, saturated at `u32::MAX`; no other gate counts |
| Admission.AdmissionExact | crates/admission/src/lib.rs:1718-1747 | the result of every admission in every run, with its error precedence, is the first objection of the Welcome, of the gate given the attempts so far, and of the invite given the admissions and revocations so far |
| Admission.GateVerdictExact | crates/admission/src/lib.rs:1683-1715 | the gate opens if and only if there is none, or the password is right and the tries are within the limit, or the proof by the gate's own helper is good; an offline verifier never opens |
| Admission.AdmittedIff | crates/admission/src/lib.rs:1718-1747 | over every run an admission succeeds if and only if it brings a good Welcome, the gate opens, the invite is neither revoked nor expired, and fewer than the maximum have succeeded |
| Admission.AdmittedInTime | crates/admission/src/lib.rs:1305-1392 | no admission succeeds after a revocation or after the expiry of the invite or of its Welcome |
| Admission.PasswordQuota | crates/admission/src/lib.rs:1683-1699 | below `u32::MAX`, a subject's successful password admissions at one controller are at most `max_attempts` |
| Admission.LoginsCounted | crates/admission/src/lib.rs:1563-1582 | the helper changes nothing but its counters, and each is the number of the subject's logins, saturated |
| Admission.HelperExact | crates/admission/src/lib.rs:1454-1582 | a login succeeds exactly when the password is right and the subject is within the limit, and the proof it returns is accepted exactly by gates for this helper, for this subject, until its time to live ends |
| Admission.AdmissionController.constructor | crates/admission/src/lib.rs:1665-1671 | no attempts yet, a limit of at least one |
| Admission.AdmissionController.TryPassword | crates/admission/src/lib.rs:1683-1699 | result and new counters are those of the specification |
| Admission.AdmissionController.FinalizeAdmission | crates/admission/src/lib.rs:1734-1747 | changes invite and controller as the step of the run model does |
| Admission.AdmissionController.FinalizeHelperAdmission | crates/admission/src/lib.rs:1718-1731 | changes the invite as the step of the run model does and the controller not at all |
| Admission.OnlineAdmissionHelper.constructor | crates/admission/src/lib.rs:1528-1549 | no attempts yet, a limit and a lifetime of at least one |
| Admission.OnlineAdmissionHelper.AuthorizeLogin | crates/admission/src/lib.rs:1563-1582 | every attempt counts, right or wrong; result and counters are those of the specification |
| RateLimit.RetainDropsPrefix | crates/abuse/src/lib.rs:165-177 | on a sorted log `retain` drops exactly a prefix |
| RateLimit.LogIsTail | crates/abuse/src/lib.rs:165-177 | with a clock that does not run backwards the stored log is the sorted tail of the granted times, at most `limit` long, and every earlier grant has left the window |
| RateLimit.GrantsSpread | crates/abuse/src/lib.rs:165-177 | any `limit + 1` consecutive grants span more than the window |
| RateLimit.SlidingWindow | crates/abuse/src/lib.rs:148-177 | with a clock that does not run backwards every closed interval of one window length holds at most `limit` grants |
| RateLimit.SlidingWindowExact | crates/abuse/src/lib.rs:148-177 | the window bound holds on every run whose clock steps back by at most `back` if and only if `back` is 0, the limit is 1 or the window is negative |
| RateLimit.StepBackBreaksBound | crates/abuse/src/lib.rs:165-177 | for every limit of at least 2 and every window: a full log, an attempt just after its window and one a nanosecond earlier put `limit + 1` grants into one window |
| RateLimit.SingleGrantsApart | crates/abuse/src/lib.rs:165-177 | with a limit of 1 any two grants are more than a window apart, whatever the clock does |
| RateLimit.FullLog | crates/abuse/src/lib.rs:165-177 | a full log opens exactly when its oldest hit has left the window, and refused attempts leave it as it is |
| RateLimit.RefusalMeansFull | crates/abuse/src/lib.rs:165-177 | a refusal happens on a full log only, and advertises the oldest hit's remaining time in whole milliseconds, at least one |
| RateLimit.RefusalsKeepLog | crates/abuse/src/lib.rs:165-177 | no number of refused attempts changes the log |
| RateLimit.RetryExact | crates/abuse/src/lib.rs:165-177 | after a refusal, however many refused attempts follow, the next one is allowed if and only if more than the remaining time has passed |
| RateLimit.RetryOnMillisecondClock | crates/abuse/src/lib.rs:165-177 | on a millisecond clock a retry is allowed if and only if it waits longer than advertised, or exactly as long when the oldest hit was about to expire at once |
| RateLimit.KeysIndependent | crates/abuse/src/lib.rs:148-177 | a key's log and grants are those of a limiter it has to itself |
| RateLimit.SlidingWindowPerKey | crates/abuse/src/lib.rs:148-177 | the window bound for one key in every run of mixed keys, assuming of clocks only that this key's one is harmless in the sense of `SlidingWindowExact` |
| RateLimit.LogPerKey | crates/abuse/src/lib.rs:148-177 | in every run of mixed keys the log of a key whose clock does not step back is sorted and at most `limit` long |
| RateLimit.RateLimiter.constructor | crates/abuse/src/lib.rs:151-157 | empty, with a limit of at least one |
| RateLimit.RateLimiter.DecisionFor | crates/abuse/src/lib.rs:165-177 | decision and new log are those of the specification; no other key changes |
| AbuseMetrics.MetricsExact | crates/abuse/src/lib.rs:239-281 | over every run each gate's log is that of its own attempts, its two counters add up to them, and its allowed counter is the sum of what each actor is granted |
| AbuseMetrics.GatesIndependent | crates/abuse/src/lib.rs:239-281 | over every run the invite and the message gate are each in the state that their own attempts alone produce |
| AbuseMetrics.AllowedIsTotal | crates/abuse/src/lib.rs:257-281 | the allowed counter is the sum of what each actor would be granted on their own |
| AbuseMetrics.FloodBound | crates/abuse/src/lib.rs:257-281 | whatever the limiter held before, the attempts from any position on with times in one window get at most `limit` actions through for each actor among them |
| AbuseMetrics.CounterRise | crates/abuse/src/lib.rs:257-281 | between two moments of a run, if the attempts of one kind in between have times in one window, that kind's allowed counter rises by at most `limit` for each actor among them |
| AbuseMetrics.AbuseControls.constructor | crates/abuse/src/lib.rs:242-249 | empty limiters with limits of at least one, all counters 0 |
| AbuseMetrics.AbuseControls.InviteDecision | crates/abuse/src/lib.rs:257-265 | step of the run model; the message limiter is untouched |
| AbuseMetrics.AbuseControls.MessageDecision | crates/abuse/src/lib.rs:273-281 | step of the run model; the invite limiter is untouched |
| Backoff.DecisionForAttempt | crates/abuse/src/lib.rs:107-137 | the saturating, step-by-step capped loop returns min(initial * multiplier^(k - 1), max) of unbounded arithmetic, and fails closed outside 1..`max_attempts` |
| Backoff.CapTwice | crates/abuse/src/lib.rs:121-137 | capping after every factor is capping once |
| Backoff.DelaysGrow | crates/abuse/src/lib.rs:121-137 | delays never shrink and stay between the initial and the maximal one |
| Backoff.ScheduleBounded | crates/abuse/src/lib.rs:121-137 | n attempts wait between n times the initial and n times the maximal delay in all |
| VoiceNegotiation.AlwaysOneSlot | apps/ui/src/voice-media.ts:734-757 | over every interleaving an answerer that has received an offer has exactly one of pending and active set, and it is one of the offers received |
| VoiceNegotiation.ChoiceStep | apps/ui/src/voice-media.ts:734-757 | an offer moves the chosen time stamp to the newer of the two, except a repetition of the active one with an older time stamp; nothing else moves it |
| VoiceNegotiation.ChoiceExact | apps/ui/src/voice-media.ts:734-856 | an offer takes over from an active one if and only if it is newer or repeats it, and from a pending one if and only if it is not older |
| VoiceNegotiation.PendingIsLastNewest | apps/ui/src/voice-media.ts:835-856 | while nothing is active the pending offer is the last of the newest ones received |
| VoiceNegotiation.Constants | apps/ui/src/voice-media.ts:609-630 | role, session and peer never change, and a session is closed exactly after a close |
| VoiceNegotiation.TimerAccepts | apps/ui/src/voice-media.ts:843-855 | the timer makes the pending offer of an open session the active one |
| VoiceNegotiation.ClosedForGood | apps/ui/src/voice-media.ts:885-896 | after a close the buffer is empty, the timer stopped, and no event changes anything |
| VoiceNegotiation.MaxRegisterExact | apps/ui/src/voice-media.ts:734-882 | the answerer stands for the newest offer at every moment of a run if and only if no offer repeats the then active negotiation with an older time stamp |
| VoiceNegotiation.RegressionHappens | apps/ui/src/voice-media.ts:734-757 | concrete run of three events after which the answerer stands for time stamp 3 although it has received an offer of time stamp 5 |
| VoiceNegotiation.ChoosesNewest | apps/ui/src/voice-media.ts:734-882 | with one time stamp per negotiation id it always does |
| VoiceNegotiation.ChoiceIndependentOfOrder | apps/ui/src/voice-media.ts:734-882 | with distinct time stamps the choice depends only on the set of offers received, not on their order, repetition or on when the timer fires |
| VoiceNegotiation.QueueEffect | apps/ui/src/voice-media.ts:795-823 | queueing appends to its own negotiation under the two limits and at most evicts others |
| VoiceNegotiation.QueueIds | apps/ui/src/voice-media.ts:795-810 | a candidate of a new negotiation appends it, and another one goes only when 8 are held, namely the oldest |
| VoiceNegotiation.SameExact | apps/ui/src/voice-media.ts:811-819 | a candidate repeats another if and only if they differ at most in the user name fragment |
| VoiceNegotiation.PushKeepsFirst | apps/ui/src/voice-media.ts:795-823 | pushing under the duplicate and length checks keeps the first 64 distinct arrivals |
| VoiceNegotiation.AlwaysWellKept | apps/ui/src/voice-media.ts:795-823 | over every interleaving at most 8 negotiations are buffered, each once |
| VoiceNegotiation.BufferExact | apps/ui/src/voice-media.ts:759-882 | over every interleaving at most 8 negotiations are buffered, and each list is the first 64 distinct candidates of the signals that had to wait since its entry was created, in order |
| VoiceNegotiation.WaitingIsKept | apps/ui/src/voice-media.ts:759-772 | in every reachable session a candidate that has to wait is not lost: its negotiation is buffered with an equal candidate or 64 others |
| VoiceNegotiation.OthersIgnored | apps/ui/src/voice-media.ts:759-776 | any other candidate signal changes nothing |
| VoiceNegotiation.AnswererKeepsAll | apps/ui/src/voice-media.ts:764-771 | an open answerer keeps candidates of every negotiation that is not both active and described |
| VoiceNegotiation.BufferOtherwiseKept | apps/ui/src/voice-media.ts:734-882 | without a waiting candidate, a change of the active negotiation, a flush or a close, the buffer stays as it is |
| VoiceNegotiation.FlushExact | apps/ui/src/voice-media.ts:825-833 | flushing removes the entry of its negotiation and no other |
| VoiceNegotiation.SwitchKeepsOne | apps/ui/src/voice-media.ts:858-869 | whenever another negotiation becomes active, its entry stays and all others go |
| VoiceNegotiation.OffererBuffersItsOwn | apps/ui/src/voice-media.ts:764-770 | an offerer never buffers candidates of another negotiation |
| VoiceNegotiation.AcceptKeepsOne | apps/ui/src/voice-media.ts:858-869 | accepting an offer of another negotiation leaves that negotiation's entry unchanged and no other |
| VoiceNegotiation.VoiceSession.constructor | apps/ui/src/voice-media.ts:609-630 | the initial state of either role |
| VoiceNegotiation.VoiceSession.FindCandidate | apps/ui/src/voice-media.ts:808-818 | the loop decides whether an equal candidate is held |
| VoiceNegotiation.VoiceSession.QueuePendingCandidate | apps/ui/src/voice-media.ts:795-823 | new buffer is that of the specification: eviction of the oldest entry, duplicate and length checks |
| VoiceNegotiation.VoiceSession.AcceptAnswererOffer | apps/ui/src/voice-media.ts:858-869 | new state is that of the specification, up to the first `await` |
| VoiceNegotiation.VoiceSession.ScheduleAnswererOffer | apps/ui/src/voice-media.ts:835-856 | an older offer changes nothing; otherwise the offer is pending and the selection timer runs |
| VoiceNegotiation.VoiceSession.HandleRemoteSignal | apps/ui/src/voice-media.ts:734-793 | step of the run model |
| VoiceNegotiation.VoiceSession.SelectionTimer | apps/ui/src/voice-media.ts:843-855 | step of the run model |
| VoiceNegotiation.VoiceSession.FlushPendingCandidates | apps/ui/src/voice-media.ts:825-833 | step of the run model |
| VoiceNegotiation.VoiceSession.CloseSession | apps/ui/src/voice-media.ts:885-896 | step of the run model |
| EventLog.PushKeepsValid | apps/ui/src/commands.ts:2282-2286 | sequence numbers stay strictly increasing, the cursor is the last of them and grows |
| EventLog.PushExact | apps/ui/src/commands.ts:2282-2286 | the new event takes the number after the last one and the log before it stays |
| EventLog.PageExact | apps/ui/src/commands.ts:5835-5859 | a page holds exactly the matching events between the cursor it starts from and the one it returns; `has_more` is true if and only if a matching event remains; each page followed makes the remainder smaller |
| EventLog.TopicExact | apps/ui/src/commands.ts:5847-5849 | the topic of a kind is the part before its first dot, or all of it |
| EventLog.BetweenExact | apps/ui/src/commands.ts:5846-5852 | what lies between two cursors is every event numbered between them that has a subscribed topic, or any topic if none is subscribed |
| EventLog.LimitExact | apps/ui/src/commands.ts:5845 | 64 events a page by default, and always between 1 and 256 |
| EventLog.AfterOneMore | apps/ui/src/main.tsx:1893-1920 | a run starts from the reader it is given and acts step by step |
| EventLog.ExactlyOnce | apps/ui/src/commands.ts:5828-5862 | over every interleaving of pushes and polls the concatenated pages are the matching log entries up to the reader's cursor, in order, with no gap or repeat |
| EventLog.CursorMonotone | apps/ui/src/main.tsx:1427-1430 | the reader's cursor never moves back |
| EventLog.PollFallback | apps/ui/src/main.tsx:1893-1920 | the paging loop, on a log that grows between pages, returns exactly the matching events between its two cursors, and stops after 8 pages or when nothing matching remains |
| EventLog.LaterLogSame | apps/ui/src/commands.ts:2282-2286 | appending does not change what lies up to a cursor |
| EventLog.AppState.Record | apps/ui/src/commands.ts:2282-2286 | appends one event with the next sequence number and moves the cursor to it |
| Mesh.LessIsTotal | apps/ui/src/main.tsx:467-491 | of two different strings exactly one compares less by UTF-16 code units |
| Mesh.LessExact | apps/ui/src/main.tsx:490 | a proper prefix comes first, else the first different code unit decides |
| Mesh.RolesOppose | apps/ui/src/main.tsx:467-491 | for every pair of roles and of different peer ids the two ends compute opposite edge roles |
| Mesh.RoleExact | apps/ui/src/main.tsx:463-491 | owners and staff offer to the others, and among equals the smaller peer id offers |
| Mesh.TextRuntimePeerEdges | apps/ui/src/main.tsx:543-583 | the filter and the loop with its set of seen peers compute the specified edge list |
| Mesh.EdgesSimple | apps/ui/src/main.tsx:543-583 | for every roster no edge leads to the local peer and no remote peer is listed twice |
| Mesh.EdgesCover | apps/ui/src/main.tsx:543-583 | for every roster the peers with an edge are exactly the reachable ones other than the local peer |
| Mesh.EdgesExact | apps/ui/src/main.tsx:543-583 | for every roster the edges are exactly those from a non-empty local peer id to each other peer id of a present member, with the role of its first entry |
| Mesh.LocalMemberExact | apps/ui/src/main.tsx:545-547 | the local member is the first roster entry of the user |
| Mesh.LocalPeerExact | apps/ui/src/main.tsx:548-549 | the local peer id is the user's own, else the backend's, else empty |
| Mesh.OneOffererPerPair | apps/ui/src/main.tsx:467-583 | two members, online with current leases, of one roster with distinct member ids and with distinct non-empty peer ids among those online, list exactly one edge to each other, and exactly one of the two offers, so the glare of section 4 of RFC 3264 cannot come from the choice of roles; a member that can manage the group offers to one that cannot |

## Left out

- Cryptography: Ed25519, SHA-256, Argon2, AES-GCM and the MLS exporter are parameters; whether a password matches is
  a boolean input.
- The validators of bootstrap metadata, admission snapshots and password policies are parameters of the invite store:
  issuance and verification call the same ones, and nothing else about them matters here. Random invite ids are
  inputs, and conservation of uses assumes that they do not repeat.
- UTF-8 validity.
- Panics of `chrono` on out-of-range dates; panics on out-of-range retention windows are modelled.
- `request_key`, `request_key_for_author` and the hashing of network identities: thin wrappers around the scoped
  request.
- Relay sums and freeload penalties, and `run_abuse_soak`: unchecked sums and floating point. The abuse counters are
  unbounded; overflow of a `u64` is not modelled.
- Awaited WebRTC effects: each voice handler is its synchronous part, and flushing the buffer is an event of its own
  that may happen at any time.
- Polling: the normalization of subscribed kinds is outside, limits are integers, and a cursor ahead of the log,
  which only a reset of the log produces, is not covered by `EventLog.ExactlyOnce`.
- The direct-message branch of `textRuntimePeerEdges`, and the clock that decides whether a presence lease is current.
- `AppService`, persistence, transport internals, invite links, the React interface and audio code.
- EventLog.PollFallback: the log as each page finds it is an input, and it only grows between pages.
