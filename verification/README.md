# Verified model of the tunnel and its guards

This project models the transport of the isolated browser: the frame codec with its
replay window and in-band key rotation, the two relay loops that join the local proxy to
the gateway, the handshake that starts a session, and the stateful guards around them
(endpoint failover, token-bucket rate limiting, the per-address connection limiter and the
promo-code quota). Everything is proved with Dafny 4.11; `dafny verify dfyconfig.toml`
checks the whole project.

## How the model is built

- **Bytes are bytes.** Records, headers, counters, nonces, auth frames and rekey payloads are
  byte sequences, with the 16-, 32- and 64-bit narrowing of the implementation written out.
- **Cryptography enters through its laws.** The AEAD (section 2.8 of RFC 8439) is any pair of
  functions with `open(k, n, seal(k, n, p)) = p` and a 16-byte expansion, which
  ChaCha20-Poly1305 meets exactly; the key agreement (section 6.1 of RFC 7748) is any pair of
  functions that commutes; HKDF (section 2 of RFC 5869) is any labelled function. Where a claim
  needs more (no record of a run opens under a foreign key, no two inputs of the KDF collide),
  the claim says so for the records and inputs at hand.
- **Stateful code is stateful.** `ReplayWindow`, `FrameCodec`, `Endpoint` (the branches of the two
  relay loops), `FailoverManager`, `TokenBucket`, `IpRateLimiter` and `PromoManager` are classes;
  every method is proved against a function on values, and the theorems are about those functions.
- **Definitions are pinned by numbers.** What an operation does is also stated in plain numbers and
  offsets, apart from the definitions it is modelled by: `WireFormat` for the codec, `TunnelEnds`
  for the relays, `BucketCalls`, `TokenBuckets.RefillExactly` and `IpLimiter.RecentExactly` for the
  guards. Fixed-width counters wrap, as they do in a release build.
- **Concurrency is interleaving.** The tunnel, the shared token bucket and `use_code` are step
  machines: one action is one turn of a relay loop, one atomic operation of a thread, or one
  critical section of a call.

## Where the code and its comments differ

- The gateway waits for `RekeyNeeded` from `read_frame` (gateway/src/main.rs:650), but only
  `write_frame` produces it: `Codec.ReadFrame` promises it never does. The rekey branch is
  unreachable as written, so the model lets the gateway start a rekey at any moment.
- The threat model speaks of a rekey every 4 billion frames, but a rekey does not reset the send
  counter: `CodecLife.RecordsAreNumbered` shows that a codec emits at most REKEY_THRESHOLD records
  in its life, however often it rekeys.
- A comment in `read_frame` promises that lower key identifiers are refused; the code compares
  identifiers for equality only, and so does the model.
- Data and rekey messages share one channel without a tag: a data chunk that begins like a rekey
  message is swallowed. `TunnelLimits.SafetyIsExact` says exactly which chunks, if the gateway may
  start a rekey. Even if it never does, a look-alike of REKEY_INIT from the target makes the client
  answer, and the gateway delivers the answer to the target as if the client had sent it;
  `TunnelPlain.SafetyWithoutRekey` says exactly which chunks are harmful then.
- The promo quota can be overrun by concurrent calls, by exactly the number of calls in flight
  minus one (`Promo.QuotaUnderInterleaving`, `PromoLimits.BoundIsReached`).
- The connection limiter promises 20 connections a minute for each address, but an address that is
  evicted from a full table starts over: `IpLimiterLimits.EvictionForgets` has a run that lets one in
  21 times within a minute. The promise holds if and only if no more than 10 000 addresses are about
  (`IpLimiterLimits.LimitHoldsExactly`); with evictions, 20 more for each of them
  (`IpLimiterRuns.EvictionsBoundWindow`).
- The periodic clean-up looks like housekeeping, but it makes room and so decides what is evicted: it
  goes unnoticed if and only if no more than 10 000 addresses are about
  (`IpLimiterLimits.CleanUpsUnnoticedExactly`).
- A gateway that waits for REKEY_ACK takes any other frame for a failed rekey, so a client that sent
  data before it saw REKEY_INIT loses the session (`TunnelProofs.RekeyOutcome`). From which states a
  session can still come to rest is `TunnelDrain.DrainIsExact`.
- Threads that are half way through `try_consume` can be granted three bucketfuls at one instant,
  where serial calls get at most two if the capacity is the rate
  (`BucketStretches.StretchBoundIsReached`); never more, whatever the interleaving
  (`BucketStretches.StretchBound`). This concerns the proxy's bucket, which all its connections share
  (transport-core/src/proxy.rs:93); the gateway makes one for each connection
  (gateway/src/main.rs:555), with one caller. Callers ask for one chunk or frame at a time, so it
  takes as many of them as make up three bucketfuls; the run that reaches the bound asks for a whole
  bucketful in each of three calls.

## Model

| member | source | states |
|---|---|---|
| `Replay.ReplayWindow.Check` | transport-core/src/replay.rs:33-63 | the bounded window answers exactly as the full history does: accepted if and only if never accepted before and no accepted counter is more than the window ahead; the stored set is the accepted counters at or above the base |
| `Replay.ReplayWindow.SeenIsBounded` | transport-core/src/replay.rs:14-48 | the window never stores more than its size plus one counters |
| `Replay.AcceptedInFull` | transport-core/src/replay.rs:33-63 | for every window size and every arrival order: all arrivals are accepted if and only if none repeats and none is overtaken by more than the window |
| `Codec.ParseEncoded` | transport-core/src/protocol.rs:189-199 | the 16-bit length and 32-bit counter casts lose nothing for an admissible payload; the reader's header and length checks pass and it finds exactly the written fields and leaves exactly the bytes that follow |
| `Codec.ParsedIsCanonical` | transport-core/src/protocol.rs:215-253 | whatever the reader takes for a record is exactly the canonical bytes of its fields, with a body within the bounds; together with `Codec.ParseCanonical` the parser accepts canonical records and nothing else |
| `Codec.ParseCanonical` | transport-core/src/protocol.rs:215-253 | every canonical record with a body within the bounds is parsed to its own fields |
| `WireFormat.RecordLayout` | transport-core/src/protocol.rs:174-199 | the bytes of a record in plain numbers: 17 03 03, a length field of payload plus 21 with the high byte first, the identifier, the counter with the high byte first, and the text sealed under the prefix and those four counter bytes |
| `WireFormat.ParseOutcome` | transport-core/src/protocol.rs:215-253 | which streams are read as a record and with which fields, in plain numbers, and which error every other stream gets and how much of it is used up |
| `WireFormat.WriteOutcome` | transport-core/src/protocol.rs:167-174 | a write is refused for its size exactly over 16384 bytes, and otherwise for the counter exactly from 0xF0000000 on; the counter goes up by one, in 64 bits, exactly if the size passes |
| `WireFormat.ReadOutcome` | transport-core/src/protocol.rs:255-299 | a well-formed record is a replay exactly if its counter was accepted or one more than 64 ahead was, of an unknown key exactly if it is not and neither key has its identifier, and otherwise read or refused as the key and the nonce rebuilt from the wire decide; its counter joins the history exactly if it is no replay |
| `Codec.ReadFrame` | transport-core/src/protocol.rs:211-300 | a successful read consumes at least a whole minimal record, and reading never asks for a rekey |
| `Codec.ReadEncoded` | transport-core/src/protocol.rs:211-300 | any codec that holds a record's key under its identifier, knows the prefix and has not seen the counter reads the record back byte for byte and changes state only as one successful read does |
| `Codec.AnyReadSpendsCounter` | transport-core/src/protocol.rs:255-263 | any read of a well-formed record, successful or not, uses up its counter: every later read of a record with that counter is refused as a replay |
| `CodecObject.FrameCodec.WriteFrame` | transport-core/src/protocol.rs:162-207 | the buffer filled step by step is the specified record, byte for byte as `WireFormat.RecordLayout` gives it; the counter is spent by every call that passes the size check, and refusals are the specified ones |
| `CodecObject.FrameCodec.ReadFrame` | transport-core/src/protocol.rs:211-253 | header checks, error cases and consumed bytes are the specified ones, on every stream |
| `CodecObject.FrameCodec.Accept` | transport-core/src/protocol.rs:255-299 | the counter is marked before a key is chosen, so a record that fails later still uses it up; key choice and overlap counting are the specified ones |
| `CodecObject.FrameCodec.StartRekey` | transport-core/src/protocol.rs:131-145 | the old key becomes the previous key, the overlap count restarts, and neither the send counter nor the replay history changes |
| `CodecObject.FrameCodec.CompleteRekey` | transport-core/src/protocol.rs:149-152 | only the previous key is dropped |
| `CodecLife.StreamRoundTrip` | transport-core/src/protocol.rs:162-300 | for every list of admissible payloads below the threshold, a mirror codec reads the concatenated records back as exactly that list, uses every byte, and the two codecs stay mirrored |
| `CodecLife.OverlapIsExact` | transport-core/src/protocol.rs:131-152 | after a rekey and any reads, writes and completions, the codec holds the new key and, exactly until a completion or the 256th successful read, the one it replaced |
| `CodecLife.OldKeyUsableInOverlapOnly` | transport-core/src/protocol.rs:270-297 | a fresh record under the replaced key is read if and only if the overlap is open; afterwards nothing with the old identifier is read |
| `CodecLife.RecordsAreNumbered` | transport-core/src/protocol.rs:171-179 | across any rekeys and up to 2^64 writes, record number i is sealed under the prefix and i in full, and at most REKEY_THRESHOLD records are ever emitted |
| `CodecLife.EmissionsAreSealed` | transport-core/src/protocol.rs:178-199 | in every run of any length, what a record carries is the output of the call of `seal` logged for it, and the nonce of that call is the one a reader rebuilds from the prefix and the record's own counter field |
| `CodecLife.NoncesAreFresh` | transport-core/src/protocol.rs:171-186 | the nonces handed to `seal` over a codec's whole life, across any rekeys, are pairwise distinct if and only if it made no more than 2^64 writes, and each record on the wire is the output of its logged call |
| `CodecLife.DirectionsShareNoNonce` | transport-core/src/protocol.rs:17-19 | two codecs with different send prefixes never hand the same nonce to `seal`, whatever each of them does and under whatever keys |
| `Delivery.RunKeepsInv` | transport-core/src/protocol.rs:255-263 | under any loss, duplication, reordering and injection of arbitrary bytes, with any rekeys on both ends and no assumption on keys, no counter and no written record is returned twice |
| `Delivery.DeliveryIsExact` | transport-core/src/protocol.rs:255-289 | in every reachable state, injected bytes included, delivering a written record returns its plaintext exactly when its counter is fresh and the receiver holds its key, and nothing otherwise |
| `Delivery.AtMostOnceDelivery` | transport-core/src/protocol.rs:162-300 | over every run each written record is returned at most once and as the plaintext written with its counter, whatever else is injected |
| `Relay.Endpoint.OnChunk` | transport-core/src/proxy.rs:253-263 | the branch that reads a socket forwards the chunk as one frame, or ends the relay on refusal; at end of file it ends the relay, writes nothing and delivers nothing |
| `Relay.Endpoint.ClientOnData` | transport-core/src/proxy.rs:267-291 | REKEY_INIT is acknowledged under the old key before the new one is taken up, short ones end the relay, everything else is delivered |
| `Relay.Endpoint.ClientOnFrame` | transport-core/src/proxy.rs:264-298 | the client's frame branch reads one frame and handles its plaintext, or ends the relay on any read error |
| `Relay.Endpoint.GatewayOnFrame` | gateway/src/main.rs:631-649 | the gateway's frame branch while relaying delivers the data or ends the relay |
| `Relay.Endpoint.SendRekeyInit` | transport-core/src/steal.rs:219-230 | the init frame carries the next identifier, wrapping at 256, and the new key, under the current key |
| `Relay.Endpoint.HandleRekeyAck` | transport-core/src/steal.rs:267-289 | the gateway takes up the new key exactly on a well-formed ACK for the announced identifier, and otherwise ends |
| `TunnelEnds.ClientEndsExactly` | transport-core/src/proxy.rs:251-302 | the client's relay ends at a turn if and only if it closes, its socket is at end of file, its codec has no counter left for a chunk or an ACK, or a frame does not read or is a REKEY_INIT that is cut off |
| `TunnelEnds.GatewayEndsExactly` | gateway/src/main.rs:629-703 | the gateway's relay ends at a turn if and only if it closes, its socket is at end of file or its codec has no counter left while it relays, a frame does not read, or it waits for an ACK and the frame is not the ACK it waits for |
| `TunnelEnds.ClientEndOfFile` | transport-core/src/proxy.rs:256-259 | end of file on the browser's socket ends the client's relay and changes nothing else, and in every continuation the client supplies, delivers and writes nothing more |
| `TunnelEnds.GatewayEndOfFile` | gateway/src/main.rs:685-688 | the same for end of file on the target's socket while the gateway relays |
| `TunnelEnds.ClientForwards` | transport-core/src/proxy.rs:254-263 | any other chunk is supplied and put on the wire as one frame under the active key and the next counter, and changes nothing else |
| `TunnelEnds.GatewayForwards` | gateway/src/main.rs:682-693 | the same for the gateway while it relays; while it waits for an ACK it reads nothing from its socket |
| `TunnelEnds.ClientTakesFrame` | transport-core/src/proxy.rs:264-291 | a frame that does not end the client's relay is delivered whole, or is a REKEY_INIT: then nothing is delivered, the ACK goes out under the old key and the new key is in use |
| `TunnelEnds.GatewayTakesFrame` | transport-core/src/steal.rs:267-289 | a frame that does not end the gateway's relay is delivered whole, or is the ACK: then nothing is delivered and the announced key is in use, the old one kept as the previous one |
| `TunnelEnds.GatewayAnnounces` | gateway/src/main.rs:650-655 | a rekey is announced under the key in use, which stays in use, with the next identifier after 255 being 0 |
| `TunnelEnds.RekeyMessageLayout` | transport-core/src/steal.rs:219-230 | REKEY_INIT and REKEY_ACK byte by byte: 39 and 10 bytes |
| `TunnelProofs.TunnelDelivers` | gateway/src/main.rs:620-703 | in every run of both relays over FIFO channels, with any rekeys and endings and no look-alike chunks, the bytes delivered on each side are a prefix of the bytes the other side's socket supplied |
| `TunnelProofs.QuiescentTunnelIsComplete` | transport-core/src/proxy.rs:244-302 | whenever both ends are up and nothing is in flight, everything supplied has been delivered, in both directions |
| `TunnelDrain.DrainIsExact` | transport-core/src/proxy.rs:264-298 | from every reachable state with both ends up, some run that only reads frames empties both channels with both ends up if and only if no short REKEY_INIT look-alike is in flight to the client and an awaited ACK is next on the wire or can still be written with nothing in front of it |
| `TunnelDrain.OrderDoesNotMatter` | gateway/src/main.rs:653-664 | no order of reading frames makes a state drainable that was not, or spoils one that was |
| `TunnelDrain.RestIsComplete` | transport-core/src/proxy.rs:264-298 | however a session comes to rest, everything supplied at either end has been delivered at the other |
| `TunnelProofs.NoFrameIsRefused` | transport-core/src/protocol.rs:255-289 | in every reachable state the next frame in flight is read successfully: its receiver holds its key and has not seen its counter |
| `TunnelProofs.RekeyAgreement` | transport-core/src/steal.rs:232-289 | while the gateway is up, both ends are in the same epoch with the same key and identifier, or the client is exactly one epoch ahead on the key the gateway waits to adopt and its ACK is still on the wire |
| `TunnelProofs.RekeyOutcome` | transport-core/src/steal.rs:267-289 | in every reachable state in which the gateway waits for an ACK and has something to read, its next turn takes up the announced key, with both ends on one key and in one epoch, if and only if the ACK is next on the wire; otherwise the session ends on the old key, and either way nothing is delivered |
| `TunnelProofs.InitRoundTrip` | transport-core/src/proxy.rs:267-277 | the client recovers from REKEY_INIT exactly the identifier and key the gateway put in |
| `TunnelProofs.EstablishedInv` | transport-core/src/proxy.rs:220-239 | two mirrored codecs that have exchanged CONNECT and OK satisfy the invariant every relay step keeps |
| `TunnelLimits.RekeyRound` | gateway/src/main.rs:653-661 | an undisturbed rekey takes a quiet session to a quiet session on the next identifier and touches no application bytes |
| `TunnelLimits.InitLookAlikeBreaksTunnel` | transport-core/src/proxy.rs:267-286 | for every chunk that passes for REKEY_INIT there is a run, clean but for it, that drops it and delivers what follows |
| `TunnelLimits.AckLookAlikeBreaksTunnel` | transport-core/src/steal.rs:273-287 | the same for every client chunk that passes for REKEY_ACK |
| `TunnelLimits.SafetyIsExact` | transport-core/src/proxy.rs:267-286 | over runs in which the gateway may start a rekey at any moment, allowing a chunk keeps all runs prefix-correct if and only if it does not pass for a rekey message of its direction |
| `TunnelPlain.SafetyWithoutRekey` | transport-core/src/proxy.rs:267-286 | over runs in which the gateway starts no rekey, with anything from the client's socket, a set of chunks from the target keeps all runs prefix-correct if and only if none of them passes for REKEY_INIT |
| `Handshake.AuthFrameRoundTrip` | transport-core/src/steal.rs:177-194 | the auth frame is 80 bytes and the gateway reads back its four fields and nothing of what follows |
| `Handshake.AuthFrameLayout` | transport-core/src/steal.rs:177-194 | the offsets of the four fields of the auth frame, on the way out and on the way in, and that 80 bytes are enough and necessary |
| `Handshake.AcceptsExactly` | transport-core/src/steal.rs:138-159 | the gateway accepts a client's frame if and only if the KDF gives one token for the client's shared secret with the client's and with the gateway's PSK |
| `Handshake.WrongPskIsRefused` | transport-core/src/steal.rs:157-159 | with differing PSKs and a KDF that does not collide on the two inputs, the session is refused |
| `Handshake.HandshakeMirrors` | transport-core/src/steal.rs:78-173 | for all secrets and prefixes, with one PSK and the matching server key, the gateway accepts, both sides hold the same session key, and their codecs read each other's streams in both directions |
| `Failover.SwitchPicksFirstHealthy` | transport-core/src/failover.rs:169-184 | a switch goes to the first endpoint in cyclic order that has not failed within 60 seconds; the one it leaves keeps its stamp and starts again from zero failures, and no other changes; it fails, changing nothing, exactly when all have failed lately, the current one included |
| `Failover.NewManager` | transport-core/src/failover.rs:99-114 | a manager starts on the first endpoint, with no endpoint cooling at any instant and no failures counted |
| `Failover.FailureExactly` | transport-core/src/failover.rs:133-144 | a failure stamps the current endpoint and counts against it; from the third on the manager moves to the next in line exactly if some other endpoint has not failed within 60 seconds, and nothing else changes |
| `Failover.ReportSuccess` | transport-core/src/failover.rs:147-152 | after a success the current endpoint is not cooling at any instant, and the manager's invariant holds |
| `Failover.SwitchesArePaidFor` | transport-core/src/failover.rs:133-144 | in every run three times the automatic switches plus the current failure count is at most the failures reported |
| `Failover.Run` | transport-core/src/failover.rs:133-184 | in every run the current index stays in range and every endpoint other than the current one has zero consecutive failures |
| `Failover.ReentryIsSpaced` | transport-core/src/failover.rs:72-77 | an endpoint left by an automatic switch stamped t becomes current again only through a switch stamped at least 60 seconds later, for any order of time stamps |
| `Failover.ReentryAfterSixtySeconds` | transport-core/src/failover.rs:157-184 | the interval is exact: an endpoint left at its third failure can be current again 60 seconds later |
| `FailoverObject.FailoverManager.TrySwitchLocked` | transport-core/src/failover.rs:169-184 | the search loop computes the specified switch and keeps the manager's invariant |
| `FailoverObject.FailoverManager.ReportFailure` | transport-core/src/failover.rs:133-144 | the current endpoint is charged and stamped, and a switch is tried from the third failure on |
| `FailoverObject.FailoverManager.ReportSuccess` | transport-core/src/failover.rs:147-152 | the current endpoint's count and stamp are cleared and nothing else changes |
| `Connections.HandleConnection` | transport-core/src/proxy.rs:137-240 | each outcome happens exactly when its phase is the first to fail; a failure is reported exactly when that is the connect phase and a success exactly when every phase succeeds and the reply is OK |
| `Connections.EndpointChangesExactlyWhen` | transport-core/src/proxy.rs:109-240 | over every sequence of connections the active endpoint changes exactly at a connect failure that is at least the third since the endpoint became active or last served (as a 32-bit count) while another endpoint is not cooling; handshake failures and refusals change nothing |
| `TokenBuckets.RateBound` | transport-core/src/rate_limiter.rs:23-83 | with serial calls, the amount granted in any stretch of T seconds is at most capacity plus rate times T + 1 |
| `TokenBuckets.HalfTheRateIsCredited` | transport-core/src/rate_limiter.rs:56-83 | the other side of the bound: in a serial run in which no refill fills the bucket, what is held and granted grows by at least half of the rate for the time that refills account for |
| `TokenBuckets.RefillExactly` | transport-core/src/rate_limiter.rs:56-83 | a refill does nothing within a second of the last one; otherwise it credits the rate for every whole second since, in 64 bits and up to the capacity, and stamps the bucket |
| `TokenBuckets.TryConsumeExactly` | transport-core/src/rate_limiter.rs:23-44 | a call is granted if and only if the refilled bucket holds its amount, and then takes exactly that |
| `BucketWaits.WaitsObeyRate` | transport-core/src/rate_limiter.rs:46-54 | what serial waits take in any stretch is at most capacity plus the rate for the stretch and one second |
| `TokenBuckets.PollOnce` | transport-core/src/rate_limiter.rs:46-54 | a poll for no more than the capacity succeeds exactly when the tokens are there or a refill is due, and a failed poll changes nothing |
| `TokenBuckets.TooMuchIsNeverGranted` | transport-core/src/rate_limiter.rs:28-31 | an amount over the capacity is never granted |
| `BucketObject.TokenBucket.TryConsume` | transport-core/src/rate_limiter.rs:23-44 | the stateful call is the specified refill and subtraction: tokens, stamp and answer are given in plain numbers |
| `BucketObject.TokenBucket.WaitForTokens` | transport-core/src/rate_limiter.rs:46-54 | a lone wait ends at once if the tokens are there and otherwise at the first poll a second or more after the last refill; it leaves a full bucket less the amount if a refill was due and the old tokens less the amount if not; a wait for more than the capacity never ends and takes nothing |
| `BucketThreads.TokensAreConserved` | gateway/src/main.rs:151-195 | for any number of threads interleaving locks, loads and weak compare-exchanges: tokens never underflow or exceed the capacity, initial plus refilled equals remaining plus granted, the lock is exclusive, and no grant exceeds the capacity |
| `BucketCalls.CallOutcome` | transport-core/src/rate_limiter.rs:27-43 | under every interleaving a call ends in one of two ways: refused in a state that does not hold its amount, taking nothing, or granted in a state that does, taking exactly it; a lost or spurious exchange ends nothing |
| `BucketCalls.RefillIsCredited` | transport-core/src/rate_limiter.rs:64-81 | a thread that found a refill due gets no further, under any interleaving, before it has credited that refill to the tokens that are there then |
| `BucketCalls.RefillFallsDue` | transport-core/src/rate_limiter.rs:56-62 | the holder of the lock owes a refill exactly if the last one is a second old, and for every whole second since |
| `BucketCalls.NothingElseMoves` | transport-core/src/rate_limiter.rs:23-83 | only a credit or the end of a granted call moves the tokens, and only the turn after a credit moves the stamp |
| `BucketCalls.LockComesFirst` | transport-core/src/rate_limiter.rs:56-62 | a thread waits while another has the lock, and no call tries for tokens before it has held the lock and looked whether a refill is due |
| `BucketThreads.SoloCallIsSerial` | transport-core/src/rate_limiter.rs:23-83 | a call that no other thread disturbs grants, refills and stamps exactly as the serial bucket does and leaves every other thread where it was |
| `BucketThreads.TimeIsCreditedOnce` | transport-core/src/rate_limiter.rs:56-83 | however threads interleave, all that was granted is at most the capacity plus the rate for the time that has passed |
| `BucketStretches.StretchBound` | transport-core/src/rate_limiter.rs:23-83 | under every interleaving, what is granted in any stretch of a run is at most the capacity, what refills may still bring for the time before the stretch (none, one or two bucketfuls, read off the state at its start), and the rate for its length |
| `BucketStretches.StretchBoundIsReached` | transport-core/src/rate_limiter.rs:56-83 | for every bucket with capacity no more than the rate some run grants three bucketfuls at one instant, so the bound cannot be improved and the serial bound does not carry over |
| `IpLimiter.EvictOldest` | gateway/src/main.rs:95-108 | an eviction removes exactly one fifth of the entries, rounded down, none with a first stamp later than a survivor's |
| `IpLimiter.IpRateLimiter.Check` | gateway/src/main.rs:89-119 | the check evicts only over the entry limit, answers by whether fewer than 20 of the stamps of the address are less than 60 seconds old, leaves exactly those, with the new one if it is let in, and keeps the table bounded |
| `IpLimiter.IpRateLimiter.CleanUp` | gateway/src/main.rs:122-130 | of every entry exactly the stamps less than 60 seconds old stay, in order, and an entry stays exactly if it has one |
| `IpLimiter.Retain` | gateway/src/main.rs:111-111 | exactly the stamps less than 60 seconds old are kept, in order |
| `IpLimiter.RecentExactly` | gateway/src/main.rs:111-111 | pruning keeps the stamps at exactly the places where now less the stamp is under 60 000 000 000 nanoseconds, in order, so as many as there are such places |
| `IpLimiterRuns.AnswersFollowLog` | gateway/src/main.rs:89-119 | in every run with a monotone clock, evictions and clean-ups included, an address is let in exactly when the check itself evicts it or fewer than 20 of its connections since it was last evicted are under 60 seconds old |
| `IpLimiterRuns.SlidingWindowIsExact` | gateway/src/main.rs:110-118 | while an address is not evicted, the check that is asked included, the limiter is an exact sliding window over all the connections it let in |
| `IpLimiterRuns.NoWindowOverflows` | gateway/src/main.rs:110-118 | no 60-second window holds more than 20 accepted connections of an address that is not evicted |
| `IpLimiterRuns.EvictionsBoundWindow` | gateway/src/main.rs:96-118 | in any 60 seconds in which an address is evicted e times it is let in at most 20 times e + 1 times |
| `IpLimiterRuns.CleanUpIsInvisible` | gateway/src/main.rs:122-130 | where the run without clean-ups stays within the entry limit, it is a run with genuine evictions too, it lets in the same connections, and every further check, with whatever eviction it performs, is answered alike |
| `IpLimiterRuns.FitsExactly` | gateway/src/main.rs:96-96 | the run without clean-ups stays within the entry limit if and only if no more than 10 000 different addresses are ever checked |
| `IpLimiterLimits.EvictionForgets` | gateway/src/main.rs:96-118 | for every address there is a run with 10 001 visitors from its own block of addresses, with a monotone clock and only evictions that `check` performs, that lets it in 21 times within one window |
| `IpLimiterLimits.LimitHoldsExactly` | gateway/src/main.rs:89-119 | for every n, all runs with at most n different visitors keep every window of every address within 20 connections if and only if n is at most 10 000 |
| `IpLimiterLimits.CleanUpDecides` | gateway/src/main.rs:96-130 | for every address there is a run with 10 001 visitors, genuine with and without its clean-up, that refuses the address with the clean-up and lets it in without, whichever entries are then evicted |
| `IpLimiterLimits.CleanUpsUnnoticedExactly` | gateway/src/main.rs:96-130 | for every n, leaving out the clean-ups changes nothing about who is let in, in all runs with at most n different visitors, if and only if n is at most 10 000 |
| `IpLimiterRuns.TableStaysBounded` | gateway/src/main.rs:89-130 | in every run every entry holds 1 to 20 stamps and the table never exceeds 10 001 addresses |
| `Promo.QuotaUnderInterleaving` | gateway/src/promo.rs:93-141 | with at most N calls in flight and no replacement of the code, the use count never exceeds max_uses - 1 + N, and outside a commit it is the number of times the code occurs across all users' lists |
| `Promo.CallsAreHandled` | gateway/src/promo.rs:110-141 | every call comes in, waits while another commits, is refused exactly if the code does not validate at that moment, and otherwise counts and writes its list under one hold of the lock |
| `PromoLimits.BoundIsReached` | gateway/src/promo.rs:110-138 | for every quota and every N some run with at most N calls in flight counts exactly max_uses - 1 + N uses |
| `PromoLimits.CountWraps` | gateway/src/promo.rs:130-133 | wherever max_uses - 1 + N does not fit in 32 bits some run with at most N calls in flight wraps the count around to a negative number, so that condition of the bound is needed |
| `PromoObject.PromoManager.ValidateCode` | gateway/src/promo.rs:93-108 | refused as invalid exactly when unknown, as expired exactly when known and expired, as used up exactly when known, not expired and at its quota; otherwise the stored code is returned |
| `PromoObject.PromoManager.AddCode` | gateway/src/promo.rs:174-177 | the code is there as it was given, and no other code and no list changes |
| `PromoObject.PromoManager.UseCode` | gateway/src/promo.rs:110-141 | an uninterrupted use is the four steps of one call in a row of the interleaved machine: a refused one changes nothing, any other counts one use in 32 bits and adds the code to the end of the list of its user |

## Left out

- TLS, TCP, DNS, timeouts of idle connections, certificate loading and the CDN fallback: the channels are reliable FIFO byte streams, and an end may close at any moment.
- Rate limiting inside the relay loops: waiting for tokens only delays a turn of the loop, so the tunnel has no token state.
- A record that is half read when `select!` drops the read: one `read_frame` is one step on a complete record.
- SOCKS request parsing: the outcome of that phase is a parameter of `Connections.HandleConnection`.
- The internals of ChaCha20-Poly1305, X25519, HKDF and HMAC, and key generation: parameters with the laws named above.
- Delivery.AtMostOnceDelivery: the plaintext half assumes that no record of the run opens under a key of the receiver other than its own; `Delivery.RunKeepsInv` gives the at-most-once half without it.
- TokenBuckets.RateBound: is about serial calls; for interleaved calls it fails and `BucketStretches.StretchBound` takes its place.
- IpLimiterRuns.AnswersFollowLog: assumes that stamps do not go back in the order in which calls take the lock; `check` reads the clock before it locks (gateway/src/main.rs:90 and 93), so two calls that race may be recorded out of order. `IpLimiterRuns.SlidingWindowIsExact`, `IpLimiterRuns.NoWindowOverflows` and `IpLimiterRuns.CleanUpIsInvisible` assume the same; `IpLimiterRuns.TableStaysBounded` and `IpLimiterRuns.FitsExactly` do not.
- Promo.QuotaUnderInterleaving: the tally assumes that no call is dropped between the count and the list; `use_code` awaits in between (gateway/src/promo.rs:135), and a call cancelled there leaves a use counted that no list shows.
- BucketObject.TokenBucket.WaitForTokens: the promise of an end is made for polls at which the 64-bit refill arithmetic does not wrap.
- The compare-exchange loops of `TokenBucket` appear in `BucketThreads`; the class has one caller, for which they succeed at once.
- `update_limits`: stores its three values one by one, so no capacity bound is meant while it is under way.
- `last_switch_unix_ms`, `is_in_cooldown` by host name and the other status queries of the failover manager.
- Promo tokens and their signatures: only the codes, the counts and the users' lists are modelled.
- `KeyStore`, JWT and HMAC key management, SNI choice, metrics, the FFI layer, JSON configuration and the user interfaces.
