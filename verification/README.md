# NobleChat: a verified model

This project models the parts of NobleChat whose correctness is hardest to see from any single function, and
proves properties of them for all inputs, all runs or all reachable states. Each module follows one source file or
one protocol:

- **The onion packet.** `Bytes`, `Group`, `Primitives`, `SphinxKeys`, `SphinxHeader`, `Lioness`, `SphinxPacket` and
  `SphinxRoute` build and peel Sphinx packets byte by byte; `SphinxLaws` says from the primitives alone which packets a
  node accepts and what they become. Hashes, the MAC, the ChaCha20 keystream (section 2.4 of
  RFC 8439) and point encoding (section 4 of RFC 9496) are functions constrained only by output lengths, the keystream
  prefix property and decode-after-encode; the group is Z_L with L prime, so the blinding algebra is proved, down to
  Euclid's lemma. `SuiteExists`, `E2EExists`, `CipherExists` and `CodecExists` show that all such assumptions are
  consistent.
- **End to end.** `Wire`, `Protocol`, `Directory`, `Client` and `Router` compose the packet with framing, the hybrid
  envelope, the directory and the in-process router, up to `Client.EndToEnd` and `Router.SendThrough`.
- **The fleet.** `Replay` is the two-epoch guard against the ideal set that forgets nothing; `Fleet` is a step model of
  nodes, guards and packets that the network may reorder, lose and duplicate, among any packets anybody makes up;
  `FleetDelivery` joins it to the clients.
- **Throttles.** `Lockout` is proved against a specification that reads only the list of all calls; `RateLimiter`
  bounds what whole runs let through, and says exactly which requests pass.
- **Key pinning.** `Fingerprint` and `Pins` prove that the pins are a function of what was observed, and what that
  function means for every card that is sent and every sender that is believed.
- **Storage protocols.** `Quota`, `Devices` (with `DeviceCap`, `DeviceAnswer` and `DeviceLaws`), `Files` and `Mailbox`
  are step models of transactions, locks, crashes and concurrent deletes. Row locks, advisory locks and single statements are atomic steps; everything else may interleave.
- **Two smaller pieces.** `ChunkCodec` is the chunked attachment format; `Words` and `RandomIndex` the rejection
  sampling behind path choice.

Operations that update variables, fields or buffers in the source are methods or classes here, each proved against a
function of its inputs or its old state; the theorems are lemmas about those functions and invariants over runs.

## Where the code differs from its comments

The model follows the code. Each of these is a lemma:

- The replay guard promises one epoch, not about two (`Replay.WindowIsExact`, `Replay.OneEpochOnly`).
- Idle-bucket sweeps are invisible, and the window bound holds, only if an idle bucket refills before it is swept; every
  limiter in use meets this (`RateLimiter.SweepLaw`, `WindowLaw`, `ServerLimitsHold`).
- The lockout's 20-step clamp is invisible only if 20 doublings reach the maximum delay (`Lockout.ClampInvisible`).
- The one-hour age guard of the orphan sweep does not cover an upload that rests for an hour: the row query comes before
  the cutoff is taken, and the guard must cover both delays (`Files.GuardIsExact`, `Files.HourIsNotEnough`). With the
  30-minute request timeout of `apps/server/server.js:870` it leaves 30 minutes for the row to commit and for the query.
- The device cap rests on the account row being there when the lock step runs, and can be exceeded by exactly the number
  of registrations for which it was not (`DeviceCap.CapIsExact`, `DeviceCap.CapIsReached`).
- The comment "nobody else can add or remove this exact row" does not hold against single-statement deletes, so "not new"
  can be wrong (`DeviceAnswer.AnswerIsExact`).
- The mailbox cap can be exceeded by overlapping pushes, by exactly one less than their number (`Mailbox.BoundIsReached`).
- A pin under the handle "__proto__" is not saved, because assigning that key of an object literal sets its prototype
  (`Pins.SaveLoad`, `Pins.PrototypeKeyForgets`).
- A header is read as final at the first hop whose next id is the reserved marker (`SphinxRoute.RouteLaw`).

## Model

| member | source | states |
|---|---|---|
| Primitives.BytesToNumberLE | packages/sphinx/src/sphinx.js:44-48 | the descending loop computes the little-endian value of any byte string |
| SphinxKeys.BlindingFactor | packages/sphinx/src/sphinx.js:64-68 | every blinding factor lies in 1..L-1 |
| Group.NoZeroDivisor | packages/sphinx/src/sphinx.js:41-43 | Euclid's lemma for the prime L, proved by descent: the reason no product of scalars vanishes modulo L |
| SphinxKeys.AccInRange | packages/sphinx/src/sphinx.js:132-147 | the sender's running scalar is in 1..L-1 at every hop of every path, so no multiplication is refused |
| SphinxKeys.NodeAgrees | packages/sphinx/src/sphinx.js:216-250 | at every hop the node's secret times the received alpha is the sender's shared secret, and the re-blinded alpha is the sender's next alpha |
| SphinxKeys.ComputeSharedSecrets | packages/sphinx/src/sphinx.js:132-147 | the loop returns the chain of alphas and secrets, and throws exactly when some public key does not decode |
| SphinxLaws.ChainLaw | packages/sphinx/src/sphinx.js:132-147 | link by link: the first alpha is the sender's scalar times the base point, each secret the hop's key times the scalar behind its alpha, each next alpha the last one times the scalar hashed from the pair |
| SphinxLaws.BlindingLaw | packages/sphinx/src/sphinx.js:64-68 | a blinding factor is the little-endian number of sha512("blind", alpha, secret) modulo L, and 1 where that is 0 |
| SphinxHeader.FillerTail | packages/sphinx/src/sphinx.js:150-179 | the alignment invariant: beta of hop i always ends with the filler of 2*i*K bytes |
| SphinxHeader.NextBlockTail | packages/sphinx/src/sphinx.js:172-177 | the 2K bytes the sender cuts off the next block are exactly the keystream the node will put there |
| SphinxHeader.HopUnwraps | packages/sphinx/src/sphinx.js:228-233 | a forwarding hop reads the next id, the next MAC and, byte for byte, the block the sender MACed for the next hop |
| SphinxHeader.ExitUnwraps | packages/sphinx/src/sphinx.js:162-170 | the last hop of any path of 1 to 5 finds the exit marker, and behind it as many zeros as the header has room for |
| SphinxHeader.BuildFiller | packages/sphinx/src/sphinx.js:153-160 | the loop over the hops grows exactly the specified filler string |
| SphinxHeader.CreateHeader | packages/sphinx/src/sphinx.js:150-179 | the filler loop and the backwards wrapping produce the first hop's block and MAC of the recursive specification |
| Lioness.OpenInvertsSeal | packages/sphinx/src/sphinx.js:95-114 | for every key and every block of at least 32 bytes, decryption and encryption invert each other both ways |
| Lioness.LionessEncrypt | packages/sphinx/src/sphinx.js:95-104 | the four reassignments of L and R compute the four-round composition |
| Lioness.LionessDecrypt | packages/sphinx/src/sphinx.js:105-114 | the four reassignments in reverse order compute the inverse composition |
| SphinxLaws.SealLaw | packages/sphinx/src/sphinx.js:95-104 | a sealed block is two keystreams and two MACs applied alternately to the halves, each under its own labelled hash of the secret |
| SphinxLaws.OpenLaw | packages/sphinx/src/sphinx.js:105-114 | opening any block gives the halves that those four rounds lead back to it |
| SphinxPacket.OnionEncrypt | packages/sphinx/src/sphinx.js:186-196 | refuses exactly the payloads over 8192 bytes; otherwise zero-pads and seals from the exit outwards |
| SphinxPacket.Route.ConstantSize | packages/sphinx/src/sphinx.js:26-35 | alpha, beta, gamma and payload have the same sizes at every hop of every path length |
| SphinxPacket.Route.HopPeels | packages/sphinx/src/sphinx.js:216-250 | hop i of any route: the MAC verifies, the id read is the one the sender put there, and the packet forwarded is exactly the sender's packet for hop i+1 (or the payload is returned at the marker) |
| SphinxLaws.PeelLaw | packages/sphinx/src/sphinx.js:216-226 | any packet whatsoever is accepted if and only if alpha is a point, gamma is the first 16 bytes of HMAC-SHA512 over beta under sha256("mu" and the shared point), and the payload has at least 32 bytes |
| SphinxLaws.PeeledLaw | packages/sphinx/src/sphinx.js:227-250 | what any accepted packet becomes, from the primitives alone: final exactly at the decrypted marker; otherwise next id, MAC and block are cut from the decrypted header, alpha is multiplied by the scalar hashed from it and the secret, and the payload loses one layer |
| SphinxRoute.CreatePacket | packages/sphinx/src/sphinx.js:203-209 | throws exactly on an empty or over-long path, an undecodable key or an oversized payload; otherwise yields the specified packet |
| SphinxRoute.CreatedStartsRoute | packages/sphinx/src/sphinx.js:203-209 | for a path of real nodes, `createPacket` yields the first packet of the route |
| SphinxRoute.Journey | packages/sphinx/src/sphinx.js:216-250 | from any hop and with any hop limit, the packet visits the chosen nodes in order up to the first marker |
| SphinxRoute.RouteLaw | packages/sphinx/src/sphinx.js:216-250 | the packet visits precisely its path and hands the padded payload to the last node if and only if no id after the first equals FINAL_MARKER |
| Bytes.XorBytes | packages/sphinx/src/sphinx.js:69-74 | the loop computes the pointwise exclusive or, cut to the shorter operand |
| Bytes.EqBytes | packages/sphinx/src/sphinx.js:75-80 | the accumulated difference is zero exactly when the arrays are equal |
| Bytes.ConcatBytes | packages/crypto/src/util.js:42-52 | copying at an advancing offset into one buffer yields the concatenation of all parts |
| Wire.Pack | packages/protocol/src/wire.js:4-14 | throws exactly when a field exceeds 65535 bytes; otherwise the framing of the fields |
| Wire.Unpack | packages/protocol/src/wire.js:16-28 | the offset walk reads what the recursive parser reads, and throws exactly where that fails |
| Wire.ParseExact | packages/protocol/src/wire.js:16-28 | `unpack` yields these fields if and only if the buffer begins with the framing of exactly these fields |
| Wire.RoundTrip | packages/protocol/src/wire.js:4-28 | `unpack` of `pack(fields)` followed by any tail gives the fields back |
| Wire.FrameLayout | packages/protocol/src/wire.js:9-11 | on the wire a field follows its length, high byte first |
| Protocol.KemAgrees | packages/crypto/src/hybrid.js:33-49 | sender and recipient of the hybrid exchange derive the same key |
| Protocol.EnvelopeSize | packages/protocol/src/protocol.js:49-56 | sealing succeeds exactly up to 62115 content bytes and adds exactly 4546 |
| Protocol.SealedOpens | packages/protocol/src/protocol.js:49-72 | the recipient opens every sealed envelope to its content, and it verifies under the sender's bundle |
| Protocol.BelievedIff | packages/protocol/src/protocol.js:61-72 | for any bytes that open and any bundle: `verify` answers true if and only if both signatures pass over the hash of the label, the opener's own two public keys and the content |
| Protocol.OpensIff | packages/protocol/src/protocol.js:61-72 | exactly which bytes open, and to what: three fields, an AEAD under the derived key and nonce, version byte 1, and three fields inside |
| Protocol.SealedLayout | packages/protocol/src/protocol.js:49-56 | the bytes of every sealed envelope, from the primitives: whose keys, salt, nonce, transcript and signatures go where |
| Protocol.InnerLayout | packages/protocol/src/protocol.js:75-77 | mailbox first, envelope second, each behind its length |
| Protocol.InnerSurvivesPadding | packages/protocol/src/protocol.js:75-81 | any bytes after the inner payload leave the mailbox and envelope the provider reads unchanged |
| Protocol.InnerSize | packages/protocol/src/protocol.js:75-77 | packing the inner payload succeeds exactly up to 65535 envelope bytes and adds 20 |
| Directory.BuildIndex | packages/net/src/directory.js:32-35 | the two loops build the index in which a later node replaces an earlier one with the same id |
| Directory.IndexHoldsLast | packages/net/src/directory.js:32-35 | under every id the index holds the last node that has it, in whatever order ids repeat |
| Directory.IndexExact | packages/net/src/directory.js:40-40 | with distinct ids `lookup` finds every node under its own id and nothing else |
| Directory.PickedRoute | packages/net/src/directory.js:44-50 | every path `pickPath` can return is a valid route through running nodes that ends at the named provider |
| Client.SendSize | packages/net/src/client.js:60-78 | `buildOutgoing` accepts encoded content exactly up to 3626 bytes, `buildInner` exactly up to 60989 |
| Client.Received | packages/net/src/client.js:74-86 | whatever follows the inner bytes, the recipient's mailbox and envelope are read from them, and the envelope opens to the content and verifies |
| Client.Carried | packages/net/src/client.js:60-66 | a packet for a picked path is carried along exactly that path and leaves the padded inner bytes at the provider |
| Client.EndToEnd | packages/net/src/client.js:60-86 | any content within the limit, over any picked path: delivered at the recipient's provider, read as the same mailbox and envelope as on the unpadded route, opened to the content, verified as the sender's |
| Client.RouteFollowsDraws | packages/net/src/client.js:60-66 | the packet built visits, at every layer, a given node if and only if that layer's first accepted draw is one of that node's, and ends at the recipient's provider |
| Client.PathIsPicked | packages/net/src/client.js:60-66 | `pickPath` returns the ids and public keys of the picked nodes, in order, and the packet is handed to the first of them |
| Client.CardIs | packages/net/src/client.js:11-23 | a card holds the provider id, the public halves of the identity's keys, and the first 16 bytes of their hash as the mailbox |
| Client.IncomingIs | packages/net/src/client.js:80-86 | an envelope comes in exactly if it opens and its content decodes; it is believed exactly if both signatures over this recipient and this content pass |
| Words.WordOneToOne | packages/crypto/src/util.js:36-37 | four random bytes and the numbers 0..2^32-1 correspond one to one |
| Words.HighByteFirst | apps/web/src/main.js:950-951 | the 32-bit chunk size is written high byte first |
| RandomIndex.Pick | packages/crypto/src/util.js:31-40 | the rejection loop returns the first draw below the limit, modulo n, and 0 without drawing when n is at most 1 |
| RandomIndex.NoModuloBias | packages/crypto/src/util.js:33-39 | for every n from 2 to 2^32 each index below n has exactly the same number of accepted draws, and more than half of all draws are accepted |
| RandomIndex.AnswersUpTo32Bits | packages/crypto/src/util.js:33-38 | some draw is accepted if and only if n is at most 2^32; beyond that the loop cannot end |
| RandomIndex.EqualDraws | packages/crypto/src/util.js:33-39 | the four-byte draws that are accepted and select an index are exactly those below the limit with that residue, and there are 2^32 / n of them for every index |
| Directory.PickLayers | packages/net/src/directory.js:44-45 | the index of every layer is what its own first accepted draw selects; it fails exactly when some layer has none |
| Directory.EveryNodeEquallyLikely | packages/net/src/directory.js:44-45 | every node of a row is what a first accepted draw selects on exactly 2^32 / n four-byte draws, and on no others |
| Directory.PathFollowsDraws | packages/net/src/directory.js:44-50 | position l of the path is a given node of layer l if and only if that layer's first accepted draw is one of that node's draws, rows of one node included, and the last position is the provider |
| Directory.PickedDistinct | packages/net/src/directory.js:44-50 | a path to a provider repeats no node id |
| Replay.ReplayGuard.Seen | packages/net/src/replay.js:17-23 | the answer is the one the whole history of the object's calls determines, so every law about runs is a law about the object |
| Replay.ReplayGuard.Size | packages/net/src/replay.js:24-24 | the number of distinct tags remembered, and never more than two epochs of them |
| Replay.Bounded | packages/net/src/replay.js:17-24 | in every run the two sets stay disjoint and each within one epoch of tags |
| Replay.NeverFalselyReplayed | packages/net/src/replay.js:17-23 | a tag reported as replayed was accepted before |
| Replay.RepeatsAreCaught | packages/net/src/replay.js:15-23 | against the unbounded set: a repeat is accepted only if epochMs has passed or maxPerEpoch other tags were accepted since |
| Replay.WindowIsExact | packages/net/src/replay.js:15-23 | every repeat within a time and a number of other tags is caught in every run if and only if the time is at most epochMs and the number at most maxPerEpoch |
| Replay.OneEpochOnly | packages/net/src/replay.js:7-16 | for every epoch length the documented two epochs are not guaranteed, nor one epoch and a millisecond; one epoch is |
| Fleet.ArriveCases | apps/node/node.js:47-60 | an honest packet at its node is dropped by the guard, delivered, or forwarded; it is never rejected |
| Fleet.OnlyItsPath | apps/node/node.js:46-60 | whatever is reordered, lost or duplicated, a packet is only ever addressed to its chosen path and delivered at its chosen provider with its whole payload |
| Fleet.AtMostOncePerWindow | apps/node/node.js:46-56 | two deliveries of one packet have the provider's guard window between them |
| Fleet.UndroppedMovesOn | apps/node/node.js:47-59 | a packet the guard lets through is delivered if and only if it is at its last hop, else it flies on, one layer smaller, to the next chosen node |
| Fleet.ArrivalsTerminate | apps/node/node.js:47-59 | every arrival strictly lowers the peels still ahead of all packets in flight together |
| Fleet.StrayKeepsInv | apps/node/node.js:47-60 | any packet anybody makes up, under any tag, can only fill a guard's log: no send, flight or delivery changes |
| Fleet.SomeRunDelivers | apps/node/node.js:47-60 | every honest packet whose route repeats no node is delivered in some run, one step per hop |
| FleetDelivery.BuiltIsHonest | packages/net/src/client.js:60-66 | every packet `buildOutgoing` makes within the limit may enter the fleet at the node it names, as the first packet of its route |
| FleetDelivery.ReachesProvider | apps/node/node.js:54-56 | in every run a delivery of a client's packet is at the recipient's provider and carries the padded inner bytes |
| FleetDelivery.DeliveredIsTheMessage | apps/node/node.js:47-60 | in every run of the fleet, every delivery of a client's packet is read as the recipient's mailbox and opens to the content, verified as the sender's |
| FleetDelivery.SomeRunDeliversIt | apps/node/node.js:47-60 | to a recipient at a provider, whatever a client sends within the limit is delivered in some run |
| FleetDelivery.SomebodyCanSend | packages/net/src/directory.js:20-35 | the hypotheses of the end-to-end theorems can be met: a concrete network and sender |
| Router.Mixnet.Deliver | packages/net/src/router.js:49-70 | the loop over subscribers with its caught exceptions has exactly the specified effect on calls, queues and counters |
| Router.DeliveredOnce | packages/net/src/router.js:49-70 | an accepted envelope is offered to every subscriber in order and then, exactly if no call took it, appended to its own mailbox's queue; nothing else is touched |
| Router.Mixnet.Subscribe | packages/net/src/router.js:38-43 | the callback joins the set once and the queue is drained for it; no other subscriber or mailbox changes. The flush is a later step |
| Router.Mixnet.Flush | packages/net/src/router.js:43-45 | each envelope is handed over in order, answers ignored, stopping at a throw |
| Router.FlushKeepsAll | packages/net/src/router.js:43-45 | the flush hands over every queued envelope in order if and only if no call before the last one throws |
| Router.FlushStops | packages/net/src/router.js:43-45 | the flush stops right after the first call that throws and nowhere else |
| Router.Mixnet.Unsubscribe | packages/net/src/router.js:46-46 | the callback is gone, the others of its mailbox stay in their order, no other mailbox changes |
| Router.Mixnet.Inject | packages/net/src/router.js:73-89 | unknown nodes and failed peels change nothing; an exit delivers; anything else is counted and scheduled to the next node |
| Router.UnacceptedIsDropped | packages/net/src/router.js:73-80 | a packet for no node, with no point, a wrong MAC or a short payload changes nothing and goes nowhere |
| Router.HopOnAnyBooks | packages/net/src/router.js:73-89 | one hop of an honest packet does the same whatever the router's state: counted and passed on, or delivered at its last hop |
| Router.ArrivesWhateverElse | packages/net/src/router.js:49-89 | whatever happens between the hops, a packet of `buildOutgoing` changes only a counter until its last hop, and there the recipient's own mailbox gets one envelope that opens to the content and verifies |
| Router.Mixnet.Travel | packages/net/src/router.js:73-89 | a journey that nothing interrupts has exactly the effect of the one delivery its walk ends in, or none |
| Router.SendThrough | packages/net/src/router.js:49-89 | from `buildOutgoing` through the running router without interruption: exactly the recipient's mailbox is offered or queued one envelope, which opens to the content and verifies as the sender's |
| Mailbox.EveryEnvelopeInOnePlace | apps/server/store.js:267-284 | in every interleaving each accepted envelope is in exactly one place: live, on its way, queued, refused, failed, handed over, or deleted; never live and queued |
| Mailbox.PushEvictsNothing | apps/server/store.js:268-277 | only a drain or a delete takes anything out of a queue |
| Mailbox.DrainSize | apps/server/store.js:279-284 | a drain takes exactly min(limit, size) rows of its mailbox and none of any other |
| Mailbox.DrainOrder | apps/server/store.js:279-284 | what a drain returns is in id order and no smaller id of that mailbox stays behind |
| Mailbox.HandedInOrder | apps/server/store.js:279-284 | over a whole run and across drains, an envelope whose insert finished before another's began is never handed over after it |
| Mailbox.QueueBounded | apps/server/store.js:274-277 | with at most c overlapping pushes of a mailbox its queue holds at most maxPerMailbox + c - 1 |
| Mailbox.BoundIsReached | apps/server/store.js:274-277 | for every cap and every c a run reaches that bound, because count and insert are two statements |
| Mailbox.PushAlone | apps/server/store.js:273-278 | with nothing in between, a push that finds maxPerMailbox rows of its own mailbox is refused, and any other is the last row of the queue; nothing else changes |
| Mailbox.DrainLaw | apps/server/store.js:279-284 | row by row: a drain returns the min(limit, size) oldest rows of its mailbox in id order, and keeps every other row |
| Mailbox.DeleteLaw | apps/server/store.js:285-286 | row by row: a delete takes exactly the rows named |
| Lockout.FailureMap.RetryAfter | apps/server/util.js:236-242 | unless the key was evicted, the answer is the wait computed from the whole list of fail and succeed calls |
| Lockout.FailureMap.Failure | apps/server/util.js:243-253 | the answer agrees with the whole history; the map never exceeds maxEntries; a live record is dropped only when at least maxEntries live keys failed after it last did |
| Lockout.FailureMap.Success | apps/server/util.js:256-256 | the history of the key is cleared and no other key changes |
| Lockout.FailureMap.PruneForgotten | apps/server/util.js:231-231 | exactly the live records stay, wherever they stand in the map |
| Lockout.FailureMap.Prune | apps/server/util.js:230-233 | what is left is live and within the cap; every live record dropped was overtaken by maxEntries live keys that failed after it; with no more live records than the cap, none is dropped |
| Lockout.CountsSincePause | apps/server/util.js:243-253 | from the list of calls alone: the failures that count are those since the last success, from the first on that follows a pause of forgetAfterMs and maxDelayMs, if each came less than forgetAfterMs after the one before |
| Lockout.SteadyCounts | apps/server/util.js:243-253 | n failures since the last success, each less than forgetAfterMs after the one before, count n, whatever other keys do in between |
| Lockout.NextCount | apps/server/util.js:243-253 | the next failure adds one if the last is less than forgetAfterMs ago or its lock is still running, and is the first again otherwise |
| Lockout.WaitLaw | apps/server/util.js:225-242 | after n counted failures the wait is 0 below the threshold and otherwise the least number of seconds until min(maxDelayMs, baseDelayMs*2^min(n-threshold, 20)) after the last one |
| Lockout.DelayMonotone | apps/server/util.js:225-229 | more failures never mean a shorter wait |
| Lockout.ClampInvisible | apps/server/util.js:227-228 | the 20-step clamp changes no delay if and only if baseDelayMs is 0 or baseDelayMs*2^20 is at least maxDelayMs |
| Lockout.TotalIsDoublingSum | apps/server/util.js:225-229 | under that condition the total delay is the sum of min(maxDelayMs, baseDelayMs*2^(k-threshold)) |
| Lockout.GuessingTakesTime | apps/server/util.js:217-253 | whoever respects every wait still pays all of them: n failures that count together span at least the sum of the delays |
| RateLimiter.Limiter.Allow | apps/server/util.js:313-318 | the request passes exactly when the refilled level covers its cost, which is then spent |
| RateLimiter.Limiter.SweepIdle | apps/server/util.js:312-312 | exactly the buckets idle for more than ten minutes go |
| RateLimiter.SweepLaw | apps/server/util.js:310-319 | the sweep changes no answer in any run if and only if refillPerSec*600001 is at least 1000*capacity |
| RateLimiter.WindowLaw | apps/server/util.js:310-319 | the accepted cost in every window of every run is at most capacity plus refill times its length, under exactly the same condition |
| RateLimiter.PassesIff | apps/server/util.js:310-319 | under that condition a request passes if and only if every span of the run that ends in it has room for it, going by the earlier answers alone: nothing is refused that the window bound allows |
| RateLimiter.EventLevels | apps/server/util.js:313-318 | a request that passes costs its key exactly its cost, a refused one costs nothing, no other key is touched, and under that condition neither does the sweep change any level |
| RateLimiter.ReturnVisitAnswers | apps/server/util.js:312-317 | outside that condition, a run in which the sweep doubles what a key may spend |
| RateLimiter.ServerLimitsHold | apps/server/server.js:238-329 | both laws hold for every limiter the server creates |
| Fingerprint.PreimageExact | packages/crypto/src/util.js:98-101 | the text that is hashed is the same for two card sets if and only if they hold the same keys with the same multiplicities, in any order |
| Fingerprint.FingerprintIs | packages/crypto/src/util.js:98-101 | the fingerprint is the digest of the keys' texts, sorted and joined with bars: of any ordered arrangement of exactly those texts |
| Fingerprint.FingerprintExact | packages/crypto/src/util.js:98-101 | two key sets have the same fingerprint if and only if they hold the same keys with the same multiplicities, where the digest tells their two texts apart |
| Pins.CardsFingerprintExact | apps/web/src/main.js:502-513 | what the pins record tells two card sets apart exactly by all the signing keys in them, empty sets included |
| Pins.MergeLaw | apps/web/src/pin-utils.js:32-39 | for every pair: no synced fingerprint changes nothing; a first one is recorded with its own fingerprint and flag; else the local fingerprint stays, trusted only if it was, both agree and the other side does not doubt it |
| Pins.PinsToObject | apps/web/src/pin-utils.js:20-24 | the loop stores every pin except one under the prototype key |
| Pins.SaveLoad | apps/web/src/pin-utils.js:8-24 | saving and loading gives all pins back if and only if none is stored under "__proto__" |
| Pins.TrustMeans | apps/web/src/main.js:502-546 | for every history: a pin is trusted with a fingerprint if and only if that was the first recorded, by sight or by a synced pin not flagged, or the last confirmed, and nothing since contradicts it |
| Pins.PrototypeKeyForgets | apps/web/src/pin-utils.js:20-24 | under the prototype key a changed fingerprint is trusted again after a restart |
| Pins.PinClient.CheckPin | apps/web/src/main.js:523-538 | first sight pins, a change un-trusts, everything else stays; the pins remain the function of the trace |
| Pins.PinClient.MarkVerified | apps/web/src/main.js:540-546 | only the trust flag of that handle changes, and only if it has a pin |
| Pins.PinClient.FetchBundle | apps/web/src/main.js:584-602 | succeeds exactly for an unblocked other handle with a non-empty answer, whose cards are then observed and put on record; a swapped key set leaves its pin untrusted |
| Pins.PinClient.RefreshSender | apps/web/src/main.js:697-713 | the cards fetched for a sender that failed to verify are observed and put on record; no pin becomes more trusted, and a swapped key set leaves its pin untrusted |
| Pins.PinClient.LoadContactsLocal | apps/web/src/main.js:421-431 | every stored entry is observed, in order, and put on record; no pin becomes more trusted |
| Pins.PinClient.MergeBlobPins | apps/web/src/main.js:486-491 | every synced pin is observed, in order; no local fingerprint changes and no trust is restored |
| Pins.PinClient.Restart | apps/web/src/main.js:513-514 | a restart is observed and keeps every pin but the prototype key's |
| Pins.PinClient.DeleteChat | apps/web/src/main.js:1194-1199 | the contact goes; the pin stays |
| Pins.PinClient.Block | apps/web/src/main.js:1206-1212 | the contact goes and the handle is blocked; the pin stays |
| Pins.PinClient.Emit | apps/web/src/main.js:872-879 | nothing is sent if any recipient is unverified; otherwise exactly every card on record, each vouched for by a trusted pin of its whole card set |
| Pins.PinClient.RefreshAll | apps/web/src/main.js:865-871 | every recipient is looked up in order, each usable answer is observed and put on record, and each swapped key set leaves its pin untrusted |
| Pins.PinClient.FanOut | apps/web/src/main.js:861-883 | after the refresh, nothing is sent exactly when some recipient is unverified, which an answer with other signing keys than those on record makes it; otherwise exactly every card on record is sent, each vouched for |
| Pins.PinClient.VouchedMeans | apps/web/src/main.js:861-883 | every card sent belongs to a set whose fingerprint was the first recorded for the peer or the one last confirmed, with nothing different observed since |
| Pins.PinClient.VerifySender | apps/web/src/main.js:697-713 | true exactly if some card on record verifies, before the refresh or after it; if one does before, nothing is looked up and nothing changes |
| Pins.PinClient.Attribute | apps/web/src/main.js:718-754 | for any claimed sender: dropped unless one of that sender's cards verifies the message and the sender is not blocked; shown without a warning only under a trusted pin on the very card set that verified it |
| Quota.QuotaHolds | apps/server/store.js:348-362 | in every interleaving of uploads, crashes and deletes no owner's committed bytes exceed the quota |
| Quota.RefusedOnlyIfOver | apps/server/store.js:352-354 | an upload is refused exactly when it does not fit at its own sum, and no other upload of that owner is past its lock then |
| Quota.UploadAlone | apps/server/store.js:348-362 | with nothing in between, an upload over quota leaves everything as it was and any other adds exactly its row |
| Quota.DeleteLaw | apps/server/store.js:127-131 | a delete takes exactly the rows named |
| Devices.MailboxesUnique | apps/server/store.js:31-71 | in every interleaving a device row belongs to an existing account and no mailbox key is in two rows |
| DeviceCap.CapLaw | apps/server/store.js:163-203 | in every interleaving an account gets past its cap by at most the number of its registrations open at once whose lock step found no account row |
| DeviceCap.CapIsReached | apps/server/store.js:173-180 | for every cap and every such number a run gets exactly that far |
| DeviceCap.CapIsExact | apps/server/store.js:173-180 | the cap holds in every run if and only if no lock step finds its account missing: FOR UPDATE on no row locks nothing |
| DeviceAnswer.AnswerIsExact | apps/server/store.js:182-195 | the returned isNew is right in every run if and only if every lock step finds its account and nobody deletes a row between its look-up and the commit |
| DeviceAnswer.NewMeansAdded | apps/server/store.js:182-195 | while every lock step finds its account, an answer "new" means a row is really added |
| DeviceAnswer.DeletedMeanwhile | apps/server/store.js:182-206 | a single-statement delete between look and write makes "not new" wrong |
| DeviceAnswer.RegisteredMeanwhile | apps/server/store.js:173-195 | a registration that locked nothing can answer "new" for a row already there |
| DeviceLaws.RegistrationAlone | apps/server/store.js:163-203 | with nothing in between, a registration stores exactly its row and answers whether it is new, unless the account is missing, the cap is reached by other devices, or its mailbox key is another device's: then nothing changes |
| Files.ReachableInv | apps/server/store.js:298-316 | under the timing condition every reachable state, crashes and concurrent prunes included, has the whole file of every non-legacy row |
| Files.GuardIsExact | apps/server/store.js:294-316 | the sweep is safe in all runs if and only if the age guard covers the longest rest of an upload plus the delay from the row query to the cutoff |
| Files.HourIsNotEnough | apps/server/store.js:294-304 | the one-hour guard protects uploads that rest up to an hour if and only if the cutoff is taken in the same millisecond as the row query |
| Files.TakesOnlyOrphans | apps/server/store.js:306-312 | under that condition a name the sweep unlinks has no row and can no longer get one |
| Files.TooSlowIsUnsafe | apps/server/store.js:302-312 | otherwise a run ends with a row whose file is gone |
| Files.FileStore.ReconcileOrphanFiles | apps/server/store.js:298-316 | run alone, one sweep leaves exactly the files with a row, the files younger than the cutoff and those it cannot read or unlink, and returns how many it removed |
| Files.FileStore.DeleteFilesWhere | apps/server/store.js:127-131 | the matching rows go, and their files unless an unlink fails, which is ignored; all other rows and files stay |
| Files.FileStore.StreamToFile | apps/server/util.js:83-103 | a failed stream leaves no file behind, or an unfinished one if that cannot be unlinked |
| Files.FileStore.Upload | apps/server/server.js:585-604 | 200 exactly when the row and its whole file are both there; every other status, each with its exact cause, leaves the table as it was, and the disk but for an orphan that cannot be unlinked |
| Files.UploadAlone | apps/server/store.js:298-316 | with nothing in between, an upload that commits adds its row and its whole file, and a discarded one leaves nothing |
| Files.SweepAlone | apps/server/store.js:298-316 | with nothing in between, a sweep looks at exactly the files without a row and takes exactly those older than the age guard |
| ChunkCodec.EncryptFileChunked | apps/web/src/main.js:948-966 | every write lands inside the preallocated buffer and together they fill exactly 5 + 28*chunks + size bytes |
| ChunkCodec.ChunksSize | apps/web/src/main.js:951-962 | each chunk costs an iv and a tag, for every size including 0 and exact multiples |
| ChunkCodec.DecryptChunked | apps/web/src/main.js:1015-1027 | on any bytes the offset loop ends and yields the chunks opened in order, failing where one does not open |
| ChunkCodec.RoundTrip | apps/web/src/main.js:945-1027 | every file comes back byte for byte |
| ChunkCodec.HeaderLayout | apps/web/src/main.js:948-952 | every encrypted file begins with version byte 1 and the chunk size 4194304, high byte first |
| ChunkCodec.EncodedLayout | apps/web/src/main.js:948-966 | chunk j of every file stands behind 5 bytes and j whole chunks: its own iv, then its slice of the file encrypted under that iv, and nothing after the last |
| ChunkCodec.DecodesIff | apps/web/src/main.js:1015-1027 | any bytes decode if and only if there are five, and every piece of the size they name opens under the iv it begins with |
| ChunkCodec.FitsUploadLimit | apps/server/server.js:39-40 | an encrypted file fits the default upload limit exactly up to 525333043 bytes, which covers MAX_FILE_BYTES |

## Left out

- Fleet.AtMostOncePerWindow: counts the flights of a send and their verbatim duplicates; a re-encoded copy is a stray, whose delivery is nobody's. The guard's tag is the alpha's bytes, where the source keeps its text. A node's crash, which empties its guard, is not a step.
- Client.EndToEnd: takes JSON encoding as a codec with decode(encode(c)) = c, which content with unpaired surrogates or undefined fields does not meet.
- Pins.PinClient.FanOut: takes the recipients as fixed for one call, so group edits that arrive during its awaits are not modelled; the copies to the user's own other devices go to cards that carry no pin.
- Pins.PinClient.Restart: starts with an empty contact list; the list saved on the device comes back through LoadContactsLocal.
- Files.GuardIsExact: treats a transaction whose COMMIT throws as rolled back, and file ids as never repeating.
- Quota.QuotaHolds: treats a transaction whose COMMIT throws as rolled back; a repeated file id, which the primary key refuses, is an abort.
- Mailbox.EveryEnvelopeInOnePlace: stops at "handed over": `subscribe` ignores what the callback answers for a flushed envelope.
- Router.Mixnet.Travel: runs the scheduled forwards in one go; what may come between them is `Router.ArrivesWhateverElse`.
- Router.SendThrough: rests on `Travel`, so nothing comes between its hops.
- Fingerprint.FingerprintExact: assumes of the digest only that it tells the two texts at hand apart; a digest of 64 characters cannot do so for all texts.
- Pins.PinClient.Attribute: covers the sender check, the block list and the warning mark of `onDeliver`, not the memory of seen message ids nor what the message then does.
- Pins.PinClient.DeleteChat: covers the contact and its pin, not the history, unread and mute entries.
- Pins.PinClient.Block: covers the contact, the block list and the pin, not the history, unread and mute entries.
- Files.FileStore.Upload: takes the outcome of the stream and of the save as parameters; the save itself is `Quota`.
- Files.FileStore.StreamToFile: takes the outcome of the stream as a parameter.
- Router.Mixnet.Deliver: callbacks do not subscribe or unsubscribe while they are being called.
- RandomIndex.Pick: takes a finite list of draws where the source draws until one is accepted.
- ChunkCodec.DecryptChunked: does not look at the version byte, as the source does not.
- Lockout.FailureMap.RetryAfter: natural-number milliseconds and a clock that does not run backwards, as for every module with a clock.
- RateLimiter.WindowLaw: real-valued tokens; floating-point rounding is not modelled.
- The internals of the cryptographic primitives, PBKDF2, scrypt, WebCrypto and base64; nothing here claims secrecy or unforgeability.
- HTTP routing, WebSocket plumbing, static files, TURN and WebRTC, the Nym sidecar, the service worker, the desktop and mobile shells and all rendering: input, output and user interface.
- `Quota`, `Devices`, `Files` and `Mailbox` are steps over a state value, not classes with one method per operation: every `await` of those operations is a point where other steps come in, which one method body cannot show. `Files.FileStore` has the file operations that also matter when nothing interferes.
- PostgreSQL beyond row locks, advisory locks, atomic statements, commit and rollback.
- The transport flags, connection counters, event log, formatters, `clientIp` and reaction toggles: correct, and much easier.
- Sessions, bans, settings and the encrypted contacts blob's own storage: single statements with no protocol between them.
- `serialize.js`, `buildCoverLoop`, `poissonDelay` and key generation: straight compositions of what is modelled, or sources of randomness.
