# sabiden in Dafny

sabiden is a SIP back-to-back user agent that bridges calls of the NTT NGN to extensions and
browsers. This project models the logic of its media path, of its call control and of its browser
client, and proves what that logic guarantees over whole runs.

Stateful code is modelled as classes with the fields of the source. Each class keeps a history of
what happened, and its `Valid` predicate says that the fields are functions of that history, defined
independently of the methods. The theorems are lemmas about histories. `Run...` methods take an
arbitrary schedule of steps, so their contracts speak of every interleaving at the locks and awaits
of the source.

| file | what it models |
|---|---|
| `Prelude.dfy` | machine integers, wrapping addition, big-endian fields, `Option` and `Result` |
| `RtpPacket.dfy` | the RTP wire codec (section 5.1 of RFC 3550) |
| `Dtmf.dfy` | telephone-event payloads and the DTMF packet sequence (RFC 4733) |
| `RtpEgress.dfy` | numbering, talkspurt marker, SSRC rotation, sender statistics, NTP/RTP anchor |
| `Reframing.dfy` | re-cutting decoded Opus audio of any frame length into 20 ms frames |
| `Transcoder.dfy` | the media task and the report task that share one egress, and the NGN-to-browser direction |
| `WebToNgn.dfy` | the browser-to-NGN direction under any pattern of failures |
| `RateLimiter.dfy` | the outbound limiter per address of record (section 20.33 of RFC 3261) |
| `CarrierRetry.dfy` | the Retry-After parser and the one-retry policy |
| `IceBuffering.dfy` | epoch-tagged ICE buffering in the browser client |
| `Intercom.dfy` | the doubly indexed registry of internal calls and its racy admission |
| `ForkCollector.dfy` | the first-answer-wins collector of a forked INVITE |
| `Bridge.dfy` | the two relay loops that learn peers from each other's traffic |
| `Routing.dfy` | routing rules: sort, scan, filter |
| `CallLog.dfy` | the ring buffer of the call history |

## Conventions

- Times are integer nanoseconds, and milliseconds in `CarrierRetry.dfy`. NTP time is one 32.32
  fixed-point number, so the report timestamp is exact where the source goes through `f64`.
- A clock reading is a parameter of the step that reads it. Readings may come in any order unless a
  lemma says otherwise.
- A network send is a step that succeeds or fails; what was sent is kept in a log (`wire`).
- 16-, 32- and 64-bit arithmetic wraps, saturates or truncates where the source does; products in
  `Dtmf.ClockUnits` and the arithmetic of `CarrierRetry.RandomJitterOffset` wrap as in a release build.
- The resampler is an unknown function of every frame it was ever given, which may fail; the mu-law
  table is an unknown function.

## Where code and comments disagree

- `src/call/carrier_retry.rs:56` promises that Retry-After is obeyed. The jitter can undercut it:
  `CarrierRetry.RetryAfterObeyedIff` gives the exact condition, `CarrierRetry.RetryAfterUndercut` a case.
- `src/call/intercom.rs:420-422` expects an overshoot of one or two calls. It is one less than the
  number of concurrent dialers, without limit: `Intercom.ReachableIff` gives exactly the loads that can
  occur, `Intercom.ReachBound` a schedule for the largest.
- `frontend/src/App.tsx:112-114` counts the race of a candidate overtaking its own offer as solved.
  Such a candidate carries the old epoch and is lost: `IceBuffering.OvertakingCandidateIsLost` is the
  case, `IceBuffering.OvertakingCandidate` and, for any candidate, `IceBuffering.DeliveredIff` the exact
  condition.
- `src/call/rate_limiter.rs:240-247` keeps a pending Retry-After deadline across an admission. None
  can be pending there: `RateLimiter.NothingPending`.
- `src/observability/call_log.rs:87` documents a duration only for answered calls. The code records
  it at the first end of any outcome: `CallLog.MissedCallHasDuration` is a case,
  `CallLog.DurationOnlyAnsweredIff` the exact condition.
- `src/call/transcoder.rs:1250-1252` lets 160 timestamp units stand for 20 ms of PCMU. Frames that are
  lost before they are numbered do not advance the timestamp, so later audio moves against the sample
  clock: `WebToNgn.UnknownPeerShifts` is a case, `WebToNgn.OnTimeIff` the exact condition.

## Model

| member | source | states |
|---|---|---|
| `RtpWire.ToBytes` | src/rtp/packet.rs:29-40 | The bytes are the plain encoding of the packet with its payload type cut to seven bits: byte 128, marker and payload type, sequence, timestamp and SSRC as big-endian numbers, then the payload. |
| `RtpWire.Parse` | src/rtp/packet.rs:43-94 | Never indexes out of range, and succeeds exactly on input that passes every length check. |
| `RtpWire.FromBytes` | src/rtp/packet.rs:43-94 | Succeeds exactly on the encodings of section 5.1 of RFC 3550, with any CSRC list, extension and padding, and returns the packet encoded. |
| `RtpWire.HeaderOnWire` | src/rtp/packet.rs:47-66 | In an encoding the version, padding and extension bits, the CSRC count, marker, payload type and the three big-endian numbers stand where section 5.1 of RFC 3550 puts them. |
| `RtpWire.PartsOnWire` | src/rtp/packet.rs:68-93 | Then follow the CSRC list, the extension with its count of 32-bit words, the payload, and padding that ends in its own length. |
| `RtpWire.EncodingIsAccepted` | src/rtp/packet.rs:43-94 | Every encoding with 0 to 15 CSRCs, an optional extension and 0 to 255 pad bytes is accepted and its fields and payload are recovered. |
| `RtpWire.AcceptedIsEncoding` | src/rtp/packet.rs:43-94 | Nothing else is accepted: whatever passes the parser's checks is an encoding of the packet returned. |
| `RtpWire.EncodingUnique` | src/rtp/packet.rs:43-94 | No byte string encodes two packets. |
| `RtpWire.NormalForm` | src/rtp/packet.rs:29-94 | The plain re-encoding of a parsed packet encodes that packet and no other. |
| `RtpWire.WriteThenParse` | src/rtp/packet.rs:29-94 | Writing and parsing returns the same packet exactly when the payload type is below 128. |
| `RtpWire.Normalise` | src/rtp/packet.rs:29-94 | Parsing, writing and parsing again equals parsing once. |
| `Dtmf.PayloadRoundTrip` | src/call/dtmf.rs:65-97 | Decoding inverts encoding exactly for volumes below 64. |
| `Dtmf.ClockUnitsExact` | src/call/dtmf.rs:219-224 | The 32-bit conversion gives 8 samples per millisecond, capped at 65535, exactly when the product does not overflow or overflows to at least 65 535 000. |
| `Dtmf.KeyDownPackets` | src/call/dtmf.rs:231-255 | The number of key-down packets is the ceiling of total over period. |
| `Dtmf.KeyDownLoop` | src/call/dtmf.rs:226-255 | The saturating loop ends, after exactly that many packets, each with its sequence number, marker and duration. |
| `Dtmf.AppendEndPackets` | src/call/dtmf.rs:257-275 | Exactly three end packets follow with consecutive numbers and the total duration. |
| `Dtmf.BuildDtmfPacketSequence` | src/call/dtmf.rs:209-278 | The whole press from its arguments: how many packets for a duration and a period in milliseconds, the duration and the bytes of every key-down and end event, numbers modulo 2^16, marker on the first only, constant timestamp and SSRC. |
| `Dtmf.PressShape` | src/call/dtmf.rs:231-275 | Durations grow strictly up to the total; the packets after it are identical end events. |
| `Dtmf.ReceiverRecovers` | src/call/dtmf.rs:65-97 | What a receiver parses from the bytes of any packet of the press is the intended event exactly when the volume is below 64. |
| `RtpEgress.Gap` | src/call/transcoder.rs:308-328 | The step of one ingress packet is 1 for a repeated number, the ingress distance modulo 2^16 exactly when that lies in 1..100, and 100 beyond. |
| `RtpEgress.RtpEgressState.constructor` | src/call/transcoder.rs:257-269 | A new egress starts at the given SSRC, number and timestamp with an empty history. |
| `RtpEgress.RtpEgressState.NoteIngressSeq` | src/call/transcoder.rs:308-335 | Keeps every field a function of the history: the number is start + packets issued + numbers skipped, modulo 2^16, and moves by the step less one. |
| `RtpEgress.RtpEgressState.Next` | src/call/transcoder.rs:342-347 | Hands out the number, timestamp and SSRC that the history before it calls for. |
| `RtpEgress.RtpEgressState.NextWithMarker` | src/call/transcoder.rs:400-409 | The same, with the marker set on the first packet and 30 ms or more after the one before. |
| `RtpEgress.Redraw` | src/call/transcoder.rs:443-450 | The redraw loop takes the first draw that differs from the old SSRC. |
| `RtpEgress.RtpEgressState.CheckAndRotateOnCollision` | src/call/transcoder.rs:439-452 | Rotates exactly on a collision, never ends on the colliding SSRC, and touches neither numbering nor statistics. |
| `RtpEgress.RtpEgressState.RecordSent` | src/call/transcoder.rs:463-469 | The packet and octet counters grow by one and by the octets up to 2^64 - 1; the anchor is the first recorded packet and stays. |
| `RtpEgress.RtpEgressState.BuildSr` | src/call/transcoder.rs:495-511 | A report is a function of the history: the counters modulo 2^32, the newest SSRC, and the anchor line, or the current timestamp while nothing is recorded. |
| `RtpEgress.MarkerMeaning` | src/call/transcoder.rs:400-405 | On a monotonic clock the marker is set exactly when no packet was issued in the last 30 ms. |
| `RtpEgress.StepIsGap` | src/call/transcoder.rs:308-347 | With one packet per noted ingress packet every egress step is the clamped ingress gap, for any ingress. |
| `RtpEgress.OffsetConstant` | src/call/transcoder.rs:308-347 | Egress minus ingress is one constant over the whole run, wraps included, exactly when every ingress step lies in 1..100. |
| `RtpEgress.AnchorFixed` | src/call/transcoder.rs:463-469 | Once set, the anchor survives every later send, skip and rotation. |
| `RtpEgress.ReportTimestampLine` | src/call/transcoder.rs:381-390 | The unreduced report timestamp never falls while the clock rises and lies within half a sample of the anchor line; a clock behind the anchor gives the anchor. |
| `Reframing.FramesRestore` | src/call/transcoder.rs:1025-1050 | Frames and tail restore the stream. |
| `Reframing.FramePosition` | src/call/transcoder.rs:1025-1050 | There is a frame for every 960 samples, and frame k is samples 960k to 960k + 959 of the stream. |
| `Reframing.FramesAppend` | src/call/transcoder.rs:1025-1050 | More input only appends frames, cut from the tail and the new samples. |
| `Reframing.PushesCutTheStream` | src/call/transcoder.rs:1025-1050 | The frames and the tail of a list of pushes are those of the uncut stream. |
| `Reframing.CutIndependence` | src/call/transcoder.rs:1025-1050 | Two ways of cutting one stream give the same frames and the same tail. |
| `Reframing.OpusToPcmuAccum.Push` | src/call/transcoder.rs:1025-1050 | Success drains and encodes every whole frame in order; failure loses exactly the frames up to the first one that cannot be encoded. |
| `Transcoder.EgressTask.Issue` | src/call/transcoder.rs:928-940 | The packet to be sent carries the number, timestamp and SSRC that the shared egress holds and its history calls for, and a marker after a pause of 30 ms. |
| `Transcoder.EgressTask.SendSucceeds` | src/call/transcoder.rs:944-947 | The packet is on the wire and not yet recorded. |
| `Transcoder.EgressTask.SendFails` | src/call/transcoder.rs:1276-1279 | A failed send is never recorded and drops the remaining chunks. |
| `Transcoder.EgressTask.RecordSent` | src/call/transcoder.rs:952-955 | Recording makes the egress log describe exactly the packets on the wire. |
| `Transcoder.EgressTask.Collide` | src/call/transcoder.rs:863-875 | The collision check of the receive arm leaves the log alone. |
| `Transcoder.EgressTask.TakeReport` | src/call/transcoder.rs:1361-1364 | A report taken at any moment is the one due at that moment, and truthful about the wire. |
| `Transcoder.EgressTask.Perform` | src/call/transcoder.rs:770-964 | One step of either task: the whole new state (phase, queue, wire, egress history), and the report with the wire length and phase at which it was taken. |
| `Transcoder.TruthfulLater` | src/call/transcoder.rs:463-511 | Later packets never falsify an earlier report. |
| `Transcoder.RunTasks` | src/call/transcoder.rs:770-964 | For every interleaving the wire, packet by packet, and the reports are those the schedule calls for, each report taken where its step stands; its counts are the packets and octets on the wire at that moment modulo 2^32 (for totals below 2^64), or lag by the one packet not yet recorded, and all share one anchor on the first packet's timestamp. |
| `Transcoder.RelayNgnToWeb` | src/call/transcoder.rs:880-961 | Over a whole call, whatever is dropped before numbering and whatever sends fail: the wire is, packet by packet, the frames whose send succeeded, each with its own number, timestamp, marker and payload; egress steps are the clamped ingress gaps, and the offset is constant exactly when all ingress steps lie in 1..100. |
| `Transcoder.SentInOrder` | src/call/transcoder.rs:944-961 | Of the packets numbered, exactly those whose send succeeds have a place on the wire, in order. |
| `Transcoder.RelayedInOrder` | src/call/transcoder.rs:880-927 | Of the packets received, exactly those transcoded for a known peer are numbered, in order. |
| `WebToNgn.ProgressInOrder` | src/call/transcoder.rs:1178-1292 | Whatever fails, frames are numbered at most once and in stream order, and leave in that order. |
| `WebToNgn.SendChunks` | src/call/transcoder.rs:1254-1292 | Chunks leave in order on the sample clock until a send fails, which uses one number and abandons the rest. |
| `WebToNgn.PushDecoded` | src/call/transcoder.rs:1025-1050 | A push drains exactly the frames of the uncut stream not drained yet, up to the first that cannot be encoded. |
| `WebToNgn.RelayWebToNgn` | src/call/transcoder.rs:1178-1292 | For any frame lengths, failed pushes, unknown peers and failed sends, every field of every packet: which frame of the uncut stream it carries, timestamp start + 160i, number start + i + the numbers that the ingress of the pushes so far skipped, modulo 2^16, the SSRC, payload type 0, and the marker from the clock readings. |
| `WebToNgn.HeaderBy` | src/call/transcoder.rs:1215-1262 | Packet i, numbered by push k, takes its number from the ingress of the pushes up to k and its clock from the reading of push k at that packet. |
| `WebToNgn.PositionKeptIff` | src/call/transcoder.rs:1254-1262 | A packet carries the stream position of its frame exactly when the frames lost before it without a number are a multiple of 2^27. |
| `WebToNgn.OnTimeIff` | src/call/transcoder.rs:1178-1292 | Read off the input: a packet numbered by push k carries the position of its frame exactly when every push before k kept its frames, for streams below 2^27 frames. |
| `WebToNgn.ShiftPersists` | src/call/transcoder.rs:1178-1292 | What is lost before push k shifts every later packet by as many frames, as long as no more is lost. |
| `WebToNgn.UnknownPeerShifts` | src/call/transcoder.rs:1243-1248 | One frame dropped because the peer is not known yet shifts every packet of a run that is otherwise without loss by one frame. |
| `WebToNgn.AllPassIff` | src/call/transcoder.rs:1178-1292 | All frames of the stream get numbers, or get onto the wire, exactly when every push keeps all of its own. |
| `WebToNgn.EveryFrameNumberedIff` | src/call/transcoder.rs:1178-1292 | Packet i is frame i for the whole stream exactly when no push fails, none that completes a frame meets an unknown peer, and no send but the last of a push fails. |
| `WebToNgn.WholeStreamSentIff` | src/call/transcoder.rs:1178-1292 | The wire is the whole stream, frame k at timestamp start + 160k modulo 2^32, exactly when every push keeps its frames and all sends succeed. |
| `RateLimiter.RoundUpSecs` | src/call/rate_limiter.rs:355-364 | A whole number of seconds, at least one, and less than a second above a positive duration. |
| `RateLimiter.AdmittedIff` | src/call/rate_limiter.rs:204-228 | A check is admitted exactly when the AOR is unknown, or spacing, the backoff step of the 5xx streak, and the Retry-After of every 5xx since the latest success or admission have passed. |
| `RateLimiter.AdmittedExactly` | src/call/rate_limiter.rs:204-228 | The same read off the single events: the latest admission or else the first failure, the number of 5xx since the latest success, and every Retry-After, in seconds, of a 5xx since the latest success or admission. |
| `RateLimiter.IntervalReported` | src/call/rate_limiter.rs:255-257 | An admission reports the time since that instant, or none for an unknown AOR. |
| `RateLimiter.NothingPending` | src/call/rate_limiter.rs:240-247 | When a request is admitted no Retry-After deadline is pending, so none is kept. |
| `RateLimiter.ExpectedAllowed` | src/call/rate_limiter.rs:239-263 | An admission moves the last instant, keeps the streak and leaves no deadline. |
| `RateLimiter.ExpectedFailed` | src/call/rate_limiter.rs:278-311 | A failure counts and sets a deadline only for 5xx, and only the first event of an AOR sets its last instant. |
| `RateLimiter.OtherStatusIgnored` | src/call/rate_limiter.rs:295-311 | A status outside 500..599 changes neither streak nor deadline, and nothing at all for a known AOR. |
| `RateLimiter.OutboundRateLimiter.CheckAndRecordAt` | src/call/rate_limiter.rs:189-264 | The verdict is the one that the AOR's own history demands, and the table stays right for every AOR. |
| `RateLimiter.OutboundRateLimiter.RecordFailureAt` | src/call/rate_limiter.rs:278-311 | The table stays exactly a function of each AOR's own history. |
| `RateLimiter.OutboundRateLimiter.RecordSuccess` | src/call/rate_limiter.rs:317-326 | The same for a success. |
| `RateLimiter.Run` | src/call/rate_limiter.rs:189-326 | Any sequence of calls gives a legal history for every AOR. |
| `RateLimiter.AllowsSpaced` | src/call/rate_limiter.rs:204-264 | Any two admissions of an AOR are at least the minimum interval apart. |
| `RateLimiter.BackoffHonoured` | src/call/rate_limiter.rs:204-217 | In every run an admission with n known 5xx failures in a row keeps the n-th configured backoff step (or the last) from every earlier admission. |
| `RateLimiter.WindowBound` | src/call/rate_limiter.rs:204-264 | A closed window of length L holds at most floor(L / interval) + 1 admissions. |
| `RateLimiter.RetryAfterHonoured` | src/call/rate_limiter.rs:297-311 | No admission falls before t + N seconds for a status in 500..599 with Retry-After N recorded at t, unless a success came between. |
| `RateLimiter.RetryPromise` | src/call/rate_limiter.rs:229-237 | The Retry-After of a denial suffices and is tight to the second, however many denials follow. |
| `CarrierRetry.ParsesDigitRun` | src/call/rate_limiter.rs:379-387 | Whitespace, digits, rest: the value of the digits if it fits 32 bits, else none. |
| `CarrierRetry.ParseInvertsPrinting` | src/call/rate_limiter.rs:379-387 | The parser inverts decimal printing for every n below 2^32 and rejects larger ones. |
| `CarrierRetry.ReadsDecimal` | src/call/rate_limiter.rs:379-387 | A single digit counts for itself, and one more digit makes ten times the number and that digit; what has left 32 bits stays rejected. |
| `CarrierRetry.JitterWithinAmplitude` | src/call/carrier_retry.rs:225-243 | For every clock reading and amplitude the offset stays within the amplitude, despite wrapping arithmetic, and is the scrambled reading modulo 2j + 1, less j; an amplitude past 63 bits gives none. |
| `CarrierRetry.JitterExact` | src/call/carrier_retry.rs:212-218 | The wait is base plus offset exactly when that is not negative and fits 64 bits. |
| `CarrierRetry.RetryWaitBounds` | src/call/carrier_retry.rs:158-243 | Retry happens exactly for 500, 486 and 503 without an overlong Retry-After, and the exact condition for a wait within the jitter of the base, which holds whenever base plus jitter fits 64 bits. |
| `CarrierRetry.RetryAfterObeyedIff` | src/call/carrier_retry.rs:170-196 | The wait reaches Retry-After exactly when the offset is not negative or the header is zero. |
| `CarrierRetry.RetryAfterUndercut` | src/call/carrier_retry.rs:158-243 | With the default policy and one clock reading a Retry-After of 5 s is followed by a wait of 3.5 s. |
| `IceBuffering.Client.TeardownCall` | frontend/src/App.tsx:125-132 | Drops the call, opens a new epoch, touches no buffer. |
| `IceBuffering.Client.CreateCall` | frontend/src/App.tsx:503 | A new call in the running epoch. |
| `IceBuffering.Client.ReceiveIce` | frontend/src/App.tsx:204-221 | A candidate is handed over at once or buffered under the epoch of its arrival. |
| `IceBuffering.Client.StartFlush` | frontend/src/App.tsx:137-157 | Takes the entries of the epoch in order, empties the buffer, hands over the first. |
| `IceBuffering.Client.ResumeFlush` | frontend/src/App.tsx:147-156 | After an await: the next entry, or nothing once the dialog changed. |
| `IceBuffering.FlushHandStep` | frontend/src/App.tsx:147-156 | A hand-over by one of several suspended flushes keeps the protocol invariant. |
| `IceBuffering.AbandonStep` | frontend/src/App.tsx:148-150 | A flush that gives up loses nothing of the current dialog. |
| `IceBuffering.RunClient` | frontend/src/App.tsx:121-221 | Every interleaving hands over only within the dialog of arrival, to a call of that dialog, no arrival twice, and loses nothing within a dialog. |
| `IceBuffering.NotAcrossTeardown` | frontend/src/App.tsx:125-132 | Nothing that arrived before a teardown is handed over after it. |
| `IceBuffering.AllDelivered` | frontend/src/App.tsx:137-157 | When the flushes have ended and nothing is buffered, every candidate of the dialog was handed over exactly once. |
| `IceBuffering.WaitingIsNotHanded` | frontend/src/App.tsx:137-157 | What is buffered or waits in a flush has not been handed over. |
| `IceBuffering.Followed` | frontend/src/App.tsx:137-157 | A candidate taken by a flush behind n others is handed over after exactly n more turns of that flush in the same dialog. |
| `IceBuffering.StaysBuffered` | frontend/src/App.tsx:204-221 | Without a call at its arrival and without a flush to take it, a candidate stays buffered. |
| `IceBuffering.SettledByTeardown` | frontend/src/App.tsx:125-157 | A teardown settles for good which earlier candidates were handed over. |
| `IceBuffering.DeliveredIff` | frontend/src/App.tsx:121-221 | For every schedule: a candidate is ever handed over exactly when a call exists at its arrival or, before the next teardown, a flush takes it and is resumed often enough to reach it. |
| `IceBuffering.OvertakingCandidate` | frontend/src/App.tsx:112-114 | A candidate that overtakes its own offer is handed over exactly when an older call still exists, and then to that call. |
| `IceBuffering.OvertakingCandidateIsLost` | frontend/src/App.tsx:112-157 | The shortest run in which it is lost: nothing handed over, nothing buffered, nothing in a flush. |
| `Intercom.InsertMirrored` | src/call/intercom.rs:285-291 | An insert keeps both indices inverse exactly when its Call-IDs are new or name the same call. |
| `Intercom.CallCount` | src/call/intercom.rs:322-324 | The length is the number of live calls. |
| `Intercom.StaleIndex` | src/call/intercom.rs:285-312 | Reusing a caller's Call-ID leaves a callee entry that outlives the call. |
| `Intercom.InternalCallRegistry.Insert` | src/call/intercom.rs:285-291 | Both new indices, and consistency exactly for admissible entries. |
| `Intercom.InternalCallRegistry.LookupByCaller` | src/call/intercom.rs:294-297 | The answer a plain set of calls would give. |
| `Intercom.InternalCallRegistry.LookupByCallee` | src/call/intercom.rs:300-304 | The same, from the other end. |
| `Intercom.InternalCallRegistry.RemoveByCaller` | src/call/intercom.rs:307-312 | Removes exactly that call from both indices. |
| `Intercom.InternalCallRegistry.RemoveByCallee` | src/call/intercom.rs:315-319 | The same, from the other end. |
| `Intercom.RunRegistry` | src/call/intercom.rs:285-324 | Any run of the registry: both indices and every answer. While its inserts are admissible it is a run of a plain set of calls. |
| `Intercom.ConsistentIff` | src/call/intercom.rs:285-319 | The indices stay inverse through a run exactly when every insert is admissible where it happens: its Call-IDs are new there or both name the same live call. |
| `Intercom.RefinesSet` | src/call/intercom.rs:285-319 | Through such a run the registry holds exactly the calls of the plain set. |
| `Intercom.FreshIsSane` | src/call/intercom.rs:285-291 | Call-IDs that no live call uses at their insert make every insert admissible. |
| `Intercom.CanReportIff` | src/call/intercom.rs:427-436 | A refusal takes the lock a second time: it can report exactly the lengths within the bound, far below and above the limit it was refused for. |
| `Intercom.RunDialers` | src/call/intercom.rs:423-443 | For every interleaving of K concurrent dialers the registry, every load and every refusal are those the schedule calls for, and each load is within the bound. |
| `Intercom.AlwaysWithinBound` | src/call/intercom.rs:423-443 | Live plus in-flight calls never exceed max - 1 + K; with max 0 nothing is admitted. |
| `Intercom.ReachableIff` | src/call/intercom.rs:423-443 | The loads that can occur are exactly those within that bound. |
| `Intercom.ReachBound` | src/call/intercom.rs:417-443 | For every max and K a schedule that first admits K dialers at max - 1 calls and then registers them all, so that max - 1 + K calls are live. |
| `ForkCollector.EveryTargetFailed` | src/call/manager.rs:250-266 | When every worker reported and none answered, each target has a failing outcome. |
| `ForkCollector.LastStatusIs` | src/call/manager.rs:299-305 | The status kept is that of the last report that carries one, and none exactly when no report does. |
| `ForkCollector.Collect` | src/call/manager.rs:269-309 | Exactly when each result is returned: the first answer wins, all-failed needs every worker, the last failed status is kept, and the loop stops within the number of targets. |
| `Bridge.LegState.Learn` | src/call/bridge.rs:538-544 | The cell holds the newest source. |
| `Bridge.ForwardLoop.Receive` | src/call/bridge.rs:517-524 | One more datagram in hand. |
| `Bridge.ForwardLoop.LearnSource` | src/call/bridge.rs:538-544 | Its source goes into the cell of its own leg. |
| `Bridge.ForwardLoop.ReadDest` | src/call/bridge.rs:546-550 | The destination is the other cell as it stands, or the datagram is dropped. |
| `Bridge.ForwardLoop.Send` | src/call/bridge.rs:552-555 | The datagram goes out unmodified to the destination read for it; after a failed send the loop waits for the next datagram. |
| `Bridge.ForwardLoop.Count` | src/call/bridge.rs:556-566 | The forward is counted. |
| `Bridge.OtherLearns` | src/call/bridge.rs:498-568 | The other loop's learning never disturbs what this loop keeps. |
| `Bridge.RunBridge` | src/call/bridge.rs:498-568 | Every interleaving of the two loops keeps the invariant of both directions. |
| `Bridge.BridgeOk` | src/call/bridge.rs:498-568 | After every schedule both directions keep the invariant that the statements below rest on. |
| `Bridge.IntakeExactly` | src/call/bridge.rs:517-524 | Over every schedule, failed sends included, a direction has received exactly the datagrams that its waiting turns found, and it has stopped exactly when one of them found the socket closed. |
| `Bridge.ReadAtTurn` | src/call/bridge.rs:538-550 | The destination read is the source of the newest datagram the other direction has learned from by then, else the seed; without either the datagram is dropped. |
| `Bridge.SendAtTurn` | src/call/bridge.rs:552-555 | A sending turn puts the newest datagram on the wire unmodified, or leaves wire and counter alone and goes on waiting. |
| `Bridge.Conservation` | src/call/bridge.rs:498-568 | Received = forwarded + dropped + failed, and the counter equals the forwards. |
| `Bridge.DropsArePrefix` | src/call/bridge.rs:546-550 | Drops for want of a destination come before everything else. |
| `Bridge.DestinationIsNewest` | src/call/bridge.rs:538-555 | Each forward went to the newest source the other loop had learned, or to the seed. |
| `Bridge.WireIsSubsequence` | src/call/bridge.rs:552-555 | The wire is an in-order, unmodified subsequence of the datagrams received. |
| `Routing.TimeInRangeIsCyclic` | src/call/routing.rs:309-319 | In range means: clockwise from the start, before the end. |
| `Routing.SortIndices` | src/call/routing.rs:203-205 | A sort of all rules by descending priority, stable in declaration order. |
| `Routing.FilterBindingsByAor` | src/call/routing.rs:321-332 | Exactly the first binding of each registered AOR of the fork list, in its order. |
| `Routing.BindingsByPosition` | src/call/routing.rs:321-332 | The answer by positions: increasing places in the fork list, exactly those whose AOR is registered, each with the first binding of that AOR. |
| `Routing.MatchesByFields` | src/call/routing.rs:223-251 | A rule matches exactly when each of its fields is absent or holds: a listed weekday, a range that parses and holds clockwise, a listed caller. |
| `Routing.Evaluate` | src/call/routing.rs:194-217 | The decision, with its bindings, is the outcome of the matching rule of maximum priority and least index; none exactly when no rule matches. Field by field: every condition of the winner holds, and no rule whose conditions hold beats it or goes unheard. |
| `Routing.ChosenUnique` | src/call/routing.rs:194-217 | At most one rule can be chosen. |
| `Routing.OrderFreeIff` | src/call/routing.rs:203-215 | Every declaration order gives the same decision exactly when all matching rules of the highest priority have the same outcome. |
| `Routing.PermutationInvariant` | src/call/routing.rs:203-215 | With distinct priorities the decision, bindings included, does not depend on declaration order. |
| `Routing.PermutationMatches` | src/call/routing.rs:206-216 | Whether any rule matches never depends on declaration order. |
| `CallLog.CallLog.RecordStart` | src/observability/call_log.rs:161-180 | A logged Call-ID changes nothing; otherwise the new entry comes last and the oldest makes room. The log stays the last accepted starts, no Call-ID twice. |
| `CallLog.CallLog.RecordEnd` | src/observability/call_log.rs:188-209 | The entry of the Call-ID, and no other, gets the latest outcome; its duration is set by the first end only, unless the clock ran backwards. |
| `CallLog.CallLog.Recent` | src/observability/call_log.rs:213-223 | The newest n entries (or all), newest first. |
| `CallLog.StartStep` | src/observability/call_log.rs:161-180 | How a start changes the last accepted starts of a history. |
| `CallLog.EndStep` | src/observability/call_log.rs:188-209 | How an end changes exactly the entry of its Call-ID. |
| `CallLog.RunLog` | src/observability/call_log.rs:161-223 | After any run the log is the last maxSize accepted starts with outcome and duration as a function of the history. |
| `CallLog.EndWithoutStart` | src/observability/call_log.rs:188-209 | Ending an evicted or unknown Call-ID changes nothing. |
| `CallLog.DurationIff` | src/observability/call_log.rs:199-205 | An entry has a duration exactly when an end was recorded, of any outcome, and the first one is not before the start. |
| `CallLog.DurationOnlyAnsweredIff` | src/observability/call_log.rs:87 | Only answered calls have a duration exactly when every logged call whose first end is in order was last reported answered. |
| `CallLog.MissedCallHasDuration` | src/observability/call_log.rs:87 | Start and missed end: the entry has a duration. |
| `CallLog.DurationSettled` | src/observability/call_log.rs:199-205 | No later event changes the duration of an entry that has been ended. |

## Left out

- Sockets, tasks, DSCP, WebSocket, HTTP, push, tracing and metrics: plumbing around the steps modelled.
- The Opus codec, the resampler's filter, the mu-law table and the jitter buffer: unknown functions and arbitrary input orders.
- Randomness: the random start values, SSRC draws and clock seeds are parameters. The SSRC redraw needs a draw that differs.
- Floating-point rounding in the report timestamp: the model computes in exact fixed point.
- Overflow of `Instant` and of 64-bit second counts, poisoned mutexes, and the panics of a debug build on overflow.
- Parsing of weekday and time-range strings in routing rules: the model starts from parsed values and keeps the invalid case.
- DTMF packets injected through `send_to_ngn`: they bypass the egress and are not counted in sender reports.
- `Transcoder.RelayNgnToWeb`: takes a call without SSRC collision, because collisions are steps of `Transcoder.RunTasks` and change no number, timestamp or payload.
- RTCP BYE on SSRC rotation: the source does not send it either.
- Cancelling the losing legs of a fork: the source leaves it to its caller.
- The browser's views, the rate-limit countdown and the media set-up between creating a call and flushing: only their effect on call, epoch and buffer is a step.
- The digit tables, SIP INFO bodies, configuration defaults, recording, voicemail and the message log: only easy members would be added.
