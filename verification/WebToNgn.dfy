/** The browser-to-NGN direction: re-framed audio on a sample clock, whatever pushes fail, whatever
    peers are unknown and whatever sends fail. */
module WebToNgn {
  import opened Prelude
  import opened RtpWire
  import opened RtpEgress
  import opened Reframing
  import opened Transcoder

  /** One decoded Opus packet: its ingress number, its 48 kHz samples, whether the NGN peer is known,
      how many of its sends succeed before one fails, and the clock readings at its packets. */
  datatype Decoded = Decoded(
    ingress: u16, samples: Samples, peerKnown: bool, sends: nat, clock: seq<int>, ntp: Ntp)

  /** The clock at packet `j` of a push; a list that is too short repeats its last reading. */
  function Reading(d: Decoded, j: nat): int {
    if d.clock == [] then 0 else if j < |d.clock| then d.clock[j] else d.clock[|d.clock| - 1]
  }

  type Payload = seq<u8>

  ghost function SamplesOf(pushes: seq<Decoded>): seq<Samples> {
    seq(|pushes|, i requires 0 <= i < |pushes| => pushes[i].samples)
  }

  /** The one uncut 48 kHz stream. */
  ghost function Stream(pushes: seq<Decoded>): Samples {
    Flatten(SamplesOf(pushes))
  }

  /** What each 20 ms frame of the uncut stream encodes to, `None` where it cannot be encoded. */
  ghost function Payloads(codec: Codec, pushes: seq<Decoded>): (e: seq<Option<Payload>>)
    ensures |e| == |Frames(Stream(pushes))|
  {
    var frames := Frames(Stream(pushes));
    seq(|frames|, i requires 0 <= i < |frames| => PayloadAt(codec, [], frames, i))
  }

  lemma StreamGrows(pushes: seq<Decoded>, d: Decoded)
    ensures Stream(pushes + [d]) == Stream(pushes) + d.samples
    ensures Frames(Stream(pushes + [d])) == Frames(Stream(pushes)) + Frames(Tail(Stream(pushes)) + d.samples)
    ensures d.samples == [] ==> Stream(pushes + [d]) == Stream(pushes)
  {
    assert SamplesOf(pushes + [d]) == SamplesOf(pushes) + [d.samples];
    FlattenSnoc(SamplesOf(pushes), d.samples);
    FramesAppend(Stream(pushes), d.samples);
    if d.samples == [] {
      assert Stream(pushes) + [] == Stream(pushes);
    }
  }

  lemma PayloadsGrow(codec: Codec, pushes: seq<Decoded>, d: Decoded)
    ensures Payloads(codec, pushes) <= Payloads(codec, pushes + [d])
    ensures d.samples == [] ==> Payloads(codec, pushes + [d]) == Payloads(codec, pushes)
  {
    StreamGrows(pushes, d);
    var frames, frames' := Frames(Stream(pushes)), Frames(Stream(pushes + [d]));
    forall i | 0 <= i < |frames|
      ensures PayloadAt(codec, [], frames', i) == PayloadAt(codec, [], frames, i)
    {
      assert frames'[..i + 1] == frames[..i + 1];
    }
  }

  /** The first payload missing from `from` on, or the number of frames. */
  ghost function FirstBad(payloads: seq<Option<Payload>>, from: nat): (b: nat)
    requires from <= |payloads|
    ensures from <= b <= |payloads|
    decreases |payloads| - from
  {
    if from == |payloads| || payloads[from].None? then from else FirstBad(payloads, from + 1)
  }

  lemma {:induction false} FirstBadIs(payloads: seq<Option<Payload>>, from: nat, b: nat)
    requires from <= b <= |payloads|
    requires forall i :: from <= i < b ==> payloads[i].Some?
    requires b < |payloads| ==> payloads[b].None?
    ensures FirstBad(payloads, from) == b
    decreases |payloads| - from
  {
    if from < b {
      FirstBadIs(payloads, from + 1, b);
    }
  }

  function Range(from: nat, count: nat): (r: seq<nat>)
    ensures |r| == count && forall i :: 0 <= i < count ==> r[i] == from + i
  {
    seq(count, i requires 0 <= i < count => from + i)
  }

  /** How far a run has got: the frames drained from the stream, the frame of each packet numbered, and
      which of the numbered packets reached the wire. */
  datatype Progress = Progress(drained: nat, numbered: seq<nat>, sent: seq<nat>)

  /** Packets numbered and packets sent of a batch of frames. */
  function Attempted(d: Decoded, batch: nat): nat {
    if d.peerKnown then Min(batch, d.sends + 1) else 0
  }

  function Delivered(d: Decoded, batch: nat): nat {
    if d.peerKnown then Min(batch, d.sends) else 0
  }

  /** What one decoded packet adds when the stream so far encodes to `payloads`. A failed push loses
      the frames up to the bad one, an unknown peer the whole batch, a failed send the rest of the
      batch: of all these only the packet whose send failed has used a number. */
  ghost function Advanced(payloads: seq<Option<Payload>>, p: Progress, d: Decoded): Progress
    requires p.drained <= |payloads|
  {
    var bad := FirstBad(payloads, p.drained);
    var batch := |payloads| - p.drained;
    if d.samples == [] then p
    else if bad < |payloads| then p.(drained := bad + 1)
    else Progress(
      |payloads|,
      p.numbered + Range(p.drained, Attempted(d, batch)),
      p.sent + Range(|p.numbered|, Delivered(d, batch)))
  }

  ghost function ProgressAfter(codec: Codec, pushes: seq<Decoded>): (p: Progress)
    ensures p.drained <= |Payloads(codec, pushes)|
  {
    if pushes == [] then Progress(0, [], [])
    else
      var before, d := pushes[..|pushes| - 1], pushes[|pushes| - 1];
      PayloadsGrow(codec, before, d);
      assert before + [d] == pushes;
      Advanced(Payloads(codec, pushes), ProgressAfter(codec, before), d)
  }

  lemma ProgressSnoc(codec: Codec, pushes: seq<Decoded>, d: Decoded)
    ensures Payloads(codec, pushes) <= Payloads(codec, pushes + [d])
    ensures ProgressAfter(codec, pushes + [d])
         == Advanced(Payloads(codec, pushes + [d]), ProgressAfter(codec, pushes), d)
  {
    PayloadsGrow(codec, pushes, d);
    assert (pushes + [d])[..|pushes|] == pushes;
  }

  // ---- what a run numbers and what it loses ------------------------------------

  ghost predicate Increasing(s: seq<nat>, bound: nat) {
    (forall i :: 0 <= i < |s| ==> s[i] < bound) && (forall i, j :: 0 <= i < j < |s| ==> s[i] < s[j])
  }

  ghost predicate InOrder(p: Progress) {
    Increasing(p.numbered, p.drained) && Increasing(p.sent, |p.numbered|)
  }

  lemma IncreasingJoin(s: seq<nat>, bound: nat, count: nat, bound': nat)
    requires Increasing(s, bound) && bound + count <= bound'
    ensures Increasing(s + Range(bound, count), bound')
  {
  }

  lemma AdvancedInOrder(payloads: seq<Option<Payload>>, p: Progress, d: Decoded)
    requires p.drained <= |payloads| && InOrder(p)
    ensures InOrder(Advanced(payloads, p, d))
  {
    var batch: nat := |payloads| - p.drained;
    IncreasingJoin(p.numbered, p.drained, Attempted(d, batch), |payloads|);
    IncreasingJoin(p.sent, |p.numbered|, Delivered(d, batch), |p.numbered| + Attempted(d, batch));
    hide Range;
    hide FirstBad;
  }

  /** Frames are numbered at most once and in stream order, and leave in that order. */
  lemma {:induction false} ProgressInOrder(codec: Codec, pushes: seq<Decoded>)
    ensures InOrder(ProgressAfter(codec, pushes))
  {
    if pushes != [] {
      var before, d := pushes[..|pushes| - 1], pushes[|pushes| - 1];
      ProgressInOrder(codec, before);
      ProgressSnoc(codec, before, d);
      assert before + [d] == pushes;
      AdvancedInOrder(Payloads(codec, pushes), ProgressAfter(codec, before), d);
    }
  }

  /** How many of the frames before frame `f` never got a number. */
  ghost function LostBefore(numbered: seq<nat>, f: nat): nat {
    if f == 0 then 0 else LostBefore(numbered, f - 1) + if f - 1 in numbered then 0 else 1
  }

  /** With `i` numbered frames below `f`, the other `f - i` are lost. */
  lemma {:induction false} LossCount(numbered: seq<nat>, bound: nat, i: nat, f: nat)
    requires Increasing(numbered, bound) && i <= |numbered|
    requires i > 0 ==> numbered[i - 1] < f
    requires i < |numbered| ==> f <= numbered[i]
    ensures i <= f && LostBefore(numbered, f) == f - i
    decreases f
  {
    if f > 0 {
      if i > 0 && numbered[i - 1] == f - 1 {
        LossCount(numbered, bound, i - 1, f - 1);
      } else {
        LossCount(numbered, bound, i, f - 1);
      }
    }
  }

  lemma FiveInvertible(d: nat)
    ensures 160 * d % 0x1_0000_0000 == 0 <==> d % 0x800_0000 == 0
  {
    var q, r := d / 0x800_0000, d % 0x800_0000;
    assert d == q * 0x800_0000 + r;
    assert 160 * d == 5 * q * 0x1_0000_0000 + 160 * r;
    assert 160 * d % 0x1_0000_0000 == 160 * r % 0x1_0000_0000;
  }

  lemma SameTimestamp(timestamp: u32, a: nat, b: nat)
    requires a <= b
    ensures Wrapping32(timestamp, a) == Wrapping32(timestamp, b) <==> (b - a) % 0x1_0000_0000 == 0
  {
  }

  /** The 8 kHz position of the first sample of frame `f`. */
  function Position(timestamp: u32, f: nat): u32 {
    Wrapping32(timestamp, NB_FRAME_SAMPLES * f)
  }

  lemma SamePosition(timestamp: u32, a: nat, b: nat)
    requires a <= b
    ensures Position(timestamp, a) == Position(timestamp, b) <==> (b - a) % 0x800_0000 == 0
  {
    SameTimestamp(timestamp, NB_FRAME_SAMPLES * a, NB_FRAME_SAMPLES * b);
    FiveInvertible(b - a);
    hide Wrapping32;
  }

  lemma SamePositionNearby(timestamp: u32, a: nat, b: nat)
    requires a <= b && b - a < 0x800_0000
    ensures Position(timestamp, a) == Position(timestamp, b) <==> a == b
  {
    SamePosition(timestamp, a, b);
    hide Position;
  }

  /** The `i`-th packet numbered carries the position of its own frame exactly when the count of frames
      lost before it is a multiple of 2^27. Within 31 days of audio that means none: every frame that
      is lost before it gets a number shifts all later timestamps against the stream. */
  lemma PositionKeptIff(codec: Codec, pushes: seq<Decoded>, timestamp: u32, i: nat)
    requires i < |ProgressAfter(codec, pushes).numbered|
    ensures var numbered := ProgressAfter(codec, pushes).numbered;
            (Position(timestamp, i) == Position(timestamp, numbered[i])) <==>
            LostBefore(numbered, numbered[i]) % 0x800_0000 == 0
  {
    hide Position;
    hide LostBefore;
    hide ProgressAfter;
    var p := ProgressAfter(codec, pushes);
    ProgressInOrder(codec, pushes);
    LossCount(p.numbered, p.drained, i, p.numbered[i]);
    SamePosition(timestamp, i, p.numbered[i]);
  }

  /** A step of a frame on its way: it gets a number, then it gets onto the wire. */
  datatype Stage = Numbering | Leaving

  function Passed(p: Progress, stage: Stage): nat {
    if stage == Numbering then |p.numbered| else |p.sent|
  }

  /** `d`, after a run that got to `p`, brings every frame it completes past `stage`: none fails to
      encode, and if there is any, the peer is known and no send fails. For the number alone, the send
      of the last frame may fail. */
  ghost predicate KeepsAll(payloads: seq<Option<Payload>>, p: Progress, d: Decoded, stage: Stage)
    requires p.drained <= |payloads|
  {
    var batch := |payloads| - p.drained;
    || d.samples == []
    || (FirstBad(payloads, p.drained) == |payloads|
        && (batch > 0 ==> d.peerKnown && d.sends + (if stage == Numbering then 1 else 0) >= batch))
  }

  ghost predicate Keeps(codec: Codec, pushes: seq<Decoded>, k: nat, stage: Stage)
    requires k < |pushes|
  {
    ProgressSnoc(codec, pushes[..k], pushes[k]);
    KeepsAll(Payloads(codec, pushes[..k] + [pushes[k]]), ProgressAfter(codec, pushes[..k]), pushes[k], stage)
  }

  ghost predicate AllKeep(codec: Codec, pushes: seq<Decoded>, stage: Stage) {
    forall k :: 0 <= k < |pushes| ==> Keeps(codec, pushes, k, stage)
  }

  /** A packet brings as many frames past a stage as it drains exactly when it keeps them all. */
  lemma KeepsCounts(payloads: seq<Option<Payload>>, p: Progress, d: Decoded, stage: Stage)
    requires p.drained <= |payloads|
    ensures var p' := Advanced(payloads, p, d);
            && Passed(p', stage) - Passed(p, stage) <= p'.drained - p.drained
            && (KeepsAll(payloads, p, d, stage) <==> Passed(p', stage) - Passed(p, stage) == p'.drained - p.drained)
            && (KeepsAll(payloads, p, d, stage) && d.samples != [] ==> p'.drained == |payloads|)
            && (d.samples == [] ==> p' == p)
  {
  }

  lemma KeepsOfPrefix(codec: Codec, before: seq<Decoded>, d: Decoded, stage: Stage)
    ensures AllKeep(codec, before + [d], stage) <==>
            AllKeep(codec, before, stage) && Keeps(codec, before + [d], |before|, stage)
  {
    var all := before + [d];
    forall k | 0 <= k < |before|
      ensures Keeps(codec, all, k, stage) <==> Keeps(codec, before, k, stage)
    {
      assert before[..k] == all[..k];
    }
    hide Keeps;
  }

  lemma KeepsLast(codec: Codec, before: seq<Decoded>, d: Decoded, stage: Stage)
    ensures ProgressAfter(codec, before).drained <= |Payloads(codec, before + [d])|
    ensures Keeps(codec, before + [d], |before|, stage)
       <==> KeepsAll(Payloads(codec, before + [d]), ProgressAfter(codec, before), d, stage)
  {
    assert (before + [d])[..|before|] == before;
    ProgressSnoc(codec, before, d);
  }

  /** All frames of the stream pass a stage exactly when every push keeps its own. */
  lemma {:induction false} AllPassIff(codec: Codec, pushes: seq<Decoded>, stage: Stage)
    ensures var p := ProgressAfter(codec, pushes);
            && Passed(p, stage) <= p.drained
            && (AllKeep(codec, pushes, stage) <==> Passed(p, stage) == p.drained)
            && (AllKeep(codec, pushes, stage) <==> Passed(p, stage) == |Payloads(codec, pushes)|)
  {
    if pushes != [] {
      var n := |pushes| - 1;
      var before, d := pushes[..n], pushes[n];
      assert before + [d] == pushes;
      AllPassIff(codec, before, stage);
      KeepsOfPrefix(codec, before, d, stage);
      ProgressSnoc(codec, before, d);
      KeepsCounts(Payloads(codec, pushes), ProgressAfter(codec, before), d, stage);
      KeepsLast(codec, before, d, stage);
      PayloadsGrow(codec, before, d);
      hide *;
    }
  }

  /** Every frame of the stream has its own packet number exactly when every push keeps its frames.
      Then packet `i` is frame `i` and carries its position. */
  lemma EveryFrameNumberedIff(codec: Codec, pushes: seq<Decoded>)
    ensures (ProgressAfter(codec, pushes).numbered == Range(0, |Payloads(codec, pushes)|)) <==>
            AllKeep(codec, pushes, Numbering)
  {
    hide AllKeep;
    hide Payloads;
    hide ProgressAfter;
    var p, total := ProgressAfter(codec, pushes), |Payloads(codec, pushes)|;
    AllPassIff(codec, pushes, Numbering);
    ProgressInOrder(codec, pushes);
    if |p.numbered| == total {
      FullIsRange(p.numbered, total);
    }
  }

  // ---- how far the timestamps are off ---------------------------------------------

  /** Frames lost without a number so far. */
  ghost function Drift(p: Progress): int {
    p.drained - |p.numbered|
  }

  ghost function ProgressAt(codec: Codec, pushes: seq<Decoded>, k: nat): Progress
    requires k <= |pushes|
  {
    ProgressAfter(codec, pushes[..k])
  }

  lemma ProgressNext(codec: Codec, pushes: seq<Decoded>, k: nat)
    requires k < |pushes|
    ensures ProgressAt(codec, pushes, k).drained <= |Payloads(codec, pushes[..k] + [pushes[k]])|
    ensures ProgressAt(codec, pushes, k + 1)
         == Advanced(Payloads(codec, pushes[..k] + [pushes[k]]), ProgressAt(codec, pushes, k), pushes[k])
  {
    TakeNext(pushes, k);
    ProgressSnoc(codec, pushes[..k], pushes[k]);
  }

  /** A push numbers its frames one after the other, from where it found the stream. */
  lemma AdvancedNumbers(payloads: seq<Option<Payload>>, p: Progress, d: Decoded, i: nat)
    requires p.drained <= |payloads| && |p.numbered| <= i < |Advanced(payloads, p, d).numbered|
    ensures Advanced(payloads, p, d).numbered[i] == i + Drift(p)
  {
    hide FirstBad;
  }

  lemma AdvancedKeeps(payloads: seq<Option<Payload>>, p: Progress, d: Decoded, i: nat)
    requires p.drained <= |payloads| && i < |p.numbered|
    ensures i < |Advanced(payloads, p, d).numbered| && Advanced(payloads, p, d).numbered[i] == p.numbered[i]
  {
    hide FirstBad;
  }

  lemma {:induction false} NumberedStays(codec: Codec, pushes: seq<Decoded>, k: nat, n: nat, i: nat)
    requires k <= n <= |pushes| && i < |ProgressAt(codec, pushes, k).numbered|
    ensures i < |ProgressAt(codec, pushes, n).numbered|
    ensures ProgressAt(codec, pushes, n).numbered[i] == ProgressAt(codec, pushes, k).numbered[i]
  {
    if k < n {
      hide *;
      NumberedStays(codec, pushes, k, n - 1, i);
      ProgressNext(codec, pushes, n - 1);
      AdvancedKeeps(
        Payloads(codec, pushes[..n - 1] + [pushes[n - 1]]), ProgressAt(codec, pushes, n - 1), pushes[n - 1], i);
    }
  }

  /** Packet number `i` of the run, numbered by push `k`, carries the frame that the drift before push `k` puts there. */
  lemma NumberedBy(codec: Codec, pushes: seq<Decoded>, k: nat, i: nat)
    requires k < |pushes|
    requires |ProgressAt(codec, pushes, k).numbered| <= i < |ProgressAt(codec, pushes, k + 1).numbered|
    ensures i < |ProgressAfter(codec, pushes).numbered|
    ensures ProgressAfter(codec, pushes).numbered[i] == i + Drift(ProgressAt(codec, pushes, k))
  {
    assert pushes[..|pushes|] == pushes;
    assert ProgressAt(codec, pushes, |pushes|) == ProgressAfter(codec, pushes);
    hide *;
    NumberedStays(codec, pushes, k + 1, |pushes|, i);
    ProgressNext(codec, pushes, k);
    AdvancedNumbers(Payloads(codec, pushes[..k] + [pushes[k]]), ProgressAt(codec, pushes, k), pushes[k], i);
  }

  /** The exact condition for a timestamp to be right, read off the input. Whatever comes later, a packet
      numbered by push `k` carries the position of its own frame exactly when every push before `k` kept
      its frames: none failed to encode, and any push that completed a frame met a known peer and had no
      failed send but its last. (2^27 frames are 31 days of audio.) */
  lemma OnTimeIff(codec: Codec, pushes: seq<Decoded>, timestamp: u32, k: nat, i: nat)
    requires k < |pushes| && |Payloads(codec, pushes[..k])| < 0x800_0000
    requires |ProgressAt(codec, pushes, k).numbered| <= i < |ProgressAt(codec, pushes, k + 1).numbered|
    ensures i < |ProgressAfter(codec, pushes).numbered|
    ensures Position(timestamp, i) == Position(timestamp, ProgressAfter(codec, pushes).numbered[i])
       <==> AllKeep(codec, pushes[..k], Numbering)
  {
    var p := ProgressAt(codec, pushes, k);
    assert p == ProgressAfter(codec, pushes[..k]);
    assert Passed(p, Numbering) == |p.numbered| && Drift(p) == p.drained - |p.numbered|;
    hide *;
    NumberedBy(codec, pushes, k, i);
    AllPassIff(codec, pushes[..k], Numbering);
    assert p.drained <= |Payloads(codec, pushes[..k])|;
    SamePositionNearby(timestamp, i, ProgressAfter(codec, pushes).numbered[i]);
  }

  /** While pushes keep their frames the drift stays as it is. */
  lemma {:induction false} DriftStays(codec: Codec, pushes: seq<Decoded>, k: nat, n: nat)
    requires k <= n <= |pushes| && forall m :: k <= m < n ==> Keeps(codec, pushes, m, Numbering)
    ensures Drift(ProgressAt(codec, pushes, n)) == Drift(ProgressAt(codec, pushes, k))
  {
    if k < n {
      hide *;
      DriftStays(codec, pushes, k, n - 1);
      KeepsAt(codec, pushes, n - 1);
    }
  }

  lemma KeepsAt(codec: Codec, pushes: seq<Decoded>, k: nat)
    requires k < |pushes| && Keeps(codec, pushes, k, Numbering)
    ensures Drift(ProgressAt(codec, pushes, k + 1)) == Drift(ProgressAt(codec, pushes, k))
  {
    ProgressNext(codec, pushes, k);
    KeepsCounts(
      Payloads(codec, pushes[..k] + [pushes[k]]), ProgressAt(codec, pushes, k), pushes[k], Numbering);
    hide Payloads;
    hide ProgressAfter;
    hide Advanced;
    hide FirstBad;
  }

  /** What is lost before push `k` shifts everything after it: as long as the pushes from `k` on keep
      their frames, each of their packets `i` carries frame `i + drift`. */
  lemma {:induction false} ShiftPersists(codec: Codec, pushes: seq<Decoded>, k: nat, n: nat, i: nat)
    requires k <= n <= |pushes| && forall m :: k <= m < n ==> Keeps(codec, pushes, m, Numbering)
    requires |ProgressAt(codec, pushes, k).numbered| <= i < |ProgressAt(codec, pushes, n).numbered|
    ensures i < |ProgressAfter(codec, pushes).numbered|
    ensures ProgressAfter(codec, pushes).numbered[i] == i + Drift(ProgressAt(codec, pushes, k))
  {
    hide ProgressAt;
    hide ProgressAfter;
    hide Keeps;
    hide Drift;
    if i < |ProgressAt(codec, pushes, n - 1).numbered| {
      ShiftPersists(codec, pushes, k, n - 1, i);
    } else {
      NumberedBy(codec, pushes, n - 1, i);
      DriftStays(codec, pushes, k, n - 1);
    }
  }

  lemma OneFrame(s: Samples)
    requires |s| == WB_FRAME_SAMPLES
    ensures |Frames(s)| == 1 && Tail(s) == []
  {
  }

  lemma FirstFrameLost(codec: Codec, first: Decoded)
    requires |first.samples| == WB_FRAME_SAMPLES && !first.peerKnown
    requires forall p :: p in Payloads(codec, [first]) ==> p.Some?
    ensures ProgressAfter(codec, [first]) == Progress(1, [], [])
  {
    var none: seq<Decoded> := [];
    assert ProgressAfter(codec, none) == Progress(0, [], []);
    assert Stream(none) == [] && Frames([]) == [] && Tail([]) == [];
    assert none + [first] == [first];
    assert [] + first.samples == first.samples;
    hide ProgressAfter;
    hide Stream;
    hide Frames;
    hide Tail;
    StreamGrows(none, first);
    OneFrame(first.samples);
    ProgressSnoc(codec, none, first);
    var one := Payloads(codec, [first]);
    assert one[0] in one;
    FirstBadIs(one, 0, 1);
    hide Payloads;
    hide FirstBad;
  }

  /** One frame before the peer is known is enough: however long the rest runs without a loss, every
      packet carries the frame after the one its timestamp stands for. */
  lemma UnknownPeerShifts(codec: Codec, pushes: seq<Decoded>, i: nat)
    requires pushes != [] && |pushes[0].samples| == WB_FRAME_SAMPLES && !pushes[0].peerKnown
    requires forall p :: p in Payloads(codec, [pushes[0]]) ==> p.Some?
    requires forall m :: 1 <= m < |pushes| ==> Keeps(codec, pushes, m, Numbering)
    requires i < |ProgressAfter(codec, pushes).numbered|
    ensures ProgressAfter(codec, pushes).numbered[i] == i + 1
  {
    assert pushes[..1] == [pushes[0]] && pushes[..|pushes|] == pushes;
    assert ProgressAt(codec, pushes, |pushes|) == ProgressAfter(codec, pushes);
    assert ProgressAt(codec, pushes, 1) == ProgressAfter(codec, [pushes[0]]);
    hide ProgressAt;
    hide ProgressAfter;
    hide Payloads;
    hide Keeps;
    FirstFrameLost(codec, pushes[0]);
    ShiftPersists(codec, pushes, 1, |pushes|, i);
  }

  /** The whole stream is on the wire, frame by frame at its own position, exactly when every push keeps
      its frames and all their sends succeed; whenever a frame is missing, so is a packet. */
  lemma WholeStreamSentIff(codec: Codec, pushes: seq<Decoded>, headers: seq<Header>, wire: seq<RtpPacket>, start: Start)
    requires Carries(Payloads(codec, pushes), ProgressAfter(codec, pushes), headers, wire, start)
    ensures IsWholeStream(wire, Payloads(codec, pushes), start.timestamp) <==> AllKeep(codec, pushes, Leaving)
    ensures |wire| <= |Payloads(codec, pushes)|
  {
    hide AllKeep;
    hide Payloads;
    hide ProgressAfter;
    hide Position;
    var p, total := ProgressAfter(codec, pushes), |Payloads(codec, pushes)|;
    AllPassIff(codec, pushes, Leaving);
    AllPassIff(codec, pushes, Numbering);
    ProgressInOrder(codec, pushes);
    if |p.sent| == total {
      LossCount(p.sent, |p.numbered|, total, |p.numbered|);
      FullIsRange(p.sent, total);
      FullIsRange(p.numbered, total);
      forall k | 0 <= k < total
        ensures wire[k].timestamp == Position(start.timestamp, k) && Payloads(codec, pushes)[k] == Some(wire[k].payload)
      {
        assert CarriesAt(Payloads(codec, pushes), p.numbered, headers, wire[k], start, p.sent[k]);
      }
    }
  }

  /** One packet per frame of the stream, with the frame's payload and position. */
  ghost predicate IsWholeStream(wire: seq<RtpPacket>, payloads: seq<Option<Payload>>, timestamp: u32) {
    |wire| == |payloads| &&
    forall k :: 0 <= k < |wire| ==> wire[k].timestamp == Position(timestamp, k) && payloads[k] == Some(wire[k].payload)
  }

  lemma {:induction false} FullIsRange(s: seq<nat>, bound: nat)
    requires Increasing(s, bound) && |s| == bound
    ensures s == Range(0, bound)
  {
    forall i | 0 <= i < |s|
      ensures s[i] == i
    {
      LossCount(s, bound, i, s[i]);
      LossCount(s, bound, |s|, bound);
      LossGrows(s, s[i], bound);
    }
  }

  lemma {:induction false} LossGrows(numbered: seq<nat>, f: nat, g: nat)
    requires f <= g
    ensures LostBefore(numbered, f) <= LostBefore(numbered, g)
  {
    if f < g {
      LossGrows(numbered, f, g - 1);
    }
  }

  // ---- the headers ---------------------------------------------------------------

  /** What a number depends on besides its place: the sequence number of the packet and the clock. */
  datatype Header = Header(sequence: u16, now: int)

  /** The ingress numbers that the egress hears of: those of packets with samples. */
  ghost function NotedIngress(pushes: seq<Decoded>): seq<u16> {
    if pushes == [] then []
    else
      var before, d := NotedIngress(pushes[..|pushes| - 1]), pushes[|pushes| - 1];
      if d.samples == [] then before else before + [d.ingress]
  }

  /** Numbers skipped: each ingress step of 2 to 100 skips one less than itself, a longer one 99. */
  ghost function Skipped(ingress: seq<u16>): nat {
    if |ingress| < 2 then 0
    else
      var previous: int, newest: int := ingress[|ingress| - 2], ingress[|ingress| - 1];
      var step := (newest - previous) % 0x1_0000;
      Skipped(ingress[..|ingress| - 1]) + if step == 0 then 0 else if step > 100 then 99 else step - 1
  }

  lemma {:induction false} SkippedIsSkips(ingress: seq<u16>)
    ensures Skipped(ingress) == Skips(ingress)
  {
    if |ingress| >= 2 {
      SkippedIsSkips(ingress[..|ingress| - 1]);
    }
  }

  /** The number of packet `i` when the egress has heard of `ingress`. */
  ghost function NumberOf(sequence: u16, i: nat, ingress: seq<u16>): u16 {
    (sequence + i + Skipped(ingress)) % 0x1_0000
  }

  /** The headers of the next `count` packets, all of one push. */
  ghost function Batch(sequence: u16, n: nat, ingress: seq<u16>, d: Decoded, count: nat): (b: seq<Header>)
    ensures |b| == count
    ensures forall j :: 0 <= j < count ==> b[j] == Header(NumberOf(sequence, n + j, ingress), Reading(d, j))
  {
    seq(count, j requires 0 <= j < count => Header(NumberOf(sequence, n + j, ingress), Reading(d, j)))
  }

  lemma BatchNext(sequence: u16, n: nat, ingress: seq<u16>, d: Decoded, count: nat)
    ensures Batch(sequence, n, ingress, d, count + 1)
         == Batch(sequence, n, ingress, d, count) + [Header(NumberOf(sequence, n + count, ingress), Reading(d, count))]
  {
    hide NumberOf;
    hide Reading;
  }

  /** The headers of all packets numbered, sent or not. */
  ghost function Headers(codec: Codec, sequence: u16, pushes: seq<Decoded>): (s: seq<Header>)
    ensures |s| == |ProgressAfter(codec, pushes).numbered|
  {
    if pushes == [] then []
    else
      var before, d := pushes[..|pushes| - 1], pushes[|pushes| - 1];
      var n := |ProgressAfter(codec, before).numbered|;
      NumberedNever(codec, before, d);
      assert before + [d] == pushes;
      Headers(codec, sequence, before)
      + Batch(sequence, n, NotedIngress(pushes), d, |ProgressAfter(codec, pushes).numbered| - n)
  }

  lemma NumberedNever(codec: Codec, before: seq<Decoded>, d: Decoded)
    ensures |ProgressAfter(codec, before).numbered| <= |ProgressAfter(codec, before + [d]).numbered|
  {
    ProgressSnoc(codec, before, d);
    hide Payloads;
    hide ProgressAfter;
    hide FirstBad;
  }

  lemma HeadersSnoc(codec: Codec, sequence: u16, pushes: seq<Decoded>, d: Decoded)
    ensures |ProgressAfter(codec, pushes).numbered| <= |ProgressAfter(codec, pushes + [d]).numbered|
    ensures var n := |ProgressAfter(codec, pushes).numbered|;
            (Headers(codec, sequence, pushes + [d])
             == Headers(codec, sequence, pushes)
                + Batch(sequence, n, NotedIngress(pushes + [d]), d, |ProgressAfter(codec, pushes + [d]).numbered| - n))
  {
    NumberedNever(codec, pushes, d);
    assert (pushes + [d])[..|pushes|] == pushes;
    hide Batch;
    hide NotedIngress;
    hide ProgressAfter;
  }

  lemma NotedSnoc(pushes: seq<Decoded>, d: Decoded)
    ensures NotedIngress(pushes + [d]) == if d.samples == [] then NotedIngress(pushes) else NotedIngress(pushes) + [d.ingress]
  {
    assert (pushes + [d])[..|pushes|] == pushes;
  }

  lemma {:induction false} HeadersStay(codec: Codec, sequence: u16, pushes: seq<Decoded>, k: nat)
    requires k <= |pushes|
    ensures Headers(codec, sequence, pushes[..k]) <= Headers(codec, sequence, pushes)
  {
    if k == |pushes| {
      assert pushes[..k] == pushes;
    } else {
      var before, d := pushes[..|pushes| - 1], pushes[|pushes| - 1];
      assert before + [d] == pushes && before[..k] == pushes[..k];
      hide *;
      HeadersStay(codec, sequence, before, k);
      HeadersSnoc(codec, sequence, before, d);
    }
  }

  /** The header of packet `i`, numbered by push `k`, in terms of the pushes alone. */
  lemma HeaderBy(codec: Codec, sequence: u16, pushes: seq<Decoded>, k: nat, i: nat)
    requires k < |pushes|
    requires |ProgressAt(codec, pushes, k).numbered| <= i < |ProgressAt(codec, pushes, k + 1).numbered|
    ensures i < |Headers(codec, sequence, pushes)|
    ensures Headers(codec, sequence, pushes)[i]
         == Header(
              NumberOf(sequence, i, NotedIngress(pushes[..k + 1])),
              Reading(pushes[k], i - |ProgressAt(codec, pushes, k).numbered|))
  {
    hide Headers;
    hide ProgressAfter;
    hide NumberOf;
    hide NotedIngress;
    hide Reading;
    hide Batch;
    TakeNext(pushes, k);
    HeadersSnoc(codec, sequence, pushes[..k], pushes[k]);
    HeaderInBatch(
      Headers(codec, sequence, pushes[..k]), sequence, NotedIngress(pushes[..k + 1]), pushes[k],
      |ProgressAt(codec, pushes, k + 1).numbered| - |ProgressAt(codec, pushes, k).numbered|, i);
    HeadersStay(codec, sequence, pushes, k + 1);
  }

  lemma HeaderInBatch(headers: seq<Header>, sequence: u16, ingress: seq<u16>, d: Decoded, count: nat, i: nat)
    requires |headers| <= i < |headers| + count
    ensures (headers + Batch(sequence, |headers|, ingress, d, count))[i]
         == Header(NumberOf(sequence, i, ingress), Reading(d, i - |headers|))
  {
    hide NumberOf;
    hide Reading;
    var j: nat := i - |headers|;
    assert (headers + Batch(sequence, |headers|, ingress, d, count))[i] == Batch(sequence, |headers|, ingress, d, count)[j];
  }

  /** Packet `i` in full. The marker is set at the first packet and after every pause of 30 ms. */
  ghost function PacketAt(start: Start, headers: seq<Header>, i: nat, payload: Payload): RtpPacket
    requires i < |headers|
  {
    RtpPacket(
      0, i == 0 || headers[i].now - headers[i - 1].now >= 30_000_000,
      headers[i].sequence, Position(start.timestamp, i), start.ssrc, payload)
  }

  // ---- the wire ------------------------------------------------------------------

  /** The packets on the wire are those that `p` says were sent, with the payload of their frame. */
  ghost predicate Carries(
    payloads: seq<Option<Payload>>, p: Progress, headers: seq<Header>, wire: seq<RtpPacket>, start: Start)
  {
    |wire| == |p.sent| &&
    forall k :: 0 <= k < |wire| ==> CarriesAt(payloads, p.numbered, headers, wire[k], start, p.sent[k])
  }

  ghost predicate CarriesAt(
    payloads: seq<Option<Payload>>, numbered: seq<nat>, headers: seq<Header>, packet: RtpPacket, start: Start, i: nat)
  {
    && i < |numbered| && i < |headers| && numbered[i] < |payloads|
    && packet == PacketAt(start, headers, i, packet.payload)
    && payloads[numbered[i]] == Some(packet.payload)
  }

  lemma CarriesLater(
    payloads: seq<Option<Payload>>, p: Progress, headers: seq<Header>, wire: seq<RtpPacket>, start: Start,
    payloads': seq<Option<Payload>>, drained: nat)
    requires Carries(payloads, p, headers, wire, start) && payloads <= payloads'
    ensures Carries(payloads', p.(drained := drained), headers, wire, start)
  {
    hide PacketAt;
    forall k | 0 <= k < |wire|
      ensures CarriesAt(payloads', p.numbered, headers, wire[k], start, p.sent[k])
    {
      assert CarriesAt(payloads, p.numbered, headers, wire[k], start, p.sent[k]);
    }
  }

  /** `chunks` are the payloads from `drained` on. */
  ghost predicate Encodes(payloads: seq<Option<Payload>>, drained: nat, chunks: seq<Payload>) {
    |chunks| == |payloads| - drained && forall i :: drained <= i < |payloads| ==> payloads[i] == Some(chunks[i - drained])
  }

  /** `more` carries the first chunks as packets `n`, `n + 1` and so on. */
  ghost predicate Chunked(
    more: seq<RtpPacket>, chunks: seq<Payload>, headers: seq<Header>, start: Start, n: nat)
  {
    |more| <= |chunks| && n + |more| <= |headers| &&
    forall j :: 0 <= j < |more| ==> more[j] == PacketAt(start, headers, n + j, chunks[j])
  }

  lemma PacketStays(start: Start, headers: seq<Header>, more: seq<Header>, i: nat, payload: Payload)
    requires i < |headers|
    ensures PacketAt(start, headers + more, i, payload) == PacketAt(start, headers, i, payload)
  {
  }

  /** Sending a batch carries the run forward as `Advanced` says. */
  lemma CarriesBatch(
    payloads: seq<Option<Payload>>, p: Progress, headers: seq<Header>, batch: seq<Header>, wire: seq<RtpPacket>,
    start: Start, chunks: seq<Payload>, more: seq<RtpPacket>)
    requires p.drained <= |payloads| && Carries(payloads, p, headers, wire, start) && |headers| == |p.numbered|
    requires Encodes(payloads, p.drained, chunks) && |more| <= |batch| <= |chunks|
    requires Chunked(more, chunks, headers + batch, start, |headers|)
    ensures Carries(
      payloads,
      Progress(|payloads|, p.numbered + Range(p.drained, |batch|), p.sent + Range(|p.numbered|, |more|)),
      headers + batch, wire + more, start)
  {
    var p' := Progress(|payloads|, p.numbered + Range(p.drained, |batch|), p.sent + Range(|p.numbered|, |more|));
    hide PacketAt;
    forall k | 0 <= k < |wire + more|
      ensures CarriesAt(payloads, p'.numbered, headers + batch, (wire + more)[k], start, p'.sent[k])
    {
      if k < |wire| {
        assert CarriesAt(payloads, p.numbered, headers, wire[k], start, p.sent[k]);
        PacketStays(start, headers, batch, p.sent[k], wire[k].payload);
      } else {
        var j := k - |wire|;
        assert p'.sent[k] == |p.numbered| + j && p'.numbered[|p.numbered| + j] == p.drained + j;
        assert payloads[p.drained + j] == Some(chunks[j]);
        PacketPayload(start, headers + batch, |headers| + j, chunks[j]);
      }
    }
  }

  lemma PacketPayload(start: Start, headers: seq<Header>, i: nat, payload: Payload)
    requires i < |headers|
    ensures PacketAt(start, headers, i, payload).payload == payload
  {
  }

  // ---- the loop ------------------------------------------------------------------

  ghost function NowsOf(headers: seq<Header>): seq<int> {
    seq(|headers|, i requires 0 <= i < |headers| => headers[i].now)
  }

  /** The egress has heard of `ingress` and has numbered the packets of `headers`, one frame each. */
  ghost predicate InStep(v: View, headers: seq<Header>, ingress: seq<u16>) {
    && Sum(v.increments) == NB_FRAME_SAMPLES * |headers| && |v.increments| == |headers|
    && v.ingress == ingress && v.marks == NowsOf(headers) && v.rotations == []
  }

  /** The packet the egress makes next. */
  lemma NextInStep(start: Start, v: View, headers: seq<Header>, ingress: seq<u16>, payload: Payload, now: int)
    requires InStep(v, headers, ingress)
    ensures var header := Header(NumberOf(start.sequence, |headers|, ingress), now);
            var stamp := StampAt(start, v);
            && PacketAt(start, headers + [header], |headers|, payload)
               == RtpPacket(0, StartsTalkspurt(Last(v.marks), now), stamp.sequence, stamp.timestamp, stamp.ssrc, payload)
            && InStep(v.After(Marked(now)).After(Issued(NB_FRAME_SAMPLES)), headers + [header], ingress)
  {
    SkippedIsSkips(ingress);
    SumSnoc(v.increments, NB_FRAME_SAMPLES);
    var header := Header(NumberOf(start.sequence, |headers|, ingress), now);
    assert NowsOf(headers + [header]) == NowsOf(headers) + [now];
    hide Sum;
    hide Skipped;
    hide Skips;
  }

  lemma InStepRecorded(v: View, headers: seq<Header>, ingress: seq<u16>, sent: Sent)
    requires InStep(v, headers, ingress)
    ensures InStep(v.After(Recorded(sent)), headers, ingress)
  {
  }

  lemma InStepNoted(v: View, headers: seq<Header>, ingress: seq<u16>, x: u16)
    requires InStep(v, headers, ingress)
    ensures InStep(v.After(Noted(x)), headers, ingress + [x])
  {
  }

  /** The media task is between packets, and its egress stands where `InStep` says. */
  ghost predicate Standing(task: EgressTask, headers: seq<Header>, ingress: seq<u16>)
    reads task, task.egress
  {
    && task.Valid() && task.phase == Idle && task.payloadType == 0 && task.increment == NB_FRAME_SAMPLES
    && InStep(ViewOf(task.egress.history), headers, ingress)
  }

  /** One turn of the send loop: number a packet, then send and record it, or fail. */
  method SendChunk(
    task: EgressTask, payload: Payload, succeeds: bool, now: int, ntp: Ntp,
    ghost headers: seq<Header>, ghost ingress: seq<u16>)
    requires Standing(task, headers, ingress)
    modifies task, task.egress
    ensures var header := Header(NumberOf(task.egress.start.sequence, |headers|, ingress), now);
            && Standing(task, headers + [header], ingress)
            && task.wire == if succeeds
               then old(task.wire) + [PacketAt(task.egress.start, headers + [header], |headers|, payload)]
               else old(task.wire)
  {
    ghost var h, v, start := task.egress.history, ViewOf(task.egress.history), task.egress.start;
    ghost var header := Header(NumberOf(start.sequence, |headers|, ingress), now);
    NextInStep(start, v, headers, ingress, payload, now);
    assert NextPacket(task.Fixed(), h, payload, now) == PacketAt(start, headers + [header], |headers|, payload);
    hide ViewOf;
    hide InStep;
    hide NextPacket;
    hide PacketAt;
    hide NumberOf;
    hide StampAt;
    hide EgressTask.Valid;
    Snoc(h, Marked(now));
    Snoc(h + [Marked(now)], Issued(NB_FRAME_SAMPLES));
    assert (h + [Marked(now)]) + [Issued(NB_FRAME_SAMPLES)] == h + [Marked(now), Issued(NB_FRAME_SAMPLES)];
    task.Issue(payload, now);
    SendOne(task, succeeds, ntp);
    if succeeds {
      ghost var p := PacketAt(start, headers + [header], |headers|, payload);
      ghost var sent := Sent(|p.payload|, p.timestamp, ntp);
      Snoc(h + [Marked(now), Issued(NB_FRAME_SAMPLES)], Recorded(sent));
      InStepRecorded(ViewOf(h + [Marked(now), Issued(NB_FRAME_SAMPLES)]), headers + [header], ingress, sent);
    }
  }

  /** The chunks of one push leave in order until a send fails, which abandons the rest. */
  method SendChunks(task: EgressTask, chunks: seq<Payload>, d: Decoded, ghost headers: seq<Header>, ghost ingress: seq<u16>)
    requires Standing(task, headers, ingress)
    modifies task, task.egress
    ensures var tried := if |chunks| <= d.sends then |chunks| else d.sends + 1;
            var batch := Batch(task.egress.start.sequence, |headers|, ingress, d, tried);
            && Standing(task, headers + batch, ingress)
            && |task.wire| == |old(task.wire)| + (if |chunks| <= d.sends then |chunks| else d.sends)
            && task.wire[..|old(task.wire)|] == old(task.wire)
            && Chunked(task.wire[|old(task.wire)|..], chunks, headers + batch, task.egress.start, |headers|)
  {
    hide Standing;
    hide PacketAt;
    hide NumberOf;
    hide Batch;
    hide Reading;
    ghost var n, start := |task.wire|, task.egress.start;
    ghost var batch := Batch(start.sequence, |headers|, ingress, d, 0);
    assert headers + batch == headers;
    for k := 0 to |chunks|
      invariant k <= d.sends && batch == Batch(start.sequence, |headers|, ingress, d, k)
      invariant Standing(task, headers + batch, ingress)
      invariant |task.wire| == n + k && task.wire[..n] == old(task.wire)
      invariant Chunked(task.wire[n..], chunks, headers + batch, start, |headers|)
    {
      BatchNext(start.sequence, |headers|, ingress, d, k);
      ghost var header := Header(NumberOf(start.sequence, |headers| + k, ingress), Reading(d, k));
      assert headers + (batch + [header]) == headers + batch + [header];
      ChunkedNext(task.wire[n..], chunks, headers + batch, header, start, |headers|);
      SendChunk(task, chunks[k], k < d.sends, Reading(d, k), d.ntp, headers + batch, ingress);
      batch := batch + [header];
      if k == d.sends {
        return;
      }
    }
  }

  lemma ChunkedNext(
    more: seq<RtpPacket>, chunks: seq<Payload>, headers: seq<Header>, header: Header, start: Start, n: nat)
    requires Chunked(more, chunks, headers, start, n) && n + |more| == |headers| && |more| < |chunks|
    ensures Chunked(more, chunks, headers + [header], start, n)
    ensures Chunked(more + [PacketAt(start, headers + [header], |headers|, chunks[|more|])], chunks, headers + [header], start, n)
  {
    forall j | 0 <= j < |more|
      ensures PacketAt(start, headers + [header], n + j, chunks[j]) == PacketAt(start, headers, n + j, chunks[j])
    {
      PacketStays(start, headers, [header], n + j, chunks[j]);
    }
    hide PacketAt;
  }

  method NoteOne(task: EgressTask, x: u16, ghost headers: seq<Header>, ghost ingress: seq<u16>)
    requires Standing(task, headers, ingress)
    modifies task.egress
    ensures Standing(task, headers, ingress + [x])
  {
    hide InStep;
    hide ViewOf;
    hide EgressTask.Valid;
    Snoc(task.egress.history, Noted(x));
    InStepNoted(ViewOf(task.egress.history), headers, ingress, x);
    task.NoteIngress(x);
  }

  /** Drained frames are behind, and the rest of the stream is in the buffer. */
  ghost predicate Aligned(buf: Samples, fed: seq<Samples>, stream: Samples, drained: nat) {
    && drained <= |Frames(stream)|
    && fed == Frames(stream)[..drained]
    && Frames(buf) == Frames(stream)[drained..]
    && Tail(buf) == Tail(stream)
  }

  /** A push sees exactly the frames of the stream that have not been drained. */
  lemma PushSees(buf: Samples, fed: seq<Samples>, stream: Samples, drained: nat, more: Samples)
    requires Aligned(buf, fed, stream, drained)
    ensures drained <= |Frames(stream + more)| && Frames(stream + more)[..drained] == fed
    ensures Frames(buf + more) == Frames(stream + more)[drained..]
    ensures Tail(buf + more) == Tail(stream + more)
  {
    FramesAppend(buf, more);
    FramesAppend(stream, more);
  }

  /** Encoding frame `i` of the rest of a stream is encoding frame `drained + i` of the stream. */
  lemma PayloadOfStream(codec: Codec, frames: seq<Samples>, drained: nat, i: nat)
    requires drained + i < |frames|
    ensures PayloadAt(codec, frames[..drained], frames[drained..], i) == PayloadAt(codec, [], frames, drained + i)
  {
    assert frames[..drained] + frames[drained..][..i + 1] == [] + frames[..drained + i + 1];
  }

  lemma AfterSuccess(
    down: Downsampler, pushed: seq<Decoded>, drained: nat, buf: Samples, stream: Samples, frames: seq<Samples>,
    chunks: seq<Payload>)
    requires stream == Stream(pushed) && frames == Frames(stream) && drained <= |frames|
    requires buf == Tail(stream) && down.fed == frames[..drained] + frames[drained..]
    requires |chunks| == |frames[drained..]| && Encoded(down.codec, frames[..drained], frames[drained..], chunks)
    ensures |Payloads(down.codec, pushed)| == |frames|
    ensures Pushed(Payloads(down.codec, pushed), drained, Ok(chunks), buf, down.fed, stream)
  {
    forall i | drained <= i < |frames|
      ensures Payloads(down.codec, pushed)[i] == Some(chunks[i - drained])
    {
      PayloadOfStream(down.codec, frames, drained, i - drained);
    }
    FirstBadIs(Payloads(down.codec, pushed), drained, |frames|);
    assert down.fed == frames[..|frames|];
  }

  /** The push failed on frame `k` of the frames it saw. */
  ghost predicate FailedOn(down: Downsampler, frames: seq<Samples>, drained: nat, buf: Samples, stream: Samples, k: nat)
    requires drained <= |frames|
    reads down
  {
    && FailsAt(down.codec, frames[..drained], frames[drained..], k)
    && down.fed == frames[..drained] + frames[drained..][..k + 1]
    && Frames(buf) == frames[drained..][k + 1..] && Tail(buf) == Tail(stream)
  }

  lemma FailedOnFrame(
    down: Downsampler, pushed: seq<Decoded>, drained: nat, buf: Samples, stream: Samples, frames: seq<Samples>, k: nat)
    requires stream == Stream(pushed) && frames == Frames(stream) && drained <= |frames|
    requires FailedOn(down, frames, drained, buf, stream, k)
    ensures |Payloads(down.codec, pushed)| == |frames|
    ensures Pushed(Payloads(down.codec, pushed), drained, Err(""), buf, down.fed, stream)
  {
    forall i | drained <= i <= drained + k
      ensures Payloads(down.codec, pushed)[i].None? <==> i == drained + k
    {
      PayloadOfStream(down.codec, frames, drained, i - drained);
    }
    FirstBadIs(Payloads(down.codec, pushed), drained, drained + k);
    assert down.fed == frames[..drained + k + 1] && Frames(buf) == frames[drained + k + 1..];
  }

  lemma AfterFailure(
    down: Downsampler, pushed: seq<Decoded>, drained: nat, buf: Samples, stream: Samples, frames: seq<Samples>)
    requires stream == Stream(pushed) && frames == Frames(stream) && drained <= |frames|
    requires exists k: nat :: FailsAt(down.codec, frames[..drained], frames[drained..], k)
               && down.fed == frames[..drained] + frames[drained..][..k + 1]
               && Frames(buf) == frames[drained..][k + 1..]
               && Tail(buf) == Tail(stream)
    ensures |Payloads(down.codec, pushed)| == |frames|
    ensures forall error :: Pushed(Payloads(down.codec, pushed), drained, Err(error), buf, down.fed, stream)
  {
    var k: nat :| FailsAt(down.codec, frames[..drained], frames[drained..], k)
                  && down.fed == frames[..drained] + frames[drained..][..k + 1]
                  && Frames(buf) == frames[drained..][k + 1..]
                  && Tail(buf) == Tail(stream);
    FailedOnFrame(down, pushed, drained, buf, stream, frames, k);
    hide Payloads;
    hide Aligned;
    hide FirstBad;
    hide Encodes;
  }

  /** What a push leaves: everything drained, or everything up to the first frame that cannot be encoded. */
  ghost predicate Pushed(
    payloads: seq<Option<Payload>>, drained: nat, chunks: Result<seq<Payload>>,
    buf: Samples, fed: seq<Samples>, stream: Samples)
    requires drained <= |payloads|
  {
    var bad := FirstBad(payloads, drained);
    && (chunks.Ok? <==> bad == |payloads|)
    && (chunks.Ok? ==> Encodes(payloads, drained, chunks.value))
    && Aligned(buf, fed, stream, if bad < |payloads| then bad + 1 else |payloads|)
  }

  method PushDecoded(accum: OpusToPcmuAccum, down: Downsampler, d: Decoded, ghost pushed: seq<Decoded>, ghost drained: nat)
    returns (chunks: Result<seq<Payload>>)
    requires Aligned(accum.buf, down.fed, Stream(pushed), drained)
    modifies accum, down
    ensures drained <= |Payloads(down.codec, pushed + [d])|
    ensures Pushed(
      Payloads(down.codec, pushed + [d]), drained, chunks, accum.buf, down.fed, Stream(pushed + [d]))
  {
    hide *;
    ghost var stream, frames := Stream(pushed + [d]), Frames(Stream(pushed + [d]));
    StreamGrows(pushed, d);
    PushSees(accum.buf, down.fed, Stream(pushed), drained, d.samples);
    chunks := accum.Push(d.samples, down);
    if chunks.Err? {
      AfterFailure(down, pushed + [d], drained, accum.buf, stream, frames);
    } else {
      AfterSuccess(down, pushed + [d], drained, accum.buf, stream, frames, chunks.value);
    }
  }

  /** The headers after one more push that got to `p'`. */
  ghost function HeadersNext(
    headers: seq<Header>, sequence: u16, ingress: seq<u16>, d: Decoded, p: Progress, p': Progress): seq<Header>
    requires |p.numbered| <= |p'.numbered|
  {
    headers + Batch(sequence, |p.numbered|, ingress, d, |p'.numbered| - |p.numbered|)
  }

  lemma AdvancedCounts(payloads: seq<Option<Payload>>, p: Progress, d: Decoded)
    requires p.drained <= |payloads|
    ensures var p', batch := Advanced(payloads, p, d), |payloads| - p.drained;
            var numbers := d.samples != [] && FirstBad(payloads, p.drained) == |payloads|;
            && |p.numbered| <= |p'.numbered|
            && (numbers ==> p' == Progress(
                  |payloads|, p.numbered + Range(p.drained, Attempted(d, batch)),
                  p.sent + Range(|p.numbered|, Delivered(d, batch))))
            && (!numbers ==> p'.numbered == p.numbered && p'.sent == p.sent)
            && (numbers && Attempted(d, batch) == 0 ==> p'.numbered == p.numbered && p'.sent == p.sent)
  {
    assert p.numbered + Range(p.drained, 0) == p.numbered && p.sent + Range(|p.numbered|, 0) == p.sent;
    hide FirstBad;
  }

  lemma NoneNext(headers: seq<Header>, sequence: u16, ingress: seq<u16>, d: Decoded, p: Progress, p': Progress)
    requires p'.numbered == p.numbered
    ensures HeadersNext(headers, sequence, ingress, d, p, p') == headers
  {
  }

  /** From the chunks of a push to the wire: nothing after a failed push or without a peer. */
  method SendDecoded(
    task: EgressTask, chunks: Result<seq<Payload>>, d: Decoded, ghost payloads: seq<Option<Payload>>,
    ghost p: Progress, ghost headers: seq<Header>, ghost ingress: seq<u16>)
    requires p.drained <= |payloads| && d.samples != [] && |headers| == |p.numbered|
    requires Standing(task, headers, ingress) && Carries(payloads, p, headers, task.wire, task.egress.start)
    requires chunks.Ok? <==> FirstBad(payloads, p.drained) == |payloads|
    requires chunks.Ok? ==> Encodes(payloads, p.drained, chunks.value)
    modifies task, task.egress
    ensures |p.numbered| <= |Advanced(payloads, p, d).numbered|
    ensures var p' := Advanced(payloads, p, d);
            var headers' := HeadersNext(headers, task.egress.start.sequence, ingress, d, p, p');
            Standing(task, headers', ingress) && Carries(payloads, p', headers', task.wire, task.egress.start)
  {
    ghost var wire, start := task.wire, task.egress.start;
    if chunks.Err? {
      NothingSent(task, chunks, d, payloads, p, headers, ingress);
      return;
    }
    if chunks.value == [] || !d.peerKnown {
      NothingSent(task, chunks, d, payloads, p, headers, ingress);
      return;
    }
    hide *;
    SendChunks(task, chunks.value, d, headers, ingress);
    BatchSent(task.wire, wire, start, chunks.value, d, payloads, p, headers, ingress);
  }

  lemma NothingSent(
    task: EgressTask, chunks: Result<seq<Payload>>, d: Decoded, payloads: seq<Option<Payload>>,
    p: Progress, headers: seq<Header>, ingress: seq<u16>)
    requires p.drained <= |payloads| && d.samples != [] && |headers| == |p.numbered|
    requires Carries(payloads, p, headers, task.wire, task.egress.start)
    requires chunks.Ok? <==> FirstBad(payloads, p.drained) == |payloads|
    requires chunks.Ok? ==> Encodes(payloads, p.drained, chunks.value) && (chunks.value == [] || !d.peerKnown)
    ensures |p.numbered| <= |Advanced(payloads, p, d).numbered|
    ensures var p' := Advanced(payloads, p, d);
            && HeadersNext(headers, task.egress.start.sequence, ingress, d, p, p') == headers
            && Carries(payloads, p', headers, task.wire, task.egress.start)
  {
    var p' := Advanced(payloads, p, d);
    AdvancedCounts(payloads, p, d);
    CarriesLater(payloads, p, headers, task.wire, task.egress.start, payloads, p'.drained);
    hide Carries;
    hide FirstBad;
    hide Advanced;
    hide HeadersNext;
    assert p'.numbered == p.numbered && p'.sent == p.sent;
    NoneNext(headers, task.egress.start.sequence, ingress, d, p, p');
  }

  lemma BatchSent(
    wire': seq<RtpPacket>, wire: seq<RtpPacket>, start: Start, chunks: seq<Payload>, d: Decoded,
    payloads: seq<Option<Payload>>, p: Progress, headers: seq<Header>, ingress: seq<u16>)
    requires p.drained <= |payloads| && d.samples != [] && |headers| == |p.numbered|
    requires Carries(payloads, p, headers, wire, start)
    requires FirstBad(payloads, p.drained) == |payloads| && Encodes(payloads, p.drained, chunks) && d.peerKnown
    requires var tried := if |chunks| <= d.sends then |chunks| else d.sends + 1;
             && |wire'| == |wire| + (if |chunks| <= d.sends then |chunks| else d.sends)
             && wire'[..|wire|] == wire
             && Chunked(
                  wire'[|wire|..], chunks, headers + Batch(start.sequence, |headers|, ingress, d, tried), start, |headers|)
    ensures |p.numbered| <= |Advanced(payloads, p, d).numbered|
    ensures var p' := Advanced(payloads, p, d);
            var tried := if |chunks| <= d.sends then |chunks| else d.sends + 1;
            && HeadersNext(headers, start.sequence, ingress, d, p, p')
               == headers + Batch(start.sequence, |headers|, ingress, d, tried)
            && Carries(payloads, p', HeadersNext(headers, start.sequence, ingress, d, p, p'), wire', start)
  {
    assert |chunks| == |payloads| - p.drained;
    hide Carries;
    hide Chunked;
    hide FirstBad;
    hide Advanced;
    hide Encodes;
    hide Range;
    hide NumberOf;
    hide Reading;
    var batch := Batch(start.sequence, |headers|, ingress, d, Attempted(d, |chunks|));
    AdvancedCounts(payloads, p, d);
    TakeDrop(wire', |wire|);
    CarriesBatch(payloads, p, headers, batch, wire, start, chunks, wire'[|wire|..]);
  }

  /** After `pushed` the task, the wire and the buffer stand where `ProgressAfter` and `Headers` say. */
  ghost predicate Streaming(task: EgressTask, accum: OpusToPcmuAccum, down: Downsampler, pushed: seq<Decoded>)
    reads task, task.egress, accum, down
  {
    var p, headers := ProgressAfter(down.codec, pushed), Headers(down.codec, task.egress.start.sequence, pushed);
    && Standing(task, headers, NotedIngress(pushed))
    && Carries(Payloads(down.codec, pushed), p, headers, task.wire, task.egress.start)
    && Aligned(accum.buf, down.fed, Stream(pushed), p.drained)
  }

  lemma StreamingSilence(
    task: EgressTask, accum: OpusToPcmuAccum, down: Downsampler, d: Decoded, pushed: seq<Decoded>)
    requires Streaming(task, accum, down, pushed) && d.samples == []
    ensures Streaming(task, accum, down, pushed + [d])
  {
    hide Standing;
    hide Carries;
    hide Aligned;
    hide ProgressAfter;
    hide Payloads;
    hide Stream;
    hide NotedIngress;
    hide Headers;
    hide FirstBad;
    ProgressSnoc(down.codec, pushed, d);
    PayloadsGrow(down.codec, pushed, d);
    StreamGrows(pushed, d);
    NotedSnoc(pushed, d);
    HeadersSnoc(down.codec, task.egress.start.sequence, pushed, d);
    assert ProgressAfter(down.codec, pushed + [d]) == ProgressAfter(down.codec, pushed);
    assert Headers(down.codec, task.egress.start.sequence, pushed + [d])
        == Headers(down.codec, task.egress.start.sequence, pushed);
  }

  method RelayDecoded(
    task: EgressTask, accum: OpusToPcmuAccum, down: Downsampler, d: Decoded, ghost pushed: seq<Decoded>)
    requires Streaming(task, accum, down, pushed)
    modifies task, task.egress, accum, down
    ensures Streaming(task, accum, down, pushed + [d])
  {
    if d.samples == [] {
      StreamingSilence(task, accum, down, d, pushed);
      return;
    }
    NextPush(task, accum, down, d, pushed);
    ghost var p, payloads := ProgressAfter(down.codec, pushed), Payloads(down.codec, pushed + [d]);
    ghost var headers := Headers(down.codec, task.egress.start.sequence, pushed);
    ghost var ingress := NotedIngress(pushed);
    hide *;
    NoteOne(task, d.ingress, headers, ingress);
    var chunks := PushDecoded(accum, down, d, pushed, p.drained);
    PushedMeans(payloads, p, d, chunks, accum.buf, down.fed, Stream(pushed + [d]));
    SendDecoded(task, chunks, d, payloads, p, headers, ingress + [d.ingress]);
    StreamingAgain(task, accum, down, pushed + [d]);
  }

  /** What is known before a packet with samples is handled, and what it will lead to. */
  lemma NextPush(task: EgressTask, accum: OpusToPcmuAccum, down: Downsampler, d: Decoded, pushed: seq<Decoded>)
    requires Streaming(task, accum, down, pushed) && d.samples != []
    ensures var p, payloads := ProgressAfter(down.codec, pushed), Payloads(down.codec, pushed + [d]);
            var sequence := task.egress.start.sequence;
            var headers, ingress := Headers(down.codec, sequence, pushed), NotedIngress(pushed);
            && p.drained <= |payloads| && |headers| == |p.numbered| <= |Advanced(payloads, p, d).numbered|
            && Standing(task, headers, ingress) && Aligned(accum.buf, down.fed, Stream(pushed), p.drained)
            && Carries(payloads, p, headers, task.wire, task.egress.start)
            && ProgressAfter(down.codec, pushed + [d]) == Advanced(payloads, p, d)
            && NotedIngress(pushed + [d]) == ingress + [d.ingress]
            && Headers(down.codec, sequence, pushed + [d])
               == HeadersNext(headers, sequence, ingress + [d.ingress], d, p, Advanced(payloads, p, d))
  {
    hide Standing;
    hide Aligned;
    hide Carries;
    hide ProgressAfter;
    hide Payloads;
    hide Stream;
    hide NotedIngress;
    hide Headers;
    hide Advanced;
    hide Batch;
    var p := ProgressAfter(down.codec, pushed);
    ProgressSnoc(down.codec, pushed, d);
    HeadersSnoc(down.codec, task.egress.start.sequence, pushed, d);
    NotedSnoc(pushed, d);
    CarriesLater(
      Payloads(down.codec, pushed), p, Headers(down.codec, task.egress.start.sequence, pushed), task.wire,
      task.egress.start, Payloads(down.codec, pushed + [d]), p.drained);
  }

  lemma PushedMeans(
    payloads: seq<Option<Payload>>, p: Progress, d: Decoded, chunks: Result<seq<Payload>>,
    buf: Samples, fed: seq<Samples>, stream: Samples)
    requires p.drained <= |payloads| && d.samples != []
    requires Pushed(payloads, p.drained, chunks, buf, fed, stream)
    ensures chunks.Ok? <==> FirstBad(payloads, p.drained) == |payloads|
    ensures chunks.Ok? ==> Encodes(payloads, p.drained, chunks.value)
    ensures Aligned(buf, fed, stream, Advanced(payloads, p, d).drained)
  {
    hide Aligned;
    hide Encodes;
    hide FirstBad;
  }

  lemma StreamingAgain(task: EgressTask, accum: OpusToPcmuAccum, down: Downsampler, pushed: seq<Decoded>)
    requires var p, headers := ProgressAfter(down.codec, pushed), Headers(down.codec, task.egress.start.sequence, pushed);
             && Standing(task, headers, NotedIngress(pushed))
             && Carries(Payloads(down.codec, pushed), p, headers, task.wire, task.egress.start)
             && Aligned(accum.buf, down.fed, Stream(pushed), p.drained)
    ensures Streaming(task, accum, down, pushed)
  {
  }

  lemma StreamingFromScratch(task: EgressTask, accum: OpusToPcmuAccum, down: Downsampler)
    requires task.Valid() && task.phase == Idle && task.payloadType == 0 && task.increment == NB_FRAME_SAMPLES
    requires task.wire == [] && task.egress.history == [] && accum.buf == [] && down.fed == []
    ensures Streaming(task, accum, down, [])
  {
  }

  /** Packet `j` of the wire, field by field. It is packet number `i` of the run: `i` frames of timestamp
      after the start, and a marker at the start and after a pause of 30 ms. */
  ghost predicate InFull(
    codec: Codec, pushes: seq<Decoded>, start: Start, packet: RtpPacket, i: nat)
  {
    var p, payloads, headers := ProgressAfter(codec, pushes), Payloads(codec, pushes), Headers(codec, start.sequence, pushes);
    && i < |p.numbered| && p.numbered[i] < |payloads|
    && packet.payloadType == 0 && packet.ssrc == start.ssrc
    && packet.timestamp == (start.timestamp + 160 * i) % 0x1_0000_0000
    && packet.sequence == headers[i].sequence
    && (packet.marker <==> i == 0 || headers[i].now - headers[i - 1].now >= 30_000_000)
    && payloads[p.numbered[i]] == Some(packet.payload)
  }

  lemma CarriesInFull(codec: Codec, pushes: seq<Decoded>, start: Start, wire: seq<RtpPacket>, j: nat)
    requires Carries(
      Payloads(codec, pushes), ProgressAfter(codec, pushes), Headers(codec, start.sequence, pushes), wire, start)
    requires j < |wire|
    ensures |wire| == |ProgressAfter(codec, pushes).sent|
    ensures InFull(codec, pushes, start, wire[j], ProgressAfter(codec, pushes).sent[j])
  {
    hide ProgressAfter;
    hide Payloads;
    hide Headers;
    var p := ProgressAfter(codec, pushes);
    assert CarriesAt(
      Payloads(codec, pushes), p.numbered, Headers(codec, start.sequence, pushes), wire[j], start, p.sent[j]);
  }

  /** The clock and the number of a packet, read off the pushes: packet `i`, numbered by push `k`. */
  ghost predicate NumberedAs(codec: Codec, pushes: seq<Decoded>, start: Start, packet: RtpPacket, k: nat, i: nat)
    requires k < |pushes|
  {
    |ProgressAt(codec, pushes, k).numbered| <= i < |ProgressAt(codec, pushes, k + 1).numbered| ==>
      packet.sequence == (start.sequence + i + Skipped(NotedIngress(pushes[..k + 1]))) % 0x1_0000
  }

  /** Whatever lengths the Opus packets have and whatever fails, the wire holds exactly the packets that
      `ProgressAfter` says were sent, each a frame of the one uncut stream and each given in full. The
      number of a packet is the start, plus the packets numbered before it, plus what the ingress
      numbers up to its push skipped, modulo 2^16. */
  method RelayWebToNgn(codec: Codec, ssrc: u32, sequence: u16, timestamp: u32, pushes: seq<Decoded>)
    returns (wire: seq<RtpPacket>)
    ensures |wire| == |ProgressAfter(codec, pushes).sent|
    ensures Carries(
      Payloads(codec, pushes), ProgressAfter(codec, pushes), Headers(codec, sequence, pushes), wire,
      Start(ssrc, sequence, timestamp, 8000))
    ensures forall j :: 0 <= j < |wire| ==>
      InFull(codec, pushes, Start(ssrc, sequence, timestamp, 8000), wire[j], ProgressAfter(codec, pushes).sent[j])
    ensures forall j, k :: 0 <= j < |wire| && 0 <= k < |pushes| ==>
      NumberedAs(codec, pushes, Start(ssrc, sequence, timestamp, 8000), wire[j], k, ProgressAfter(codec, pushes).sent[j])
  {
    var task := new EgressTask(0, NB_FRAME_SAMPLES, 8000, ssrc, sequence, timestamp);
    var accum := new OpusToPcmuAccum();
    var down := new Downsampler(codec);
    hide EgressTask.Valid;
    StreamingFromScratch(task, accum, down);
    for k := 0 to |pushes|
      invariant fresh(task) && fresh(task.egress) && fresh(accum) && fresh(down)
      invariant down.codec == codec && task.egress.start == Start(ssrc, sequence, timestamp, 8000)
      invariant Streaming(task, accum, down, pushes[..k])
    {
      hide Streaming;
      TakeNext(pushes, k);
      RelayDecoded(task, accum, down, pushes[k], pushes[..k]);
    }
    assert pushes[..|pushes|] == pushes;
    wire := task.wire;
    hide *;
    StreamingMeans(task, accum, down, pushes);
  }

  lemma StreamingMeans(task: EgressTask, accum: OpusToPcmuAccum, down: Downsampler, pushes: seq<Decoded>)
    requires Streaming(task, accum, down, pushes)
    ensures var codec, start, p := down.codec, task.egress.start, ProgressAfter(down.codec, pushes);
            && |task.wire| == |p.sent|
            && Carries(Payloads(codec, pushes), p, Headers(codec, start.sequence, pushes), task.wire, start)
            && (forall j :: 0 <= j < |task.wire| ==> InFull(codec, pushes, start, task.wire[j], p.sent[j]))
            && (forall j, k :: 0 <= j < |task.wire| && 0 <= k < |pushes| ==>
                  NumberedAs(codec, pushes, start, task.wire[j], k, p.sent[j]))
  {
    var codec, start, p := down.codec, task.egress.start, ProgressAfter(down.codec, pushes);
    forall j | 0 <= j < |task.wire|
      ensures InFull(codec, pushes, start, task.wire[j], p.sent[j])
      ensures forall k :: 0 <= k < |pushes| ==> NumberedAs(codec, pushes, start, task.wire[j], k, p.sent[j])
    {
      CarriesInFull(codec, pushes, start, task.wire, j);
      forall k | 0 <= k < |pushes|
        ensures NumberedAs(codec, pushes, start, task.wire[j], k, p.sent[j])
      {
        NumberedAsPushed(codec, pushes, start, task.wire[j], k, p.sent[j]);
      }
    }
    hide InFull;
    hide NumberedAs;
    hide Standing;
    hide Aligned;
    hide ProgressAfter;
    hide Headers;
    hide Payloads;
  }

  lemma NumberedAsPushed(codec: Codec, pushes: seq<Decoded>, start: Start, packet: RtpPacket, k: nat, i: nat)
    requires k < |pushes| && InFull(codec, pushes, start, packet, i)
    ensures NumberedAs(codec, pushes, start, packet, k, i)
  {
    hide ProgressAt;
    hide ProgressAfter;
    hide Headers;
    hide Payloads;
    hide Skipped;
    hide NotedIngress;
    hide NumberOf;
    if |ProgressAt(codec, pushes, k).numbered| <= i < |ProgressAt(codec, pushes, k + 1).numbered| {
      HeaderBy(codec, start.sequence, pushes, k, i);
      NumberIs(start.sequence, i, NotedIngress(pushes[..k + 1]));
    }
  }

  lemma NumberIs(sequence: u16, i: nat, ingress: seq<u16>)
    ensures NumberOf(sequence, i, ingress) == (sequence + i + Skipped(ingress)) % 0x1_0000
  {
  }
}
