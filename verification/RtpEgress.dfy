/** `RtpEgressState`: the numbering, talkspurt marker, SSRC and sender statistics of one outgoing RTP stream. */
module RtpEgress {
  import opened Prelude

  const MAX_INGRESS_GAP: nat := 100
  const TALKSPURT_GAP_THRESHOLD: nat := 30_000_000  // nanoseconds

  /** NTP time as one unsigned 32.32 fixed-point number. */
  type Ntp = u64

  /** What has been done to an egress, in order. `Rotated` is recorded only when the SSRC changed. */
  datatype Event =
    | Noted(ingress: u16)
    | Marked(now: int)
    | Issued(increment: u32)
    | Rotated(ssrc: u32)
    | Recorded(sent: Sent)

  /** One packet the caller reports as sent: its payload length, its timestamp, the clock reading. */
  datatype Sent = Sent(octets: nat, timestamp: u32, ntp: Ntp)

  datatype Start = Start(ssrc: u32, sequence: u16, timestamp: u32, rate: u32)

  datatype Stamp = Stamp(sequence: u16, timestamp: u32, ssrc: u32)

  datatype SenderReport = SenderReport(ssrc: u32, ntp: Ntp, rtpTimestamp: u32, packetCount: u32, octetCount: u32)

  // ---- histories -------------------------------------------------------

  /** A history sorted by kind: ingress numbers, talkspurt clock readings, timestamp increments,
      new SSRCs, and the packets reported as sent. */
  datatype View = View(
    ingress: seq<u16>, marks: seq<int>, increments: seq<nat>, rotations: seq<u32>, log: seq<Sent>)
  {
    function After(e: Event): View {
      match e
      case Noted(n) => this.(ingress := ingress + [n])
      case Marked(t) => this.(marks := marks + [t])
      case Issued(n) => this.(increments := increments + [n])
      case Rotated(s) => this.(rotations := rotations + [s])
      case Recorded(s) => this.(log := log + [s])
    }
  }

  ghost function ViewOf(h: seq<Event>): View {
    if h == [] then View([], [], [], [], []) else ViewOf(h[..|h| - 1]).After(h[|h| - 1])
  }

  lemma Snoc(h: seq<Event>, e: Event)
    ensures ViewOf(h + [e]) == ViewOf(h).After(e)
  {
    assert (h + [e])[..|h|] == h;
  }

  /** The packet issued at `now` is the first one, or at least 30 ms after the one before. */
  ghost predicate StartsTalkspurt(last: Option<int>, now: int) {
    last.None? || now - last.value >= TALKSPURT_GAP_THRESHOLD
  }

  // ---- ingress gaps ----------------------------------------------------

  /** The step that one ingress packet causes, clamped to `1..100`. */
  function Gap(prev: u16, cur: u16): (g: nat)
    ensures 1 <= g <= 100
    ensures g == (cur - prev) % 0x1_0000 <==> 1 <= (cur - prev) % 0x1_0000 <= 100
    ensures cur != prev && g != (cur - prev) % 0x1_0000 ==> g == 100
    ensures cur == prev ==> g == 1
  {
    var raw: nat := Ahead16(prev, cur);
    if raw == 0 then 1 else if raw > MAX_INGRESS_GAP then MAX_INGRESS_GAP else raw
  }

  /** Sequence numbers skipped because of the ingress numbers seen so far. */
  ghost function Skips(ingress: seq<u16>): nat {
    if |ingress| < 2 then 0
    else Skips(ingress[..|ingress| - 1]) + Gap(ingress[|ingress| - 2], ingress[|ingress| - 1]) - 1
  }

  // ---- the closed forms ------------------------------------------------

  /** One number per issued packet, plus the numbers skipped. */
  ghost function SequenceAt(start: Start, issued: nat, ingress: seq<u16>): u16 {
    Wrapping16(start.sequence, issued + Skips(ingress))
  }

  ghost function TimestampAt(start: Start, increments: seq<nat>): u32 {
    Wrapping32(start.timestamp, Sum(increments))
  }

  ghost function SsrcAt(start: Start, rotations: seq<u32>): u32 {
    if rotations == [] then start.ssrc else rotations[|rotations| - 1]
  }

  ghost function StampAt(start: Start, v: View): Stamp {
    Stamp(SequenceAt(start, |v.increments|, v.ingress), TimestampAt(start, v.increments), SsrcAt(start, v.rotations))
  }

  ghost function Octets(log: seq<Sent>): nat {
    if log == [] then 0 else Octets(log[..|log| - 1]) + log[|log| - 1].octets
  }

  ghost function AnchorOf(log: seq<Sent>): Option<(Ntp, u32)> {
    if log == [] then None else Some((log[0].ntp, log[0].timestamp))
  }

  lemma SkipsSnoc(ingress: seq<u16>, n: u16)
    ensures Skips(ingress + [n])
         == Skips(ingress) + (if ingress == [] then 0 else Gap(ingress[|ingress| - 1], n) - 1)
  {
    assert (ingress + [n])[..|ingress|] == ingress;
  }

  lemma AfterNoted(start: Start, issued: nat, ingress: seq<u16>, n: u16)
    ensures SequenceAt(start, issued, ingress + [n])
         == Wrapping16(SequenceAt(start, issued, ingress), if ingress == [] then 0 else Gap(ingress[|ingress| - 1], n) - 1)
  {
    hide Gap;
    hide Wrapping16;
    SkipsSnoc(ingress, n);
    Wrapping16Twice(start.sequence, issued + Skips(ingress), Skips(ingress + [n]) - Skips(ingress));
  }

  lemma AfterIssued(start: Start, increments: seq<nat>, ingress: seq<u16>, n: u32)
    ensures SequenceAt(start, |increments + [n]|, ingress) == Wrapping16(SequenceAt(start, |increments|, ingress), 1)
    ensures TimestampAt(start, increments + [n]) == Wrapping32(TimestampAt(start, increments), n)
  {
    hide Wrapping16;
    hide Wrapping32;
    hide Skips;
    SumSnoc(increments, n);
    Wrapping16Twice(start.sequence, |increments| + Skips(ingress), 1);
    Wrapping32Twice(start.timestamp, Sum(increments), n);
  }

  lemma AfterRecorded(log: seq<Sent>, sent: Sent)
    ensures Saturate64(|log + [sent]|) == Saturate64(Saturate64(|log|) + 1)
    ensures Saturate64(Octets(log + [sent])) == Saturate64(Saturate64(Octets(log)) + sent.octets)
    ensures AnchorOf(log + [sent]) == if log == [] then Some((sent.ntp, sent.timestamp)) else AnchorOf(log)
  {
    assert (log + [sent])[..|log|] == log;
  }

  /** The random source eventually offers another value: without this the redraw loop need not end. */
  predicate HasOther(draws: seq<u32>, taken: u32) {
    exists i :: 0 <= i < |draws| && draws[i] != taken
  }

  /** The redraw loop: the first draw that differs from the old SSRC. */
  function FirstOther(draws: seq<u32>, taken: u32): (s: u32)
    requires HasOther(draws, taken)
    ensures exists k :: 0 <= k < |draws| && draws[k] == s != taken && forall i :: 0 <= i < k ==> draws[i] == taken
  {
    if draws[0] != taken then draws[0] else FirstOther(draws[1..], taken)
  }

  method Redraw(draws: seq<u32>, taken: u32) returns (candidate: u32)
    requires HasOther(draws, taken)
    ensures candidate == FirstOther(draws, taken)
  {
    var k := 0;
    candidate := draws[k];
    while candidate == taken
      invariant 0 <= k < |draws| && candidate == draws[k]
      invariant HasOther(draws[k..], taken)
      invariant FirstOther(draws[k..], taken) == FirstOther(draws, taken)
      decreases |draws| - k
    {
      assert draws[k..][1..] == draws[k + 1..];
      k := k + 1;
      candidate := draws[k];
    }
  }

  class RtpEgressState {
    var ssrc: u32
    var sequence: u16
    var timestamp: u32
    var lastSendTime: Option<int>
    var sentPackets: nat
    var sentOctets: nat
    var anchor: Option<(Ntp, u32)>
    var lastIngress: Option<u16>
    const sampleRate: u32
    ghost const start: Start
    ghost var history: seq<Event>

    /** Every field is a function of the start values and of the history. */
    ghost predicate Valid()
      reads this
    {
      && start.rate == sampleRate
      && Shows(ViewOf(history))
    }

    ghost predicate Shows(v: View)
      reads this
    {
      && sequence == SequenceAt(start, |v.increments|, v.ingress)
      && timestamp == TimestampAt(start, v.increments)
      && ssrc == SsrcAt(start, v.rotations)
      && lastIngress == Last(v.ingress)
      && lastSendTime == Last(v.marks)
      && sentPackets == Saturate64(|v.log|)
      && sentOctets == Saturate64(Octets(v.log))
      && anchor == AnchorOf(v.log)
    }

    /** The three random start values become parameters. */
    constructor (rate: u32, ssrc0: u32, sequence0: u16, timestamp0: u32)
      ensures Valid() && history == []
      ensures start == Start(ssrc0, sequence0, timestamp0, rate)
    {
      ssrc, sequence, timestamp, sampleRate := ssrc0, sequence0, timestamp0, rate;
      lastSendTime, sentPackets, sentOctets, anchor, lastIngress := None, 0, 0, None, None;
      start := Start(ssrc0, sequence0, timestamp0, rate);
      history := [];
    }

    method NoteIngressSeq(ingress: u16) returns (gap: nat)
      requires Valid()
      modifies this
      ensures Valid() && history == old(history) + [Noted(ingress)]
      ensures gap == match old(lastIngress) case None => 1 case Some(prev) => Gap(prev, ingress)
      ensures sequence == (old(sequence) + gap - 1) % 0x1_0000 && lastIngress == Some(ingress)
      ensures ssrc == old(ssrc) && timestamp == old(timestamp)
    {
      hide ViewOf;
      hide SequenceAt;
      hide TimestampAt;
      match lastIngress {
        case None =>
          gap := 1;
        case Some(prev) =>
          var raw: nat := Ahead16(prev, ingress);
          if raw == 0 {
            gap := 1;
          } else if raw > MAX_INGRESS_GAP {
            gap := MAX_INGRESS_GAP;
          } else {
            gap := raw;
          }
      }
      lastIngress := Some(ingress);
      sequence := Wrapping16(sequence, gap - 1);
      assert sequence == (old(sequence) + gap - 1) % 0x1_0000;
      hide Wrapping16;
      Snoc(history, Noted(ingress));
      AfterNoted(start, |ViewOf(history).increments|, ViewOf(history).ingress, ingress);
      history := history + [Noted(ingress)];
    }

    method Next(increment: u32) returns (s: Stamp)
      requires Valid()
      modifies this
      ensures Valid() && history == old(history) + [Issued(increment)]
      ensures s == StampAt(start, ViewOf(old(history)))
      ensures s == Stamp(old(sequence), old(timestamp), old(ssrc))
      ensures sequence == (old(sequence) + 1) % 0x1_0000 && ssrc == old(ssrc) && lastSendTime == old(lastSendTime)
      ensures timestamp == (old(timestamp) + increment) % 0x1_0000_0000
    {
      hide ViewOf;
      hide SequenceAt;
      hide TimestampAt;
      s := Stamp(sequence, timestamp, ssrc);
      sequence := Wrapping16(sequence, 1);
      timestamp := Wrapping32(timestamp, increment);
      hide Wrapping16;
      hide Wrapping32;
      Snoc(history, Issued(increment));
      AfterIssued(start, ViewOf(history).increments, ViewOf(history).ingress, increment);
      history := history + [Issued(increment)];
    }

    /** A clock reading earlier than the last one counts as no gap (`saturating_duration_since`). */
    method NextWithMarker(increment: u32, now: int) returns (s: Stamp, marker: bool)
      requires Valid()
      modifies this
      ensures Valid() && history == old(history) + [Marked(now), Issued(increment)]
      ensures s == StampAt(start, ViewOf(old(history)))
      ensures marker <==> StartsTalkspurt(old(lastSendTime), now)
      ensures s == Stamp(old(sequence), old(timestamp), old(ssrc)) && lastSendTime == Some(now)
      ensures marker <==> old(lastSendTime).None? || now - old(lastSendTime).value >= 30_000_000
    {
      hide ViewOf;
      hide SequenceAt;
      hide TimestampAt;
      match lastSendTime {
        case None => marker := true;
        case Some(prev) => marker := Max(now - prev, 0) >= TALKSPURT_GAP_THRESHOLD;
      }
      lastSendTime := Some(now);
      Snoc(history, Marked(now));
      history := history + [Marked(now)];
      s := Next(increment);
    }

    /** `draws` are the random values the redraw loop would see. */
    method CheckAndRotateOnCollision(ingressSsrc: u32, draws: seq<u32>) returns (rotated: bool)
      requires Valid()
      requires HasOther(draws, ssrc)
      modifies this
      ensures Valid()
      ensures rotated <==> ingressSsrc == old(ssrc)
      ensures rotated ==> ssrc == FirstOther(draws, old(ssrc)) && history == old(history) + [Rotated(ssrc)]
      ensures !rotated ==> history == old(history)
      ensures ssrc != ingressSsrc
      ensures sequence == old(sequence) && timestamp == old(timestamp)
      ensures sentPackets == old(sentPackets) && sentOctets == old(sentOctets) && anchor == old(anchor)
    {
      if ingressSsrc != ssrc {
        return false;
      }
      hide *;
      var candidate := Redraw(draws, ssrc);
      Rotate(candidate);
      rotated := true;
    }

    method Rotate(candidate: u32)
      requires Valid()
      modifies this`ssrc, this`history
      ensures Valid() && ssrc == candidate && history == old(history) + [Rotated(candidate)]
    {
      hide ViewOf;
      hide SequenceAt;
      hide TimestampAt;
      ssrc := candidate;
      Snoc(history, Rotated(candidate));
      history := history + [Rotated(candidate)];
    }

    method RecordSent(octets: nat, sentTimestamp: u32, now: Ntp)
      requires Valid()
      modifies this
      ensures Valid() && history == old(history) + [Recorded(Sent(octets, sentTimestamp, now))]
      ensures sentPackets == Min(old(sentPackets) + 1, 0xFFFF_FFFF_FFFF_FFFF)
      ensures sentOctets == Min(old(sentOctets) + octets, 0xFFFF_FFFF_FFFF_FFFF)
      ensures anchor == if old(anchor).None? then Some((now, sentTimestamp)) else old(anchor)
      ensures sequence == old(sequence) && timestamp == old(timestamp) && ssrc == old(ssrc)
    {
      hide ViewOf;
      hide SequenceAt;
      hide TimestampAt;
      hide Saturate64;
      hide Octets;
      sentPackets := Saturate64(sentPackets + 1);
      sentOctets := Saturate64(sentOctets + octets);
      if anchor.None? {
        anchor := Some((now, sentTimestamp));
      }
      var sent := Sent(octets, sentTimestamp, now);
      Snoc(history, Recorded(sent));
      AfterRecorded(ViewOf(history).log, sent);
      history := history + [Recorded(sent)];
    }

    function RtpTimestampAt(now: Ntp): Option<u32>
      reads this
    {
      match anchor
      case None => None
      case Some((ntp, rtp)) => Some(Wrapping32(rtp, ElapsedSamples(ntp, now, sampleRate)))
    }

    method BuildSr(now: Ntp) returns (sr: SenderReport)
      requires Valid()
      ensures sr == ReportAt(start, ViewOf(history), now)
      ensures sr.ssrc == ssrc && sr.ntp == now
      ensures sr.packetCount == sentPackets % 0x1_0000_0000 && sr.octetCount == sentOctets % 0x1_0000_0000
      ensures anchor.None? ==> sr.rtpTimestamp == timestamp
      ensures anchor.Some? ==>
        sr.rtpTimestamp == (anchor.value.1 + ElapsedSamples(anchor.value.0, now, sampleRate)) % 0x1_0000_0000
    {
      hide ViewOf;
      hide SequenceAt;
      hide TimestampAt;
      hide ElapsedSamples;
      var atNow := RtpTimestampAt(now);
      sr := SenderReport(
        ssrc, now, if atNow.Some? then atNow.value else timestamp,
        sentPackets % 0x1_0000_0000, sentOctets % 0x1_0000_0000);
    }
  }

  function Saturate64(n: nat): (r: u64)
    ensures n < 0x1_0000_0000_0000_0000 ==> r == n
    ensures n >= 0x1_0000_0000_0000_0000 ==> r == 0xFFFF_FFFF_FFFF_FFFF
  {
    Min(n, 0xFFFF_FFFF_FFFF_FFFF)
  }

  /** Samples since the anchor, rounded to the nearest; a clock that ran backwards counts as no time.
      Over 32.32 fixed-point time this is `round(seconds * rate)` without floating-point error. */
  function ElapsedSamples(anchor: Ntp, now: Ntp, rate: u32): nat {
    Rounded(Max(now - anchor, 0) * rate)
  }

  /** A number of 2^-32 units rounded half up to whole units. */
  function Rounded(units: nat): nat {
    (units + 0x8000_0000) / 0x1_0000_0000
  }

  /** The sender report an egress with view `v` gives at time `now`, read off its log alone. */
  ghost function ReportAt(start: Start, v: View, now: Ntp): SenderReport {
    SenderReport(
      SsrcAt(start, v.rotations), now,
      if v.log == [] then TimestampAt(start, v.increments)
      else Wrapping32(v.log[0].timestamp, ElapsedSamples(v.log[0].ntp, now, start.rate)),
      Saturate64(|v.log|) % 0x1_0000_0000, Saturate64(Octets(v.log)) % 0x1_0000_0000)
  }

  // ---- what the numbering guarantees over a whole run --------------------

  /** The sequence numbers handed out, one per `Issued` event. */
  ghost function IssuedNumbers(start: Start, h: seq<Event>): seq<u16> {
    if h == [] then []
    else
      var before := h[..|h| - 1];
      if h[|h| - 1].Issued?
      then IssuedNumbers(start, before) + [StampAt(start, ViewOf(before)).sequence]
      else IssuedNumbers(start, before)
  }

  /** One packet leaves per noted ingress packet: packet `n` is issued after note `n` and before note `n + 1`. */
  ghost predicate Paired(h: seq<Event>) {
    forall k :: 0 <= k < |h| && h[k].Issued? ==>
      |ViewOf(h[..k]).ingress| == |ViewOf(h[..k]).increments| + 1
  }

  lemma PairedSnoc(h: seq<Event>, e: Event)
    requires Paired(h)
    requires e.Issued? ==> |ViewOf(h).ingress| == |ViewOf(h).increments| + 1
    ensures Paired(h + [e])
  {
    forall k | 0 <= k < |h + [e]| && (h + [e])[k].Issued?
      ensures |ViewOf((h + [e])[..k]).ingress| == |ViewOf((h + [e])[..k]).increments| + 1
    {
      assert (h + [e])[..k] == h[..k];
      assert h[..|h|] == h;
    }
  }

  lemma IssuedNumbersSnoc(start: Start, h: seq<Event>, e: Event)
    ensures IssuedNumbers(start, h + [e])
         == if e.Issued? then IssuedNumbers(start, h) + [StampAt(start, ViewOf(h)).sequence] else IssuedNumbers(start, h)
  {
    assert (h + [e])[..|h|] == h;
  }

  /** The number that packet `n` of a paired run carries. */
  ghost function PairedNumber(start: Start, ingress: seq<u16>, n: nat): u16
    requires n < |ingress|
  {
    SequenceAt(start, n, ingress[..n + 1])
  }

  lemma PairedNumberStable(start: Start, ingress: seq<u16>, x: u16, n: nat)
    requires n < |ingress|
    ensures PairedNumber(start, ingress + [x], n) == PairedNumber(start, ingress, n)
  {
    assert (ingress + [x])[..n + 1] == ingress[..n + 1];
  }

  lemma PairedPrefix(h: seq<Event>)
    requires Paired(h) && h != []
    ensures Paired(h[..|h| - 1])
  {
    var before := h[..|h| - 1];
    forall k | 0 <= k < |before| && before[k].Issued?
      ensures |ViewOf(before[..k]).ingress| == |ViewOf(before[..k]).increments| + 1
    {
      assert before[..k] == h[..k];
    }
  }

  lemma {:induction false} PairedNumbers(start: Start, h: seq<Event>)
    requires Paired(h)
    ensures var e, ins := IssuedNumbers(start, h), ViewOf(h).ingress;
            && |e| == |ViewOf(h).increments| <= |ins|
            && forall n :: 0 <= n < |e| ==> e[n] == PairedNumber(start, ins, n)
  {
    if h != [] {
      var before, last := h[..|h| - 1], h[|h| - 1];
      PairedPrefix(h);
      PairedNumbers(start, before);
      hide Paired;
      hide SequenceAt;
      var ins := ViewOf(before).ingress;
      if last.Noted? {
        forall n | 0 <= n < |ins|
          ensures PairedNumber(start, ins + [last.ingress], n) == PairedNumber(start, ins, n)
        {
          PairedNumberStable(start, ins, last.ingress, n);
        }
      } else if last.Issued? {
        LastIssuedIsPaired(h);
        assert ins[..|ins|] == ins;
      }
    }
  }

  lemma LastIssuedIsPaired(h: seq<Event>)
    requires Paired(h) && h != [] && h[|h| - 1].Issued?
    ensures |ViewOf(h[..|h| - 1]).ingress| == |ViewOf(h[..|h| - 1]).increments| + 1
  {
  }

  /** Step `n` of the egress numbering is the clamped ingress gap: always in `1..100`. */
  lemma StepIsGap(start: Start, h: seq<Event>, n: nat)
    requires Paired(h) && n + 1 < |IssuedNumbers(start, h)|
    ensures |IssuedNumbers(start, h)| <= |ViewOf(h).ingress|
    ensures var e, ins := IssuedNumbers(start, h), ViewOf(h).ingress;
            Ahead16(e[n], e[n + 1]) == Gap(ins[n], ins[n + 1])
  {
    PairedNumbers(start, h);
    PairedStep(start, ViewOf(h).ingress, n);
  }

  lemma PairedStep(start: Start, ingress: seq<u16>, n: nat)
    requires n + 1 < |ingress|
    ensures Ahead16(PairedNumber(start, ingress, n), PairedNumber(start, ingress, n + 1)) == Gap(ingress[n], ingress[n + 1])
  {
    hide Gap;
    hide Ahead16;
    hide Wrapping16;
    hide Skips;
    var prefix := ingress[..n + 1];
    assert ingress[..n + 2] == prefix + [ingress[n + 1]];
    SkipsSnoc(prefix, ingress[n + 1]);
    var gap := Gap(ingress[n], ingress[n + 1]);
    Wrapping16Twice(start.sequence, n + Skips(prefix), gap);
    AheadOfWrapping(PairedNumber(start, ingress, n), gap);
  }

  lemma AheadOfWrapping(n: u16, step: nat)
    requires step < 0x1_0000
    ensures Ahead16(n, Wrapping16(n, step)) == step
  {
  }

  ghost predicate SmallStep(in0: u16, in1: u16) {
    1 <= Ahead16(in0, in1) <= MAX_INGRESS_GAP
  }

  /** Every egress step is the clamped gap of the ingress step beside it. */
  ghost predicate FollowsGaps(ingress: seq<u16>, numbers: seq<u16>)
    requires |numbers| <= |ingress|
  {
    forall n :: 0 <= n < |numbers| - 1 ==> Ahead16(numbers[n], numbers[n + 1]) == Gap(ingress[n], ingress[n + 1])
  }

  /** Egress minus ingress, modulo 2^16, is the same for every packet. */
  ghost predicate ConstantOffset(ingress: seq<u16>, numbers: seq<u16>)
    requires |numbers| <= |ingress|
  {
    forall n :: 0 <= n < |numbers| ==> Ahead16(ingress[n], numbers[n]) == Ahead16(ingress[0], numbers[0])
  }

  ghost predicate SmallSteps(ingress: seq<u16>, count: nat)
    requires count <= |ingress|
  {
    forall n :: 0 <= n < count - 1 ==> SmallStep(ingress[n], ingress[n + 1])
  }

  lemma OffsetArithmetic(in0: u16, in1: u16, out0: u16, out1: u16)
    ensures Ahead16(in1, out1) == Ahead16(in0, out0) <==> Ahead16(out0, out1) == Ahead16(in0, in1)
  {
  }

  /** One packet keeps the offset exactly when the ingress moved 1 to 100 numbers ahead. */
  lemma OffsetStep(in0: u16, in1: u16, out0: u16, out1: u16)
    requires Ahead16(out0, out1) == Gap(in0, in1)
    ensures Ahead16(in1, out1) == Ahead16(in0, out0) <==> SmallStep(in0, in1)
  {
    assert Ahead16(in0, in1) == (in1 - in0) % 0x1_0000;
    hide Ahead16;
    hide Gap;
    OffsetArithmetic(in0, in1, out0, out1);
  }

  lemma {:induction false} OffsetsBySteps(ingress: seq<u16>, numbers: seq<u16>)
    requires |numbers| <= |ingress| && FollowsGaps(ingress, numbers)
    ensures ConstantOffset(ingress, numbers) <==> SmallSteps(ingress, |numbers|)
  {
    var n := |numbers|;
    if n >= 2 {
      hide Ahead16;
      hide Gap;
      hide SmallStep;
      OffsetsBySteps(ingress, numbers[..n - 1]);
      OffsetStep(ingress[n - 2], ingress[n - 1], numbers[n - 2], numbers[n - 1]);
      assert SmallSteps(ingress, n) <==> SmallSteps(ingress, n - 1) && SmallStep(ingress[n - 2], ingress[n - 2 + 1]);
      assert ConstantOffset(ingress, numbers) <==>
        ConstantOffset(ingress, numbers[..n - 1]) && Ahead16(ingress[n - 1], numbers[n - 1]) == Ahead16(ingress[0], numbers[0]);
    }
  }

  /** Over a whole run, wraps included, every egress step is the clamped ingress gap, and egress minus
      ingress is one constant exactly when every ingress packet is 1 to 100 numbers ahead of the one before. */
  lemma OffsetConstant(start: Start, h: seq<Event>)
    requires Paired(h)
    ensures |IssuedNumbers(start, h)| <= |ViewOf(h).ingress|
    ensures FollowsGaps(ViewOf(h).ingress, IssuedNumbers(start, h))
    ensures ConstantOffset(ViewOf(h).ingress, IssuedNumbers(start, h))
       <==> SmallSteps(ViewOf(h).ingress, |IssuedNumbers(start, h)|)
  {
    PairedNumbers(start, h);
    hide Paired;
    hide Ahead16;
    hide Gap;
    var e, ins := IssuedNumbers(start, h), ViewOf(h).ingress;
    forall n | 0 <= n < |e| - 1
      ensures Ahead16(e[n], e[n + 1]) == Gap(ins[n], ins[n + 1])
    {
      StepIsGap(start, h, n);
    }
    OffsetsBySteps(ins, e);
  }

  // ---- talkspurts, the anchor and report timestamps ------------------------

  /** On a clock that never runs backwards, the marker is set exactly when no packet was issued
      within the last 30 ms. */
  lemma MarkerMeaning(marks: seq<int>, now: int)
    requires forall i, j :: 0 <= i <= j < |marks| ==> marks[i] <= marks[j]
    ensures StartsTalkspurt(Last(marks), now)
       <==> forall i :: 0 <= i < |marks| ==> now - marks[i] >= 30_000_000
  {
    if marks != [] {
      var last := marks[|marks| - 1];
      assert forall i :: 0 <= i < |marks| ==> marks[i] <= last;
    }
  }

  lemma {:induction false} LogGrows(h: seq<Event>, more: seq<Event>)
    ensures ViewOf(h).log <= ViewOf(h + more).log
  {
    if more == [] {
      assert h + more == h;
    } else {
      var init, last := more[..|more| - 1], more[|more| - 1];
      LogGrows(h, init);
      assert h + more == (h + init) + [last];
      Snoc(h + init, last);
    }
  }

  /** Once a packet was reported sent, the anchor stays: later packets, rotations and skips never move it. */
  lemma AnchorFixed(h: seq<Event>, more: seq<Event>)
    requires ViewOf(h).log != []
    ensures AnchorOf(ViewOf(h + more).log) == AnchorOf(ViewOf(h).log)
  {
    LogGrows(h, more);
  }

  lemma RoundedBounds(units: nat)
    ensures -0x8000_0000 <= units - Rounded(units) * 0x1_0000_0000 < 0x8000_0000
  {
  }

  lemma RoundedMonotone(a: nat, b: nat)
    requires a <= b
    ensures Rounded(a) <= Rounded(b)
  {
  }

  /** Before reduction modulo 2^32, the report timestamp never falls while the clock rises, and it
      lies within half a sample of the line through the anchor. */
  lemma ReportTimestampLine(anchor: Ntp, earlier: Ntp, now: Ntp, rate: u32)
    requires earlier <= now
    ensures ElapsedSamples(anchor, earlier, rate) <= ElapsedSamples(anchor, now, rate)
    ensures now <= anchor ==> ElapsedSamples(anchor, now, rate) == 0
    ensures now >= anchor ==>
      -0x8000_0000 <= (now - anchor) * rate - ElapsedSamples(anchor, now, rate) * 0x1_0000_0000 < 0x8000_0000
  {
    var a: nat, b: nat := Max(earlier - anchor, 0), Max(now - anchor, 0);
    MulMonotone(a, b, rate);
    assert a <= b && Max(now - anchor, 0) == b && Max(earlier - anchor, 0) == a;
    RoundedMonotone(a * rate, b * rate);
    RoundedBounds(b * rate);
  }
}
