/** The transcoding loops: a media task that numbers, sends and records packets, and a report task
    that may read the same egress between any two of its locks and awaits. */
module Transcoder {
  import opened Prelude
  import opened RtpWire
  import opened RtpEgress

  /** Where the media task stands between two suspension points. */
  datatype Phase = Idle | Sending(packet: RtpPacket) | OnWire(packet: RtpPacket)

  /** One atomic stretch of either task. */
  datatype Step =
    | Collide(ingressSsrc: u32, draws: seq<u32>)
    | Relay(ingress: u16, payload: seq<u8>, now: int)
    | Note(ingress: u16)
    | Load(payloads: seq<seq<u8>>)
    | IssueNext(now: int)
    | SendSucceeds
    | SendFails
    | Record(ntp: Ntp)
    | Report(ntp: Ntp)

  /** A sender report together with the moment it was taken: packets on the wire so far, and
      whether the newest of them is still waiting to be recorded. */
  datatype Snapshot = Snapshot(report: SenderReport, onWire: nat, unrecorded: bool)

  function PayloadOctets(wire: seq<RtpPacket>): nat {
    if wire == [] then 0 else PayloadOctets(wire[..|wire| - 1]) + |wire[|wire| - 1].payload|
  }

  /** The egress log describes exactly the packets of `wire`, in order. */
  ghost predicate Describes(log: seq<Sent>, wire: seq<RtpPacket>) {
    |log| == |wire| &&
    forall i :: 0 <= i < |log| ==> log[i].octets == |wire[i].payload| && log[i].timestamp == wire[i].timestamp
  }

  lemma {:induction false} DescribedOctets(log: seq<Sent>, wire: seq<RtpPacket>)
    requires Describes(log, wire)
    ensures Octets(log) == PayloadOctets(wire)
  {
    if log != [] {
      DescribedOctets(log[..|log| - 1], wire[..|wire| - 1]);
    }
  }

  lemma DescribesSnoc(log: seq<Sent>, wire: seq<RtpPacket>, sent: Sent)
    requires wire != [] && Describes(log, wire[..|wire| - 1])
    requires sent.octets == |wire[|wire| - 1].payload| && sent.timestamp == wire[|wire| - 1].timestamp
    ensures Describes(log + [sent], wire)
  {
  }

  lemma RotationKeepsLog(h: seq<Event>, ssrc: u32)
    ensures ViewOf(h + [Rotated(ssrc)]).log == ViewOf(h).log
  {
    Snoc(h, Rotated(ssrc));
  }

  /** What a report promises about the wire: totals of the packets already recorded, and a timestamp
      on the line through the first packet and the one anchor time of the run. */
  ghost predicate Truthful(s: Snapshot, wire: seq<RtpPacket>, anchor: Option<Ntp>, rate: u32) {
    && s.onWire <= |wire|
    && (s.unrecorded ==> s.onWire > 0)
    && var counted := wire[..if s.unrecorded then s.onWire - 1 else s.onWire];
    && (|counted| < 0x1_0000_0000_0000_0000 ==> s.report.packetCount == |counted| % 0x1_0000_0000)
    && (|counted| >= 0x1_0000_0000_0000_0000 ==> s.report.packetCount == 0xFFFF_FFFF)
    && (PayloadOctets(counted) < 0x1_0000_0000_0000_0000 ==>
          s.report.octetCount == PayloadOctets(counted) % 0x1_0000_0000)
    && (PayloadOctets(counted) >= 0x1_0000_0000_0000_0000 ==> s.report.octetCount == 0xFFFF_FFFF)
    && (counted != [] ==>
          && anchor.Some?
          && s.report.rtpTimestamp
             == Wrapping32(wire[0].timestamp, ElapsedSamples(anchor.value, s.report.ntp, rate)))
  }

  /** What stays fixed over a run. */
  datatype Setup = Setup(payloadType: u8, increment: u32, start: Start)

  /** Where the media task stands, what it put on the wire, and what was done to the egress. */
  datatype Stand = Stand(phase: Phase, queue: seq<seq<u8>>, wire: seq<RtpPacket>, history: seq<Event>)

  /** The packet that `payload` becomes after history `h`. */
  ghost function NextPacket(setup: Setup, h: seq<Event>, payload: seq<u8>, now: int): RtpPacket {
    var stamp := StampAt(setup.start, ViewOf(h));
    RtpPacket(
      setup.payloadType % 128, StartsTalkspurt(Last(ViewOf(h).marks), now),
      stamp.sequence, stamp.timestamp, stamp.ssrc, payload)
  }

  ghost function Numbered(setup: Setup, st: Stand, payload: seq<u8>, now: int): Stand {
    st.(phase := Sending(NextPacket(setup, st.history, payload, now)),
        history := st.history + [Marked(now), Issued(setup.increment)])
  }

  /** One step of the task's program: number, send, record, in this order; a failed send drops the queue.
      A step that cannot happen where the task stands changes nothing. */
  ghost function Advance(setup: Setup, st: Stand, step: Step): Stand {
    var idle, ready := st.phase.Idle?, st.phase.Idle? && st.queue == [];
    match step
    case Collide(ssrc, draws) =>
      if idle && ssrc == SsrcAt(setup.start, ViewOf(st.history).rotations) && HasOther(draws, ssrc)
      then st.(history := st.history + [Rotated(FirstOther(draws, ssrc))]) else st
    case Relay(ingress, payload, now) =>
      if ready then Numbered(setup, st.(history := st.history + [Noted(ingress)]), payload, now) else st
    case Note(ingress) => if ready then st.(history := st.history + [Noted(ingress)]) else st
    case Load(payloads) => if ready then st.(queue := payloads) else st
    case IssueNext(now) =>
      if idle && st.queue != [] then Numbered(setup, st.(queue := st.queue[1..]), st.queue[0], now) else st
    case SendSucceeds =>
      if st.phase.Sending? then st.(phase := OnWire(st.phase.packet), wire := st.wire + [st.phase.packet]) else st
    case SendFails => if st.phase.Sending? then st.(phase := Idle, queue := []) else st
    case Record(ntp) =>
      if st.phase.OnWire?
      then st.(phase := Idle,
               history := st.history + [Recorded(Sent(|st.phase.packet.payload|, st.phase.packet.timestamp, ntp))])
      else st
    case Report(_) => st
  }

  ghost function StandAfter(setup: Setup, schedule: seq<Step>): Stand {
    if schedule == [] then Stand(Idle, [], [], [])
    else Advance(setup, StandAfter(setup, schedule[..|schedule| - 1]), schedule[|schedule| - 1])
  }

  /** The report due at a moment: what the egress history calls for, beside the true state of the wire. */
  ghost function SnapshotAt(setup: Setup, st: Stand, ntp: Ntp): Snapshot {
    Snapshot(ReportAt(setup.start, ViewOf(st.history), ntp), |st.wire|, st.phase.OnWire?)
  }

  /** The reports of a run, each taken where its step stands in the schedule. */
  ghost function ReportsOf(setup: Setup, schedule: seq<Step>): seq<Snapshot> {
    if schedule == [] then []
    else
      var before, last := schedule[..|schedule| - 1], schedule[|schedule| - 1];
      ReportsOf(setup, before) + if last.Report? then [SnapshotAt(setup, StandAfter(setup, before), last.ntp)] else []
  }

  class EgressTask {
    const egress: RtpEgressState
    const payloadType: u8
    const increment: u32
    var phase: Phase
    /** Payloads of the ingress packet being handled that have not been numbered yet. */
    var queue: seq<seq<u8>>
    /** Everything the media task put on the wire: it stands for the network. */
    var wire: seq<RtpPacket>

    ghost predicate Valid()
      reads this, egress
    {
      && egress.Valid()
      && if phase.OnWire?
         then wire != [] && wire[|wire| - 1] == phase.packet && Describes(Logged(), wire[..|wire| - 1])
         else Describes(Logged(), wire)
    }

    ghost function Fixed(): Setup {
      Setup(payloadType, increment, egress.start)
    }

    ghost function Position(): Stand
      reads this, egress
    {
      Stand(phase, queue, wire, egress.history)
    }

    /** The packets recorded so far. */
    ghost function Logged(): seq<Sent>
      reads this, egress
    {
      ViewOf(egress.history).log
    }

    constructor (payloadType: u8, increment: u32, rate: u32, ssrc: u32, sequence: u16, timestamp: u32)
      ensures Valid() && fresh(egress)
      ensures this.payloadType == payloadType && this.increment == increment
      ensures egress.start == Start(ssrc, sequence, timestamp, rate) && egress.history == []
      ensures phase == Idle && queue == [] && wire == []
    {
      this.payloadType, this.increment := payloadType, increment;
      egress := new RtpEgressState(rate, ssrc, sequence, timestamp);
      phase, queue, wire := Idle, [], [];
    }

    /** Numbers one payload and turns it into the packet about to be sent. */
    method Issue(payload: seq<u8>, now: int)
      requires Valid() && phase == Idle
      modifies this`phase, egress
      ensures Valid()
      ensures egress.history == old(egress.history) + [Marked(now), Issued(increment)]
      ensures Logged() == old(Logged())
      ensures phase == Sending(NextPacket(Fixed(), old(egress.history), payload, now))
      ensures phase == Sending(RtpPacket(
        payloadType % 128, old(egress.lastSendTime).None? || now - old(egress.lastSendTime).value >= 30_000_000,
        old(egress.sequence), old(egress.timestamp), old(egress.ssrc), payload))
    {
      ghost var h := egress.history;
      var stamp, marker := egress.NextWithMarker(increment, now);
      hide ViewOf;
      Snoc(h, Marked(now));
      Snoc(h + [Marked(now)], Issued(increment));
      assert egress.history == (h + [Marked(now)]) + [Issued(increment)];
      phase := Sending(RtpPacket(payloadType % 128, marker, stamp.sequence, stamp.timestamp, stamp.ssrc, payload));
    }

    method NoteIngress(ingress: u16)
      requires Valid() && phase == Idle
      modifies egress
      ensures Valid() && egress.history == old(egress.history) + [Noted(ingress)] && Logged() == old(Logged())
    {
      ghost var h := egress.history;
      var _ := egress.NoteIngressSeq(ingress);
      hide ViewOf;
      Snoc(h, Noted(ingress));
    }

    method SendSucceeds()
      requires Valid() && phase.Sending?
      modifies this
      ensures Valid() && phase == OnWire(old(phase.packet)) && queue == old(queue)
      ensures wire == old(wire) + [old(phase.packet)]
    {
      hide ViewOf;
      hide Describes;
      hide RtpEgressState.Shows;
      wire := wire + [phase.packet];
      phase := OnWire(phase.packet);
      assert wire[..|wire| - 1] == old(wire);
    }

    /** A failed send abandons the rest of the ingress packet and is never recorded. */
    method SendFails()
      requires Valid() && phase.Sending?
      modifies this
      ensures Valid() && phase == Idle && queue == [] && wire == old(wire)
    {
      queue := [];
      phase := Idle;
    }

    method RecordSent(ntp: Ntp)
      requires Valid() && phase.OnWire?
      modifies this`phase, egress
      ensures Valid() && phase == Idle
      ensures egress.history
           == old(egress.history) + [Recorded(Sent(|old(phase.packet.payload)|, old(phase.packet.timestamp), ntp))]
      ensures Logged()
           == old(Logged()) + [Sent(|old(phase.packet.payload)|, old(phase.packet.timestamp), ntp)]
    {
      ghost var h := egress.history;
      var p := phase.packet;
      hide ViewOf;
      hide Describes;
      hide RtpEgressState.Shows;
      ghost var sent := Sent(|p.payload|, p.timestamp, ntp);
      DescribesSnoc(ViewOf(h).log, wire, sent);
      egress.RecordSent(|p.payload|, p.timestamp, ntp);
      Snoc(h, Recorded(sent));
      phase := Idle;
    }

    method Collide(ingressSsrc: u32, draws: seq<u32>)
      requires Valid()
      requires HasOther(draws, egress.ssrc)
      modifies egress
      ensures Valid() && egress.ssrc != ingressSsrc
      ensures egress.history ==
        if old(egress.ssrc) == ingressSsrc then old(egress.history) + [Rotated(FirstOther(draws, ingressSsrc))]
        else old(egress.history)
      ensures Logged() == old(Logged())
    {
      hide ViewOf;
      hide HasOther;
      hide Describes;
      hide RtpEgressState.Shows;
      ghost var h := egress.history;
      var rotated := egress.CheckAndRotateOnCollision(ingressSsrc, draws);
      RotationKeepsLog(h, egress.ssrc);
    }

    /** The report task: possible at any moment, changes nothing. */
    method TakeReport(ntp: Ntp) returns (s: Snapshot)
      requires Valid()
      ensures s == SnapshotAt(Fixed(), Position(), ntp)
      ensures Truthful(s, wire, AnchorTime(Logged()), egress.start.rate)
    {
      hide ViewOf;
      hide Saturate64;
      hide ElapsedSamples;
      hide Wrapping32;
      var report := egress.BuildSr(ntp);
      s := Snapshot(report, |wire|, phase.OnWire?);
      ghost var log := Logged();
      ghost var counted := wire[..if s.unrecorded then s.onWire - 1 else s.onWire];
      assert Describes(log, counted) by {
        assert wire[..|wire|] == wire;
      }
      DescribedOctets(log, counted);
    }

    /** The wall-clock half of the NTP/RTP anchor. */
    method Anchor() returns (a: Option<Ntp>)
      requires Valid()
      ensures a == AnchorTime(Logged())
    {
      a := match egress.anchor case None => None case Some((ntp, _)) => Some(ntp);
    }

    /** The steps that number packets. */
    method PerformNumbering(step: Step)
      requires Valid() && (step.Relay? || step.Note? || step.IssueNext?)
      modifies this, egress
      ensures Valid() && wire == old(wire) && Logged() == old(Logged())
      ensures Position() == Advance(Fixed(), old(Position()), step)
      ensures old(phase) == Idle && old(queue) == [] && step.Relay? ==>
        && phase.Sending? && phase.packet.payload == step.payload && queue == []
        && egress.history == old(egress.history) + [Noted(step.ingress)] + [Marked(step.now), Issued(increment)]
      ensures old(phase) == Idle && old(queue) == [] && step.Note? ==>
        phase == Idle && queue == [] && egress.history == old(egress.history) + [Noted(step.ingress)]
      ensures old(phase) == Idle && old(queue) != [] && step.IssueNext? ==>
        && phase.Sending? && phase.packet.payload == old(queue)[0] && queue == old(queue)[1..]
        && egress.history == old(egress.history) + [Marked(step.now), Issued(increment)]
    {
      hide ViewOf;
      hide NextPacket;
      hide Valid;
      match step {
        case Relay(ingress, payload, now) =>
          if phase == Idle && queue == [] {
            NoteIngress(ingress);
            Issue(payload, now);
          }
        case Note(ingress) =>
          if phase == Idle && queue == [] {
            NoteIngress(ingress);
          }
        case IssueNext(now) =>
          if phase == Idle && queue != [] {
            var payload := queue[0];
            Unqueue();
            Issue(payload, now);
          }
      }
    }

    method Unqueue()
      requires Valid() && phase == Idle && queue != []
      modifies this`queue
      ensures Valid() && queue == old(queue[1..])
    {
      queue := queue[1..];
    }

    /** The steps that send and record packets. */
    method PerformSending(step: Step)
      requires Valid() && (step.SendSucceeds? || step.SendFails? || step.Record?)
      modifies this, egress
      ensures Valid() && old(wire) <= wire && old(Logged()) <= Logged()
      ensures Position() == Advance(Fixed(), old(Position()), step)
      ensures old(phase).Sending? && step.SendSucceeds? ==>
        && phase == OnWire(old(phase).packet) && wire == old(wire) + [old(phase).packet] && queue == old(queue)
        && egress.history == old(egress.history)
      ensures old(phase).Sending? && step.SendFails? ==>
        phase == Idle && wire == old(wire) && queue == [] && egress.history == old(egress.history)
      ensures old(phase).OnWire? && step.Record? ==>
        && phase == Idle && wire == old(wire) && queue == old(queue)
        && var p := old(phase).packet;
           egress.history == old(egress.history) + [Recorded(Sent(|p.payload|, p.timestamp, step.ntp))]
    {
      hide ViewOf;
      hide Valid;
      match step {
        case SendSucceeds =>
          if phase.Sending? {
            SendSucceeds();
          }
        case SendFails =>
          if phase.Sending? {
            SendFails();
          }
        case Record(ntp) =>
          if phase.OnWire? {
            RecordSent(ntp);
          }
      }
    }

    /** The steps of the receive arm: a collision check, or a batch of payloads to number. */
    method PerformReceiving(step: Step)
      requires Valid() && (step.Collide? || step.Load?)
      modifies this, egress
      ensures Valid() && wire == old(wire) && Logged() == old(Logged())
      ensures Position() == Advance(Fixed(), old(Position()), step)
      ensures phase == old(phase) && (step.Collide? ==> queue == old(queue))
      ensures old(phase) == Idle && step.Collide? && HasOther(step.draws, old(egress.ssrc)) ==>
        && egress.ssrc != step.ingressSsrc
        && (old(egress.ssrc) != step.ingressSsrc ==> egress.history == old(egress.history))
      ensures old(phase) == Idle && old(queue) == [] && step.Load? ==>
        queue == step.payloads && egress.history == old(egress.history)
    {
      match step {
        case Collide(ingressSsrc, draws) =>
          assert egress.ssrc == SsrcAt(egress.start, ViewOf(egress.history).rotations);
          hide ViewOf;
          hide Valid;
          hide HasOther;
          hide FirstOther;
          hide SsrcAt;
          if phase == Idle && HasOther(draws, egress.ssrc) {
            Collide(ingressSsrc, draws);
          }
        case Load(payloads) =>
          if phase == Idle && queue == [] {
            queue := payloads;
          }
      }
    }

    /** One step of either task, if the media task stands where the step can happen. */
    method Perform(step: Step) returns (s: Option<Snapshot>)
      requires Valid()
      modifies this, egress
      ensures Valid() && old(wire) <= wire && old(Logged()) <= Logged()
      ensures Position() == Advance(Fixed(), old(Position()), step)
      ensures s == if step.Report? then Some(SnapshotAt(Fixed(), old(Position()), step.ntp)) else None
      ensures s.Some? ==> Truthful(s.value, wire, AnchorTime(Logged()), egress.start.rate)
    {
      assert step.Report? ==> Advance(Fixed(), Position(), step) == Position();
      hide *;
      if step.Report? {
        var taken := TakeReport(step.ntp);
        return Some(taken);
      }
      if step.Collide? || step.Load? {
        PerformReceiving(step);
      } else if step.SendSucceeds? || step.SendFails? || step.Record? {
        PerformSending(step);
      } else {
        PerformNumbering(step);
      }
      s := None;
    }
  }

  ghost function AnchorTime(log: seq<Sent>): Option<Ntp> {
    if log == [] then None else Some(log[0].ntp)
  }

  lemma TruthfulLater(
    s: Snapshot, wire: seq<RtpPacket>, log: seq<Sent>, wire': seq<RtpPacket>, log': seq<Sent>, rate: u32)
    requires Truthful(s, wire, AnchorTime(log), rate) && wire <= wire' && log <= log'
    ensures Truthful(s, wire', AnchorTime(log'), rate)
  {
    var n := if s.unrecorded then s.onWire - 1 else s.onWire;
    assert wire'[..n] == wire[..n];
  }

  /** Whatever the two tasks do and however they interleave: the wire is the one the schedule calls
      for, each report is the one due where its step stands, so that its counts are the totals of the
      packets on the wire at that moment or lag by the one not yet recorded, and all share one anchor. */
  method RunTasks(setup: Setup, schedule: seq<Step>)
    returns (wire: seq<RtpPacket>, reports: seq<Snapshot>, anchor: Option<Ntp>)
    ensures wire == StandAfter(setup, schedule).wire
    ensures reports == ReportsOf(setup, schedule)
    ensures anchor == AnchorTime(ViewOf(StandAfter(setup, schedule).history).log)
    ensures forall i :: 0 <= i < |reports| ==> Truthful(reports[i], wire, anchor, setup.start.rate)
  {
    var task := new EgressTask(
      setup.payloadType, setup.increment, setup.start.rate, setup.start.ssrc, setup.start.sequence, setup.start.timestamp);
    reports := [];
    hide ViewOf;
    hide Advance;
    hide SnapshotAt;
    hide Truthful;
    hide AnchorTime;
    hide EgressTask.Valid;
    for k := 0 to |schedule|
      invariant task.Valid() && fresh(task) && fresh(task.egress) && task.Fixed() == setup
      invariant task.Position() == StandAfter(setup, schedule[..k]) && reports == ReportsOf(setup, schedule[..k])
      invariant forall i :: 0 <= i < |reports| ==>
                  Truthful(reports[i], task.wire, AnchorTime(task.Logged()), setup.start.rate)
    {
      assert schedule[..k + 1][..k] == schedule[..k];
      ghost var wire0, log0 := task.wire, task.Logged();
      var taken := task.Perform(schedule[k]);
      forall i | 0 <= i < |reports|
        ensures Truthful(reports[i], task.wire, AnchorTime(task.Logged()), setup.start.rate)
      {
        TruthfulLater(reports[i], wire0, log0, task.wire, task.Logged(), setup.start.rate);
      }
      if taken.Some? {
        reports := reports + [taken.value];
      }
    }
    assert schedule[..|schedule|] == schedule;
    wire := task.wire;
    anchor := task.Anchor();
  }

  // ---- the NGN-to-browser direction ------------------------------------------------

  /** One jitter-buffered mu-law packet on its way to the browser: whether it is transcoded while the
      peer is known, and if so whether its send succeeds. */
  datatype Inbound = Inbound(ingress: u16, payload: seq<u8>, relayed: bool, sent: bool, now: int, ntp: Ntp)

  /** The packets that are numbered: the others are dropped before the egress hears of them. */
  ghost function Relayable(frames: seq<Inbound>): seq<Inbound> {
    if frames == [] then []
    else
      var before, f := Relayable(frames[..|frames| - 1]), frames[|frames| - 1];
      if f.relayed then before + [f] else before
  }

  ghost function IngressOf(frames: seq<Inbound>): seq<u16> {
    seq(|frames|, i requires 0 <= i < |frames| => frames[i].ingress)
  }

  ghost function NowsOf(frames: seq<Inbound>): seq<int> {
    seq(|frames|, i requires 0 <= i < |frames| => frames[i].now)
  }

  /** Positions of the packets whose send succeeds, in order. */
  ghost function SentAmong(frames: seq<Inbound>): (at: seq<nat>)
    ensures forall j :: 0 <= j < |at| ==> at[j] < |frames| && frames[at[j]].sent
  {
    if frames == [] then []
    else
      var n := |frames| - 1;
      SentAmong(frames[..n]) + if frames[n].sent then [n] else []
  }

  /** Every packet whose send succeeded has its place on the wire, in the order of the frames. */
  lemma {:induction false} SentInOrder(frames: seq<Inbound>)
    ensures forall i, j :: 0 <= i < j < |SentAmong(frames)| ==> SentAmong(frames)[i] < SentAmong(frames)[j]
    ensures forall i :: 0 <= i < |frames| ==> (frames[i].sent <==> i in SentAmong(frames))
  {
    if frames != [] {
      var n := |frames| - 1;
      SentInOrder(frames[..n]);
      forall i | 0 <= i < |frames|
        ensures frames[i].sent <==> i in SentAmong(frames)
      {
        if i < n {
          assert frames[..n][i] == frames[i];
        }
      }
    }
  }

  /** Positions of the packets that are transcoded while the peer is known, in order. */
  ghost function RelayedAmong(frames: seq<Inbound>): (at: seq<nat>)
    ensures forall j :: 0 <= j < |at| ==> at[j] < |frames| && frames[at[j]].relayed
  {
    if frames == [] then []
    else
      var n := |frames| - 1;
      RelayedAmong(frames[..n]) + if frames[n].relayed then [n] else []
  }

  lemma {:induction false} RelayedInOrder(frames: seq<Inbound>)
    ensures forall i, j :: 0 <= i < j < |RelayedAmong(frames)| ==> RelayedAmong(frames)[i] < RelayedAmong(frames)[j]
    ensures forall i :: 0 <= i < |frames| ==> (frames[i].relayed <==> i in RelayedAmong(frames))
  {
    if frames != [] {
      var n := |frames| - 1;
      RelayedInOrder(frames[..n]);
      forall i | 0 <= i < |frames|
        ensures frames[i].relayed <==> i in RelayedAmong(frames)
      {
        if i < n {
          assert frames[..n][i] == frames[i];
        }
      }
    }
  }

  /** The relayable packets are the frames at those positions. */
  lemma {:induction false} RelayableAt(frames: seq<Inbound>)
    ensures |Relayable(frames)| == |RelayedAmong(frames)|
    ensures forall j :: 0 <= j < |Relayable(frames)| ==> Relayable(frames)[j] == frames[RelayedAmong(frames)[j]]
  {
    if frames != [] {
      RelayableAt(frames[..|frames| - 1]);
    }
  }

  /** How far the timestamp is after `n` packets. */
  function Ticks(n: nat, increment: u32): nat {
    n * increment
  }

  /** The packet that frame `i` becomes: its own payload, number `numbers[i]`, the timestamp of `i` frames
      numbered before, and a marker at the first frame and after every pause of 30 ms. */
  ghost function PacketOf(setup: Setup, frames: seq<Inbound>, numbers: seq<u16>, i: nat): RtpPacket
    requires i < |frames| == |numbers|
  {
    RtpPacket(
      setup.payloadType % 128,
      i == 0 || frames[i].now - frames[i - 1].now >= 30_000_000,
      numbers[i], Wrapping32(setup.start.timestamp, Ticks(i, setup.increment)), setup.start.ssrc, frames[i].payload)
  }

  /** The wire holds exactly the packets whose send succeeded, in order. */
  ghost predicate WireOf(setup: Setup, frames: seq<Inbound>, numbers: seq<u16>, wire: seq<RtpPacket>)
    requires |frames| == |numbers|
  {
    |wire| == |SentAmong(frames)| &&
    forall j :: 0 <= j < |wire| ==> wire[j] == PacketOf(setup, frames, numbers, SentAmong(frames)[j])
  }

  /** History `h` numbered one packet per noted ingress packet, and `numbers` are those packets' numbers. */
  ghost predicate Relayed(start: Start, h: seq<Event>, ingress: seq<u16>, numbers: seq<u16>) {
    && Paired(h)
    && ViewOf(h).ingress == ingress
    && |ViewOf(h).increments| == |ingress| == |numbers|
    && numbers == IssuedNumbers(start, h)
  }

  /** History `h` is that of relaying `frames`, as far as packets depend on it. */
  ghost predicate Clocked(setup: Setup, v: View, frames: seq<Inbound>) {
    v.marks == NowsOf(frames) && Sum(v.increments) == Ticks(|frames|, setup.increment) && v.rotations == []
  }

  lemma RelayedNext(
    start: Start, h: seq<Event>, ingress: seq<u16>, numbers: seq<u16>, x: u16, now: int, increment: u32)
    requires Relayed(start, h, ingress, numbers)
    ensures Relayed(
      start, (h + [Noted(x)]) + [Marked(now), Issued(increment)],
      ingress + [x], numbers + [StampAt(start, ViewOf(h + [Noted(x)])).sequence])
  {
    hide Paired;
    hide StampAt;
    hide ViewOf;
    hide IssuedNumbers;
    var a := h + [Noted(x)];
    var b := a + [Marked(now)];
    Snoc(h, Noted(x));
    Snoc(a, Marked(now));
    Snoc(b, Issued(increment));
    PairedSnoc(h, Noted(x));
    PairedSnoc(a, Marked(now));
    PairedSnoc(b, Issued(increment));
    IssuedNumbersSnoc(start, h, Noted(x));
    IssuedNumbersSnoc(start, a, Marked(now));
    IssuedNumbersSnoc(start, b, Issued(increment));
    StampIgnoresMarks(start, ViewOf(a), now);
    assert b + [Issued(increment)] == a + [Marked(now), Issued(increment)];
  }

  lemma StampIgnoresMarks(start: Start, v: View, now: int)
    ensures StampAt(start, v.After(Marked(now))) == StampAt(start, v)
  {
  }

  lemma RelayedRecorded(start: Start, h: seq<Event>, ingress: seq<u16>, numbers: seq<u16>, sent: Sent)
    requires Relayed(start, h, ingress, numbers)
    ensures Relayed(start, h + [Recorded(sent)], ingress, numbers)
  {
    Snoc(h, Recorded(sent));
    PairedSnoc(h, Recorded(sent));
    IssuedNumbersSnoc(start, h, Recorded(sent));
  }

  lemma TicksNext(n: nat, increment: u32)
    ensures Ticks(n + 1, increment) == Ticks(n, increment) + increment
  {
  }

  lemma ClockedNext(setup: Setup, v: View, frames: seq<Inbound>, f: Inbound)
    requires Clocked(setup, v, frames)
    ensures Clocked(
      setup, v.After(Noted(f.ingress)).After(Marked(f.now)).After(Issued(setup.increment)), frames + [f])
  {
    SumSnoc(v.increments, setup.increment);
    TicksNext(|frames|, setup.increment);
    assert NowsOf(frames + [f]) == NowsOf(frames) + [f.now];
    hide Sum;
    hide Ticks;
    hide NowsOf;
  }

  /** The packet made from the next frame is the one that `PacketOf` says. */
  lemma NextIsPacketOf(setup: Setup, v: View, frames: seq<Inbound>, numbers: seq<u16>, f: Inbound)
    requires Clocked(setup, v, frames) && |frames| == |numbers|
    ensures var stamp := StampAt(setup.start, v.After(Noted(f.ingress)));
            (PacketOf(setup, frames + [f], numbers + [stamp.sequence], |frames|)
             == RtpPacket(
                  setup.payloadType % 128, StartsTalkspurt(Last(v.marks), f.now),
                  stamp.sequence, stamp.timestamp, stamp.ssrc, f.payload))
  {
    hide Sum;
    hide Ticks;
    hide Wrapping32;
    hide SequenceAt;
  }

  /** History `h` is that of relaying `frames`, which got `numbers`. */
  ghost predicate RelayHistory(setup: Setup, h: seq<Event>, frames: seq<Inbound>, numbers: seq<u16>) {
    && |frames| == |numbers|
    && Relayed(setup.start, h, IngressOf(frames), numbers)
    && Clocked(setup, ViewOf(h), frames)
  }

  lemma RelayHistoryNext(setup: Setup, h: seq<Event>, frames: seq<Inbound>, numbers: seq<u16>, f: Inbound)
    requires RelayHistory(setup, h, frames, numbers)
    ensures var p := NextPacket(setup, h + [Noted(f.ingress)], f.payload, f.now);
            && RelayHistory(
                 setup, (h + [Noted(f.ingress)]) + [Marked(f.now), Issued(setup.increment)],
                 frames + [f], numbers + [p.sequence])
            && p == PacketOf(setup, frames + [f], numbers + [p.sequence], |frames|)
  {
    hide Relayed;
    hide Clocked;
    hide StampAt;
    hide PacketOf;
    hide IngressOf;
    hide ViewOf;
    RelayedNext(setup.start, h, IngressOf(frames), numbers, f.ingress, f.now, setup.increment);
    ClockedNext(setup, ViewOf(h), frames, f);
    NextIsPacketOf(setup, ViewOf(h), frames, numbers, f);
    IngressSnoc(frames, f);
    var a := h + [Noted(f.ingress)];
    var b := a + [Marked(f.now)];
    Snoc(h, Noted(f.ingress));
    Snoc(a, Marked(f.now));
    Snoc(b, Issued(setup.increment));
    assert b + [Issued(setup.increment)] == a + [Marked(f.now), Issued(setup.increment)];
  }

  lemma IngressSnoc(frames: seq<Inbound>, f: Inbound)
    ensures IngressOf(frames + [f]) == IngressOf(frames) + [f.ingress]
  {
  }

  lemma RelayHistoryRecorded(setup: Setup, h: seq<Event>, frames: seq<Inbound>, numbers: seq<u16>, sent: Sent)
    requires RelayHistory(setup, h, frames, numbers)
    ensures RelayHistory(setup, h + [Recorded(sent)], frames, numbers)
  {
    hide Relayed;
    hide ViewOf;
    RelayedRecorded(setup.start, h, IngressOf(frames), numbers, sent);
    Snoc(h, Recorded(sent));
  }

  lemma {:induction false} SentAmongSnoc(frames: seq<Inbound>, f: Inbound)
    ensures SentAmong(frames + [f]) == SentAmong(frames) + if f.sent then [|frames|] else []
  {
    assert (frames + [f])[..|frames|] == frames;
  }

  lemma WireNext(setup: Setup, frames: seq<Inbound>, numbers: seq<u16>, wire: seq<RtpPacket>, f: Inbound, p: RtpPacket)
    requires |frames| == |numbers| && WireOf(setup, frames, numbers, wire)
    requires p == PacketOf(setup, frames + [f], numbers + [p.sequence], |frames|)
    ensures WireOf(setup, frames + [f], numbers + [p.sequence], if f.sent then wire + [p] else wire)
  {
    SentAmongSnoc(frames, f);
    var at := SentAmong(frames);
    forall j | 0 <= j < |wire|
      ensures PacketOf(setup, frames + [f], numbers + [p.sequence], at[j]) == wire[j]
    {
      assert (frames + [f])[at[j]] == frames[at[j]];
    }
    hide SentAmong;
    hide PacketOf;
  }

  /** Every packet the loop numbers goes through note, number, send and record. Packet by packet the
      wire is what was sent, whatever sends fail and whatever was dropped before it was numbered. Each
      egress step is the ingress gap clamped to `1..100`, and egress minus ingress is one constant for
      the whole run exactly when every packet numbered was 1 to 100 ingress numbers ahead of the one
      numbered before. */
  method RelayNgnToWeb(setup: Setup, frames: seq<Inbound>) returns (numbers: seq<u16>, wire: seq<RtpPacket>)
    ensures |numbers| == |Relayable(frames)| && WireOf(setup, Relayable(frames), numbers, wire)
    ensures numbers != [] ==> numbers[0] == setup.start.sequence
    ensures var ingress := IngressOf(Relayable(frames));
            FollowsGaps(ingress, numbers) && (ConstantOffset(ingress, numbers) <==> SmallSteps(ingress, |numbers|))
  {
    var task := new EgressTask(
      setup.payloadType, setup.increment, setup.start.rate, setup.start.ssrc, setup.start.sequence, setup.start.timestamp);
    numbers := [];
    RelayingStarts(task);
    hide *;
    for k := 0 to |frames|
      invariant fresh(task) && fresh(task.egress) && task.Fixed() == setup
      invariant Relaying(task, Relayable(frames[..k]), numbers)
    {
      TakeNext(frames, k);
      RelayableSnoc(frames[..k], frames[k]);
      if frames[k].relayed {
        var number := RelayOne(task, frames[k], Relayable(frames[..k]), numbers);
        numbers := numbers + [number];
      }
    }
    assert frames[..|frames|] == frames;
    wire := task.wire;
    RelayingMeans(task, Relayable(frames), numbers);
  }

  lemma RelayableSnoc(frames: seq<Inbound>, f: Inbound)
    ensures Relayable(frames + [f]) == if f.relayed then Relayable(frames) + [f] else Relayable(frames)
  {
    assert (frames + [f])[..|frames|] == frames;
  }

  /** The media task is between packets after relaying `frames`, which got `numbers`. */
  ghost predicate Relaying(task: EgressTask, frames: seq<Inbound>, numbers: seq<u16>)
    reads task, task.egress
  {
    && task.Valid() && task.phase == Idle
    && RelayHistory(task.Fixed(), task.egress.history, frames, numbers)
    && WireOf(task.Fixed(), frames, numbers, task.wire)
  }

  lemma RelayingStarts(task: EgressTask)
    requires task.Valid() && task.phase == Idle && task.egress.history == [] && task.wire == []
    ensures Relaying(task, Relayable([]), [])
  {
  }

  lemma RelayingMeans(task: EgressTask, frames: seq<Inbound>, numbers: seq<u16>)
    requires Relaying(task, frames, numbers)
    ensures |numbers| == |frames| && WireOf(task.Fixed(), frames, numbers, task.wire)
    ensures numbers != [] ==> numbers[0] == task.egress.start.sequence
    ensures FollowsGaps(IngressOf(frames), numbers)
    ensures ConstantOffset(IngressOf(frames), numbers) <==> SmallSteps(IngressOf(frames), |numbers|)
  {
    OffsetConstant(task.egress.start, task.egress.history);
    FirstNumber(task.egress.start, task.egress.history);
    hide WireOf;
    hide Clocked;
    hide EgressTask.Valid;
    hide FollowsGaps;
    hide ConstantOffset;
    hide SmallSteps;
    hide IssuedNumbers;
    hide Paired;
  }

  method RelayOne(task: EgressTask, f: Inbound, ghost frames: seq<Inbound>, ghost numbers: seq<u16>)
    returns (number: u16)
    requires Relaying(task, frames, numbers)
    modifies task, task.egress
    ensures Relaying(task, frames + [f], numbers + [number])
  {
    ghost var setup, h, wire := task.Fixed(), task.egress.history, task.wire;
    assert RelayHistory(setup, h, frames, numbers) && WireOf(setup, frames, numbers, wire) && |frames| == |numbers|;
    hide *;
    RelayHistoryNext(setup, h, frames, numbers, f);
    number := NumberOne(task, f);
    ghost var p := task.phase.packet;
    WireNext(setup, frames, numbers, wire, f, p);
    RelayHistoryRecorded(
      setup, task.egress.history, frames + [f], numbers + [number], Sent(|p.payload|, p.timestamp, f.ntp));
    SendOne(task, f.sent, f.ntp);
    RelayingAgain(task, frames + [f], numbers + [number]);
  }

  /** Note and number under one lock. */
  method NumberOne(task: EgressTask, f: Inbound) returns (number: u16)
    requires task.Valid() && task.phase == Idle
    modifies task, task.egress
    ensures task.Valid() && task.wire == old(task.wire)
    ensures task.phase
         == Sending(NextPacket(task.Fixed(), old(task.egress.history) + [Noted(f.ingress)], f.payload, f.now))
    ensures task.phase.packet.sequence == number
    ensures task.egress.history
         == (old(task.egress.history) + [Noted(f.ingress)]) + [Marked(f.now), Issued(task.increment)]
  {
    hide NextPacket;
    hide EgressTask.Valid;
    task.NoteIngress(f.ingress);
    task.Issue(f.payload, f.now);
    number := task.phase.packet.sequence;
  }

  /** Send, and record only what was sent. */
  method SendOne(task: EgressTask, sent: bool, ntp: Ntp)
    requires task.Valid() && task.phase.Sending?
    modifies task, task.egress
    ensures task.Valid() && task.phase == Idle
    ensures var p := old(task.phase.packet);
            && task.wire == (if sent then old(task.wire) + [p] else old(task.wire))
            && task.egress.history
               == if sent then old(task.egress.history) + [Recorded(Sent(|p.payload|, p.timestamp, ntp))]
                  else old(task.egress.history)
  {
    hide EgressTask.Valid;
    if sent {
      task.SendSucceeds();
      task.RecordSent(ntp);
    } else {
      task.SendFails();
    }
  }

  lemma RelayingAgain(task: EgressTask, frames: seq<Inbound>, numbers: seq<u16>)
    requires task.Valid() && task.phase == Idle
    requires RelayHistory(task.Fixed(), task.egress.history, frames, numbers)
    requires |frames| == |numbers| && WireOf(task.Fixed(), frames, numbers, task.wire)
    ensures Relaying(task, frames, numbers)
  {
  }

  lemma FirstNumber(start: Start, h: seq<Event>)
    requires Paired(h)
    ensures IssuedNumbers(start, h) != [] ==> IssuedNumbers(start, h)[0] == start.sequence
  {
    PairedNumbers(start, h);
  }
}
