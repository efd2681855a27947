/** Telephone events of RFC 4733: the four-byte payload and `build_dtmf_packet_sequence`. */
module Dtmf {
  import opened Prelude
  import opened RtpWire

  const PAYLOAD_TYPE_TELEPHONE_EVENT: u8 := 101

  datatype TelephoneEvent = TelephoneEvent(event: u8, end: bool, volume: u8, duration: u16) {
    /** `into_payload`: the volume field has six bits, so larger volumes are truncated. */
    function IntoPayload(): (payload: seq<u8>)
      ensures |payload| == 4
    {
      [event, (if end then 0x80 else 0) + volume % 64, duration / 256, duration % 256]
    }
  }

  function FromPayload(data: seq<u8>): Result<TelephoneEvent> {
    if |data| < 4 then Err("telephone-event payload needs 4 bytes")
    else Ok(TelephoneEvent(data[0], data[1] / 128 != 0, data[1] % 64, Word16(data[2], data[3])))
  }

  /** Decoding inverts encoding exactly for volumes that fit the six-bit field. */
  lemma PayloadRoundTrip(e: TelephoneEvent)
    ensures FromPayload(e.IntoPayload()) == Ok(e.(volume := e.volume % 64))
    ensures FromPayload(e.IntoPayload()) == Ok(e) <==> e.volume < 64
  {
    var flags := (if e.end then 0x80 else 0) + e.volume % 64;
    assert flags / 128 == if e.end then 1 else 0;
    assert flags % 64 == e.volume % 64;
  }

  /** `ms * CLOCK_HZ / 1000` on 32-bit integers, capped to the 16-bit duration field. */
  function ClockUnits(ms: u32): u16 {
    Min(ms * 8000 % 0x1_0000_0000 / 1000, 0xFFFF)
  }

  /** The unit conversion is the capped 8 samples per millisecond exactly when the 32-bit product does
      not overflow, or overflows to something that is capped as well. */
  lemma ClockUnitsExact(ms: u32)
    ensures ClockUnits(ms) == Min(8 * ms, 0xFFFF)
       <==> ms * 8000 < 0x1_0000_0000 || ms * 8000 % 0x1_0000_0000 >= 65_535_000
  {
    var product: nat := ms * 8000;
    var wrapped: nat := product % 0x1_0000_0000;
    assert ClockUnits(ms) == Min(wrapped / 1000, 0xFFFF);
    if product < 0x1_0000_0000 {
      assert wrapped == product && product / 1000 == 8 * ms;
    }
  }

  function TotalUnits(durationMs: u32): u16 {
    ClockUnits(Max(durationMs, 1))
  }

  function PeriodUnits(durationMs: u32, periodMs: u32): u16 {
    if periodMs == 0 then TotalUnits(durationMs) else Max(ClockUnits(periodMs), 1)
  }

  /** Key-down time reported after `n` periods. */
  function Elapsed(n: nat, period: u16): nat {
    n * period
  }

  /** ceil(total / period), and one packet when the press has no length at all. */
  function KeyDownPackets(total: u16, period: u16): (n: nat)
    requires total > 0 ==> period > 0
    ensures n >= 1
    ensures total > 0 ==> (n - 1) * period < total <= n * period
  {
    if total == 0 then 1
    else
      var t: nat, p: nat := total, period;
      CeilingBounds(t, p);
      (t + p - 1) / p
  }

  lemma CeilingBounds(total: nat, period: nat)
    requires total > 0 && period > 0
    ensures var n := (total + period - 1) / period; n >= 1 && (n - 1) * period < total <= n * period
  {
    var n := (total + period - 1) / period;
    assert total + period - 1 == n * period + (total + period - 1) % period;
    assert n != 0;
    assert (n - 1) * period == n * period - period;
  }

  /** The event reported by packet `i` of a press: growing durations, then the final one. */
  function EventAt(event: u8, volume: u8, total: u16, period: u16, i: nat): TelephoneEvent
    requires total > 0 ==> period > 0
  {
    if i < KeyDownPackets(total, period)
    then TelephoneEvent(event, false, volume, Min(Elapsed(i + 1, period), total))
    else TelephoneEvent(event, true, volume, total)
  }

  function PacketAt(event: u8, seq0: u16, timestamp: u32, ssrc: u32, total: u16, period: u16, volume: u8, i: nat): RtpPacket
    requires total > 0 ==> period > 0
  {
    RtpPacket(
      PAYLOAD_TYPE_TELEPHONE_EVENT, i == 0, Wrapping16(seq0, i), timestamp, ssrc,
      EventAt(event, volume, total, period, i).IntoPayload())
  }

  ghost predicate IsPress(
    packets: seq<RtpPacket>, event: u8, seq0: u16, timestamp: u32, ssrc: u32, total: u16, period: u16, volume: u8)
    requires total > 0 ==> period > 0
  {
    forall i :: 0 <= i < |packets| ==> packets[i] == PacketAt(event, seq0, timestamp, ssrc, total, period, volume, i)
  }

  lemma ExtendPress(
    packets: seq<RtpPacket>, evt: TelephoneEvent,
    event: u8, seq0: u16, timestamp: u32, ssrc: u32, total: u16, period: u16, volume: u8)
    returns (packet: RtpPacket)
    requires total > 0 ==> period > 0
    requires IsPress(packets, event, seq0, timestamp, ssrc, total, period, volume)
    requires evt == EventAt(event, volume, total, period, |packets|)
    ensures packet == RtpPacket(
      PAYLOAD_TYPE_TELEPHONE_EVENT, packets == [], Wrapping16(seq0, |packets|), timestamp, ssrc, evt.IntoPayload())
    ensures IsPress(packets + [packet], event, seq0, timestamp, ssrc, total, period, volume)
  {
    packet := PacketAt(event, seq0, timestamp, ssrc, total, period, volume, |packets|);
  }

  /** The number of packets and every packet of the sequence, although `accumulated` saturates. */
  method BuildDtmfPacketSequence(
    event: u8, startSeq: u16, startTimestamp: u32, ssrc: u32, durationMs: u32, periodMs: u32, volume: u8)
    returns (packets: seq<RtpPacket>)
    ensures var total, period := TotalUnits(durationMs), PeriodUnits(durationMs, periodMs);
            && |packets| == KeyDownPackets(total, period) + 3
            && IsPress(packets, event, startSeq, startTimestamp, ssrc, total, period, volume)
    ensures InFull(packets, event, startSeq, startTimestamp, ssrc, volume)
    ensures var ms: nat := if durationMs == 0 then 1 else durationMs;
            ms * 8000 < 0x1_0000_0000 && periodMs * 8000 < 0x1_0000_0000 ==>
              (var total := if 8 * ms < 0x1_0000 then 8 * ms else 0xFFFF;
               var period := if periodMs == 0 then total else if 8 * periodMs < 0x1_0000 then 8 * periodMs else 0xFFFF;
               LastsFor(packets, total, period))
  {
    UnitsOf(durationMs, periodMs);
    hide IsPress;
    hide InFull;
    hide LastsFor;
    hide KeyDownPackets;
    var total: u16 := ClockUnits(Max(durationMs, 1));
    var period: u16 := if periodMs == 0 then total else Max(ClockUnits(periodMs), 1);
    var sequence;
    packets, sequence := KeyDownLoop(event, startSeq, startTimestamp, ssrc, total, period, volume);
    packets := AppendEndPackets(packets, event, startSeq, startTimestamp, ssrc, total, period, volume, sequence);
    PressInFull(packets, event, startSeq, startTimestamp, ssrc, total, period, volume);
  }

  /** Packet `i` of a press with `keyDown` packets before the end, read off its own bytes: payload type 101,
      consecutive numbers, one timestamp and SSRC, a marker on the first alone, and a payload of section
      2.3 of RFC 4733 with the event, the volume in six bits, a clear reserved bit, and the end bit. */
  ghost predicate HeaderInFull(
    p: RtpPacket, i: nat, keyDown: nat, event: u8, startSeq: u16, timestamp: u32, ssrc: u32, volume: u8)
  {
    && p.payloadType == 101 && (p.marker <==> i == 0)
    && p.sequence == (startSeq + i) % 0x1_0000
    && p.timestamp == timestamp && p.ssrc == ssrc
    && |p.payload| == 4 && p.payload[0] == event
    && p.payload[1] % 64 == volume % 64 && p.payload[1] / 64 % 2 == 0
    && (p.payload[1] / 128 == 1 <==> i >= keyDown)
  }

  ghost predicate InFull(packets: seq<RtpPacket>, event: u8, startSeq: u16, timestamp: u32, ssrc: u32, volume: u8) {
    |packets| >= 4 &&
    forall i :: 0 <= i < |packets| ==>
      HeaderInFull(packets[i], i, |packets| - 3, event, startSeq, timestamp, ssrc, volume)
  }

  /** The duration that packet `i` reports: one period more than the packet before, up to the total. */
  ghost predicate DurationInFull(p: RtpPacket, i: nat, keyDown: nat, total: nat, period: nat) {
    |p.payload| == 4 &&
    p.payload[2] as int * 256 + p.payload[3] as int
      == if i < keyDown && (i + 1) * period < total then (i + 1) * period else total
  }

  /** The last key-down packet is the first to reach the total, and the three end packets repeat it. */
  ghost predicate LastsFor(packets: seq<RtpPacket>, total: nat, period: nat) {
    var keyDown := |packets| - 3;
    && keyDown >= 1 && (keyDown - 1) * period < total <= keyDown * period
    && forall i :: 0 <= i < |packets| ==> DurationInFull(packets[i], i, keyDown, total, period)
  }

  lemma PayloadBytes(e: TelephoneEvent)
    ensures var b := e.IntoPayload();
            && b[0] == e.event && b[1] % 64 == e.volume % 64 && b[1] / 64 % 2 == 0
            && (b[1] / 128 == 1 <==> e.end) && b[2] as int * 256 + b[3] as int == e.duration as int
  {
    var b: nat := (if e.end then 128 else 0) + e.volume % 64;
    assert b / 64 == if e.end then 2 else 0;
  }

  lemma PacketInFull(
    event: u8, seq0: u16, timestamp: u32, ssrc: u32, total: u16, period: u16, volume: u8, i: nat)
    requires total > 0 ==> period > 0
    ensures var p, n := PacketAt(event, seq0, timestamp, ssrc, total, period, volume, i), KeyDownPackets(total, period);
            && HeaderInFull(p, i, n, event, seq0, timestamp, ssrc, volume)
            && DurationInFull(p, i, n, total, period)
  {
    PayloadBytes(EventAt(event, volume, total, period, i));
    hide KeyDownPackets;
    hide TelephoneEvent.IntoPayload;
  }

  lemma PressInFull(
    packets: seq<RtpPacket>, event: u8, seq0: u16, timestamp: u32, ssrc: u32, total: u16, period: u16, volume: u8)
    requires total > 0 ==> period > 0
    requires |packets| == KeyDownPackets(total, period) + 3
    requires IsPress(packets, event, seq0, timestamp, ssrc, total, period, volume)
    ensures InFull(packets, event, seq0, timestamp, ssrc, volume)
    ensures total > 0 ==> LastsFor(packets, total, period)
  {
    hide PacketAt;
    hide HeaderInFull;
    hide DurationInFull;
    forall i | 0 <= i < |packets|
      ensures HeaderInFull(packets[i], i, |packets| - 3, event, seq0, timestamp, ssrc, volume)
      ensures DurationInFull(packets[i], i, |packets| - 3, total, period)
    {
      PacketInFull(event, seq0, timestamp, ssrc, total, period, volume, i);
    }
  }

  /** Both durations in samples: 8 per millisecond, capped, while the products fit 32 bits. */
  lemma UnitsOf(durationMs: u32, periodMs: u32)
    ensures var ms: nat := if durationMs == 0 then 1 else durationMs;
            ms * 8000 < 0x1_0000_0000 && periodMs * 8000 < 0x1_0000_0000 ==>
              (var total := if 8 * ms < 0x1_0000 then 8 * ms else 0xFFFF;
               && total > 0 && TotalUnits(durationMs) == total
               && PeriodUnits(durationMs, periodMs)
                  == if periodMs == 0 then total else if 8 * periodMs < 0x1_0000 then 8 * periodMs else 0xFFFF)
  {
    ClockUnitsExact(Max(durationMs, 1));
    ClockUnitsExact(periodMs);
    hide ClockUnits;
  }

  /** The packets sent while the key is down, up to the first whose duration reaches the total. */
  method KeyDownLoop(
    event: u8, startSeq: u16, startTimestamp: u32, ssrc: u32, total: u16, period: u16, volume: u8)
    returns (packets: seq<RtpPacket>, sequence: u16)
    requires total > 0 ==> period > 0
    ensures |packets| == KeyDownPackets(total, period)
    ensures sequence == Wrapping16(startSeq, |packets|)
    ensures IsPress(packets, event, startSeq, startTimestamp, ssrc, total, period, volume)
  {
    ghost var n := KeyDownPackets(total, period);
    packets := [];
    sequence := startSeq;
    assert IsPress(packets, event, startSeq, startTimestamp, ssrc, total, period, volume);
    assert Elapsed(1, period) == period && sequence == Wrapping16(startSeq, 0);
    hide KeyDownPackets;
    hide Elapsed;
    hide IsPress;
    hide Wrapping16;
    var accumulated: nat := period;
    var first := true;
    var done := false;
    while !done
      invariant if done then |packets| == n else |packets| < n
      invariant first <==> packets == []
      invariant sequence == Wrapping16(startSeq, |packets|)
      invariant !done ==> accumulated == Min(Elapsed(|packets| + 1, period), 0xFFFF)
      invariant IsPress(packets, event, startSeq, startTimestamp, ssrc, total, period, volume)
      decreases n - |packets|, !done
    {
      var current := Min(accumulated, total);
      StepOfPress(total, period, |packets|);
      var evt := TelephoneEvent(event, false, volume, current);
      ghost var _ := ExtendPress(packets, evt, event, startSeq, startTimestamp, ssrc, total, period, volume);
      packets := packets + [RtpPacket(PAYLOAD_TYPE_TELEPHONE_EVENT, first, sequence, startTimestamp, ssrc, evt.IntoPayload())];
      Wrapping16Twice(startSeq, |packets| - 1, 1);
      sequence := Wrapping16(sequence, 1);
      first := false;
      if current >= total {
        done := true;
      } else {
        accumulated := Min(accumulated + period, 0xFFFF);
      }
    }
  }

  /** The three retransmissions of the end packet (section 2.5.1.4 of RFC 4733). */
  method AppendEndPackets(
    keyDown: seq<RtpPacket>, event: u8, startSeq: u16, startTimestamp: u32, ssrc: u32,
    total: u16, period: u16, volume: u8, nextSeq: u16)
    returns (packets: seq<RtpPacket>)
    requires total > 0 ==> period > 0
    requires |keyDown| == KeyDownPackets(total, period) && nextSeq == Wrapping16(startSeq, |keyDown|)
    requires IsPress(keyDown, event, startSeq, startTimestamp, ssrc, total, period, volume)
    ensures |packets| == |keyDown| + 3
    ensures IsPress(packets, event, startSeq, startTimestamp, ssrc, total, period, volume)
  {
    hide KeyDownPackets;
    hide IsPress;
    hide Wrapping16;
    packets := keyDown;
    var sequence := nextSeq;
    var finalEvt := TelephoneEvent(event, true, volume, total);
    var finalPayload := finalEvt.IntoPayload();
    for k := 0 to 3
      invariant |packets| == |keyDown| + k
      invariant sequence == Wrapping16(startSeq, |packets|)
      invariant IsPress(packets, event, startSeq, startTimestamp, ssrc, total, period, volume)
    {
      ghost var _ := ExtendPress(packets, finalEvt, event, startSeq, startTimestamp, ssrc, total, period, volume);
      packets := packets + [RtpPacket(PAYLOAD_TYPE_TELEPHONE_EVENT, false, sequence, startTimestamp, ssrc, finalPayload)];
      Wrapping16Twice(startSeq, |packets| - 1, 1);
      sequence := Wrapping16(sequence, 1);
    }
  }

  /** Packet `i` reaches the total exactly when it is the last of the key-down packets. */
  lemma StepOfPress(total: u16, period: u16, i: nat)
    requires total > 0 ==> period > 0
    requires i < KeyDownPackets(total, period)
    ensures Elapsed(i + 1, period) >= total <==> i + 1 == KeyDownPackets(total, period)
    ensures Elapsed(i + 2, period) == Elapsed(i + 1, period) + period
  {
    var n := KeyDownPackets(total, period);
    if total > 0 && i + 1 < n {
      MulMonotone(i + 1, n - 1, period);
    }
  }

  /** Durations grow strictly up to the total, which the three identical end packets repeat. */
  lemma PressShape(event: u8, volume: u8, total: u16, period: u16, i: nat)
    requires total > 0 ==> period > 0
    ensures var n, e := KeyDownPackets(total, period), EventAt(event, volume, total, period, i);
            && (e.end <==> i >= n)
            && (e.duration == total <==> i >= n - 1)
            && (i < n - 1 ==> e.duration < EventAt(event, volume, total, period, i + 1).duration)
            && (i >= n ==> e == EventAt(event, volume, total, period, n))
  {
    var n := KeyDownPackets(total, period);
    if i < n {
      StepOfPress(total, period, i);
    }
    if i + 1 < n {
      StepOfPress(total, period, i + 1);
    }
  }

  /** What a receiver gets back from packet `i`, byte for byte: the intended event exactly when the volume fits. */
  lemma ReceiverRecovers(
    event: u8, seq0: u16, timestamp: u32, ssrc: u32, total: u16, period: u16, volume: u8, i: nat, received: RtpPacket)
    requires total > 0 ==> period > 0
    requires Encodes(
      Plain(PacketAt(event, seq0, timestamp, ssrc, total, period, volume, i)).Wire(), received)
    ensures var p, e := PacketAt(event, seq0, timestamp, ssrc, total, period, volume, i), EventAt(event, volume, total, period, i);
            && received == p
            && FromPayload(received.payload) == Ok(e.(volume := volume % 64))
            && (FromPayload(received.payload) == Ok(e) <==> volume < 64)
  {
    var p := PacketAt(event, seq0, timestamp, ssrc, total, period, volume, i);
    assert Encodes(Plain(p).Wire(), p);
    EncodingUnique(Plain(p).Wire(), received, p);
    PayloadRoundTrip(EventAt(event, volume, total, period, i));
  }
}
