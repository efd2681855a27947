/** The RTP wire format of section 5.1 of RFC 3550: `RtpPacket::to_bytes` and `RtpPacket::from_bytes`. */
module RtpWire {
  import opened Prelude

  datatype RtpPacket = RtpPacket(
    payloadType: u8,
    marker: bool,
    sequence: u16,
    timestamp: u32,
    ssrc: u32,
    payload: seq<u8>)

  /** Section 5.3.1 of RFC 3550: a 16-bit profile word, then a counted number of 32-bit words. */
  datatype Extension = Extension(profile: seq<u8>, words: seq<u8>) {
    ghost predicate Valid() {
      |profile| == 2 && |words| % 4 == 0 && |words| / 4 < 0x1_0000
    }
  }

  /** One way of writing a packet on the wire. `csrcs` and `words` are kept as raw bytes, because
      the parser skips them; `padding` holds the trailing pad bytes including their count byte. */
  datatype Encoding = Encoding(
    packet: RtpPacket,
    csrcs: seq<u8>,
    extension: Option<Extension>,
    padding: seq<u8>)
  {
    ghost predicate Valid() {
      && packet.payloadType < 128
      && |csrcs| % 4 == 0 && |csrcs| / 4 < 16
      && (extension.Some? ==> extension.value.Valid())
      && |padding| < 256
      && (padding != [] ==> padding[|padding| - 1] == |padding|)
    }

    ghost function FirstByte(): u8
      requires Valid()
    {
      2 * 64 + (if padding != [] then 32 else 0) + (if extension.Some? then 16 else 0) + |csrcs| / 4
    }

    ghost function FixedHeader(): (b: seq<u8>)
      requires Valid()
      ensures |b| == 12
    {
      [FirstByte(), (if packet.marker then 128 else 0) + packet.payloadType]
      + Bytes16(packet.sequence) + Bytes32(packet.timestamp) + Bytes32(packet.ssrc)
    }

    ghost function ExtensionBytes(): seq<u8>
      requires Valid()
    {
      match extension
      case None => []
      case Some(x) => x.profile + Bytes16(|x.words| / 4) + x.words
    }

    ghost function Wire(): seq<u8>
      requires Valid()
    {
      FixedHeader() + csrcs + ExtensionBytes() + packet.payload + padding
    }
  }

  /** `data` is an encoding of `p`. */
  ghost predicate Encodes(data: seq<u8>, p: RtpPacket) {
    exists e: Encoding :: e.Valid() && e.packet == p && e.Wire() == data
  }

  /** The encoding that `to_bytes` chooses: no CSRC, no extension, no padding. */
  ghost function Plain(p: RtpPacket): (e: Encoding)
    requires p.payloadType < 128
    ensures e.Valid()
  {
    Encoding(p, [], None, [])
  }

  /** `to_bytes` keeps only the low seven bits of the payload type. */
  function Masked(p: RtpPacket): RtpPacket {
    p.(payloadType := p.payloadType % 128)
  }

  method ToBytes(p: RtpPacket) returns (buf: seq<u8>)
    ensures buf == Plain(Masked(p)).Wire()
    ensures Encodes(buf, Masked(p))
    ensures |buf| == 12 + |p.payload| && buf[12..] == p.payload
    ensures buf[0] == 128 && buf[1] % 128 == p.payloadType % 128 && (buf[1] >= 128 <==> p.marker)
    ensures Unsigned(buf[2..4]) == p.sequence
    ensures Unsigned(buf[4..8]) == p.timestamp && Unsigned(buf[8..12]) == p.ssrc
  {
    buf := [0x80];
    var mBit := if p.marker then 0x80 else 0;
    buf := buf + [mBit + p.payloadType % 128];
    buf := buf + Bytes16(p.sequence);
    buf := buf + Bytes32(p.timestamp);
    buf := buf + Bytes32(p.ssrc);
    buf := buf + p.payload;
    assert buf == Plain(Masked(p)).Wire();
    HeaderOnWire(Plain(Masked(p)));
  }

  /** The part of `data` before the extension, as the CSRC count of the first byte gives it. */
  function CsrcEnd(data: seq<u8>): nat
    requires |data| >= 12
  {
    12 + data[0] % 16 * 4
  }

  predicate HasExtension(data: seq<u8>)
    requires |data| >= 12
  {
    data[0] / 16 % 2 != 0
  }

  predicate HasPadding(data: seq<u8>)
    requires |data| >= 12
  {
    data[0] / 32 % 2 != 0
  }

  function BodyStart(data: seq<u8>): nat
    requires |data| >= 12
    requires HasExtension(data) ==> |data| >= CsrcEnd(data) + 4
  {
    if HasExtension(data)
    then CsrcEnd(data) + 4 + Word16(data[CsrcEnd(data) + 2], data[CsrcEnd(data) + 3]) * 4
    else CsrcEnd(data)
  }

  /** Every length check the parser makes, in terms of the bytes alone. */
  predicate Accepted(data: seq<u8>) {
    && |data| >= 12
    && data[0] / 64 == 2
    && |data| >= CsrcEnd(data)
    && (HasExtension(data) ==> |data| >= CsrcEnd(data) + 4)
    && |data| >= BodyStart(data)
    && (HasPadding(data) ==> 0 < data[|data| - 1] <= |data| - BodyStart(data))
  }

  function BodyEnd(data: seq<u8>): nat
    requires Accepted(data)
  {
    if HasPadding(data) then |data| - data[|data| - 1] else |data|
  }

  function Fields(data: seq<u8>): RtpPacket
    requires Accepted(data)
  {
    RtpPacket(
      data[1] % 128,
      data[1] / 128 != 0,
      Word16(data[2], data[3]),
      Word32(data[4], data[5], data[6], data[7]),
      Word32(data[8], data[9], data[10], data[11]),
      data[BodyStart(data)..BodyEnd(data)])
  }

  method FromBytes(data: seq<u8>) returns (r: Result<RtpPacket>)
    ensures r.Ok? ==> Encodes(data, r.value)
    ensures r.Err? ==> forall p :: !Encodes(data, p)
  {
    r := Parse(data);
    if Accepted(data) {
      AcceptedIsEncoding(data);
    } else if exists p :: Encodes(data, p) {
      var e: Encoding :| e.Valid() && e.Wire() == data;
      EncodingIsAccepted(e);
    }
  }

  /** The byte scan of `from_bytes`: never out of range, and successful exactly on `Accepted` input. */
  method Parse(data: seq<u8>) returns (r: Result<RtpPacket>)
    ensures r.Ok? <==> Accepted(data)
    ensures r.Ok? ==> r.value == Fields(data)
  {
    hide Word16;
    hide Word32;
    if |data| < 12 {
      return Err("too short");
    }
    var version := data[0] / 64;
    if version != 2 {
      return Err("bad version");
    }
    var padding := data[0] / 32 % 2 != 0;
    var extension := data[0] / 16 % 2 != 0;
    var cc := data[0] % 16;
    var marker := data[1] / 128 != 0;
    var payloadType := data[1] % 128;
    var sequence := Word16(data[2], data[3]);
    var timestamp := Word32(data[4], data[5], data[6], data[7]);
    var ssrc := Word32(data[8], data[9], data[10], data[11]);

    var offset: nat := 12 + cc * 4;
    if |data| < offset {
      return Err("CSRC area too short");
    }
    if extension {
      if |data| < offset + 4 {
        return Err("extension header too short");
      }
      var extLen: nat := Word16(data[offset + 2], data[offset + 3]);
      offset := offset + 4 + extLen * 4;
      if |data| < offset {
        return Err("extension too short");
      }
    }

    var end: nat := |data|;
    if padding {
      var padLen := data[end - 1];
      if padLen == 0 || padLen > end - offset {
        return Err("bad padding");
      }
      end := end - padLen;
    }
    r := Ok(RtpPacket(payloadType, marker, sequence, timestamp, ssrc, data[offset..end]));
  }

  lemma FirstByteBits(padded: nat, extended: nat, cc: nat)
    requires padded < 2 && extended < 2 && cc < 16
    ensures var b := 128 + 32 * padded + 16 * extended + cc;
            b / 64 == 2 && b / 32 % 2 == padded && b / 16 % 2 == extended && b % 16 == cc
  {
  }

  lemma FirstByteFromBits(b: u8)
    requires b / 64 == 2
    ensures b == 128 + 32 * (b / 32 % 2) + 16 * (b / 16 % 2) + b % 16
  {
  }

  /** Where the parts of an encoding sit in its bytes. */
  lemma Layout(e: Encoding)
    requires e.Valid()
    ensures var w, h, x := e.Wire(), 12 + |e.csrcs|, |e.ExtensionBytes()|;
            && |w| == h + x + |e.packet.payload| + |e.padding|
            && w[..12] == e.FixedHeader()
            && w[h..h + x] == e.ExtensionBytes()
            && w[h + x..h + x + |e.packet.payload|] == e.packet.payload
            && w[h + x + |e.packet.payload|..] == e.padding
  {
  }

  lemma HeaderFields(e: Encoding)
    requires e.Valid()
    ensures var f := e.FixedHeader();
            && f[0] == e.FirstByte()
            && f[1] % 128 == e.packet.payloadType && (f[1] / 128 != 0) == e.packet.marker
            && Word16(f[2], f[3]) == e.packet.sequence
            && Word32(f[4], f[5], f[6], f[7]) == e.packet.timestamp
            && Word32(f[8], f[9], f[10], f[11]) == e.packet.ssrc
  {
    hide Word16;
    hide Word32;
    hide Bytes16;
    hide Bytes32;
    hide Encoding.FirstByte;
    Word16Inverts(e.packet.sequence);
    Word32Inverts(e.packet.timestamp);
    Word32Inverts(e.packet.ssrc);
    SecondByte(e.packet);
  }

  lemma SecondByte(p: RtpPacket)
    requires p.payloadType < 128
    ensures var b := (if p.marker then 128 else 0) + p.payloadType;
            b % 128 == p.payloadType && (b / 128 != 0) == p.marker
  {
  }

  lemma BodyBounds(e: Encoding)
    requires e.Valid()
    ensures var w := e.Wire();
            && |w| >= 12 && w[0] == e.FirstByte()
            && CsrcEnd(w) == 12 + |e.csrcs| <= |w|
            && HasExtension(w) == e.extension.Some? && HasPadding(w) == (e.padding != [])
            && (HasExtension(w) ==> CsrcEnd(w) + 4 <= |w|)
            && BodyStart(w) == CsrcEnd(w) + |e.ExtensionBytes()|
  {
    var w, h := e.Wire(), 12 + |e.csrcs|;
    Layout(e);
    HeaderFields(e);
    hide Encoding.FixedHeader;
    hide Encoding.Wire;
    hide Word16;
    hide Bytes16;
    assert w[0] == w[..12][0];
    FirstByteBits(if e.padding != [] then 1 else 0, if e.extension.Some? then 1 else 0, |e.csrcs| / 4);
    if e.extension.Some? {
      var x := e.ExtensionBytes();
      assert w[h + 2] == x[2] && w[h + 3] == x[3];
      Word16Inverts(|e.extension.value.words| / 4);
    }
  }

  /** The number that bytes in network order stand for. */
  ghost function Unsigned(b: seq<u8>): nat {
    if b == [] then 0 else Unsigned(b[..|b| - 1]) * 256 + b[|b| - 1]
  }

  lemma UnsignedSnoc(b: seq<u8>, x: u8)
    ensures Unsigned(b + [x]) == Unsigned(b) * 256 + x
  {
    assert (b + [x])[..|b|] == b;
  }

  lemma UnsignedTwoMore(b: seq<u8>, n: u16)
    ensures Unsigned(b + Bytes16(n)) == Unsigned(b) * 0x1_0000 + n
  {
    var high: u8, low: u8 := n / 256, n % 256;
    UnsignedSnoc(b, high);
    UnsignedSnoc(b + [high], low);
    hide Unsigned;
    assert b + Bytes16(n) == (b + [high]) + [low];
    hide Bytes16;
    assert n == high * 256 + low;
  }

  lemma UnsignedBytes16(n: u16)
    ensures Unsigned(Bytes16(n)) == n
  {
    UnsignedTwoMore([], n);
    assert [] + Bytes16(n) == Bytes16(n);
  }

  lemma UnsignedBytes32(n: u32)
    ensures Unsigned(Bytes32(n)) == n
  {
    UnsignedBytes16(High(n));
    UnsignedTwoMore(Bytes16(High(n)), Low(n));
  }

  lemma FirstByteFields(e: Encoding)
    requires e.Valid()
    ensures var b := e.FirstByte();
            b / 64 == 2 && (b / 32 % 2 == 1 <==> e.padding != []) && (b / 16 % 2 == 1 <==> e.extension.Some?)
            && b % 16 * 4 == |e.csrcs|
  {
    FirstByteBits(if e.padding != [] then 1 else 0, if e.extension.Some? then 1 else 0, |e.csrcs| / 4);
  }

  lemma HeaderNumbers(e: Encoding)
    requires e.Valid()
    ensures var f, p := e.FixedHeader(), e.packet;
            Unsigned(f[2..4]) == p.sequence && Unsigned(f[4..8]) == p.timestamp && Unsigned(f[8..12]) == p.ssrc
  {
    hide Unsigned;
    hide Bytes16;
    hide Bytes32;
    hide Encoding.FirstByte;
    var f := e.FixedHeader();
    UnsignedBytes16(e.packet.sequence);
    UnsignedBytes32(e.packet.timestamp);
    UnsignedBytes32(e.packet.ssrc);
    assert f[2..4] == Bytes16(e.packet.sequence);
    assert f[4..8] == Bytes32(e.packet.timestamp);
    assert f[8..12] == Bytes32(e.packet.ssrc);
  }

  /** The fixed header of section 5.1 of RFC 3550 in the bytes of an encoding: version 2, the padding
      and extension bits, the CSRC count, marker and payload type, then the three numbers. */
  lemma HeaderOnWire(e: Encoding)
    requires e.Valid()
    ensures var w, p := e.Wire(), e.packet;
            && |w| >= 12
            && w[0] / 64 == 2 && (w[0] / 32 % 2 == 1 <==> e.padding != []) && (w[0] / 16 % 2 == 1 <==> e.extension.Some?)
            && w[0] % 16 * 4 == |e.csrcs|
            && (w[1] / 128 == 1 <==> p.marker) && w[1] % 128 == p.payloadType
            && Unsigned(w[2..4]) == p.sequence && Unsigned(w[4..8]) == p.timestamp && Unsigned(w[8..12]) == p.ssrc
  {
    var w, f := e.Wire(), e.FixedHeader();
    assert w[..12] == f;
    FirstByteFields(e);
    HeaderNumbers(e);
    SecondByte(e.packet);
    assert f[0] == e.FirstByte() && f[1] == (if e.packet.marker then 128 else 0) + e.packet.payloadType;
    hide *;
    assert w[0] == w[..12][0] && w[1] == w[..12][1];
    assert w[2..4] == w[..12][2..4] && w[4..8] == w[..12][4..8] && w[8..12] == w[..12][8..12];
  }

  /** What follows the fixed header: the CSRC list, the extension with its word count (section 5.3.1),
      the payload, and the padding that ends in its own length. */
  lemma PartsOnWire(e: Encoding)
    requires e.Valid()
    ensures var w, x, h := e.Wire(), e.extension, 12 + |e.csrcs|;
            && |w| >= h && w[12..h] == e.csrcs
            && (x.None? ==> w[h..] == e.packet.payload + e.padding)
            && (x.Some? ==>
                  && |w| >= h + 4 && w[h..h + 2] == x.value.profile
                  && Unsigned(w[h + 2..h + 4]) * 4 == |x.value.words|
                  && w[h + 4..] == x.value.words + e.packet.payload + e.padding)
            && (e.padding != [] ==> w[|w| - 1] == |e.padding|)
  {
    var w, h := e.Wire(), 12 + |e.csrcs|;
    var front := e.ExtensionBytes() + e.packet.payload;
    AfterCsrcs(w, e.FixedHeader(), e.csrcs, front + e.padding);
    if e.extension.Some? {
      ExtensionOnWire(e, front + e.padding);
      FourMore(w, h, front + e.padding);
    } else {
      assert e.ExtensionBytes() + e.packet.payload == e.packet.payload;
    }
    if e.padding != [] {
      LastByte(w, h, front, e.padding);
    }
    hide *;
  }

  lemma AfterCsrcs(w: seq<u8>, header: seq<u8>, csrcs: seq<u8>, rest: seq<u8>)
    requires |header| == 12 && w == header + csrcs + rest
    ensures w[12..12 + |csrcs|] == csrcs && w[12 + |csrcs|..] == rest
  {
  }

  lemma LastByte(w: seq<u8>, h: nat, front: seq<u8>, padding: seq<u8>)
    requires h <= |w| && w[h..] == front + padding && padding != []
    ensures w[|w| - 1] == padding[|padding| - 1]
  {
    assert w[h..][|w| - h - 1] == w[|w| - 1];
  }

  lemma ExtensionOnWire(e: Encoding, rest: seq<u8>)
    requires e.Valid() && e.extension.Some? && rest == e.ExtensionBytes() + e.packet.payload + e.padding
    ensures |rest| >= 4 && rest[..2] == e.extension.value.profile
    ensures Unsigned(rest[2..4]) * 4 == |e.extension.value.words|
    ensures rest[4..] == e.extension.value.words + e.packet.payload + e.padding
  {
    var x := e.extension.value;
    var count: u16 := |x.words| / 4;
    UnsignedBytes16(count);
    hide Unsigned;
    hide Bytes16;
    assert rest == x.profile + Bytes16(count) + (x.words + e.packet.payload + e.padding);
    assert rest[2..4] == Bytes16(count);
  }

  lemma FourMore(w: seq<u8>, h: nat, rest: seq<u8>)
    requires h <= |w| && w[h..] == rest && |rest| >= 4
    ensures w[h..h + 2] == rest[..2] && w[h + 2..h + 4] == rest[2..4] && w[h + 4..] == rest[4..]
  {
  }

  /** The parser accepts every encoding and recovers the packet it carries. */
  lemma EncodingIsAccepted(e: Encoding)
    requires e.Valid()
    ensures Accepted(e.Wire())
    ensures Fields(e.Wire()) == e.packet
  {
    var w, f := e.Wire(), e.FixedHeader();
    Layout(e);
    BodyBounds(e);
    HeaderFields(e);
    assert forall i :: 0 <= i < 12 ==> w[i] == f[i];
    assert w[BodyStart(w)..BodyStart(w) + |e.packet.payload|] == e.packet.payload;
  }

  lemma HeaderBytes(e: Encoding, data: seq<u8>)
    requires e.Valid() && |data| >= 12
    requires e.FirstByte() == data[0]
    requires e.packet.payloadType == data[1] % 128 && e.packet.marker == (data[1] / 128 != 0)
    requires e.packet.sequence == Word16(data[2], data[3])
    requires e.packet.timestamp == Word32(data[4], data[5], data[6], data[7])
    requires e.packet.ssrc == Word32(data[8], data[9], data[10], data[11])
    ensures e.FixedHeader() == data[..12]
  {
    hide Word16;
    hide Word32;
    hide Bytes16;
    hide Bytes32;
    assert (if e.packet.marker then 128 else 0) + e.packet.payloadType == data[1];
    Word16Bytes(data[2], data[3]);
    Word32Bytes(data[4], data[5], data[6], data[7]);
    Word32Bytes(data[8], data[9], data[10], data[11]);
  }

  lemma ExtensionBytesMatch(e: Encoding, data: seq<u8>, h: nat, s: nat)
    requires e.Valid() && e.extension.Some?
    requires h + 4 <= s <= |data| && s == h + 4 + 4 * Word16(data[h + 2], data[h + 3])
    requires e.extension.value == Extension(data[h..h + 2], data[h + 4..s])
    ensures e.ExtensionBytes() == data[h..s]
  {
    var n := Word16(data[h + 2], data[h + 3]);
    assert |e.extension.value.words| / 4 == n;
    assert data[h..s] == data[h..h + 2] + data[h + 2..h + 4] + data[h + 4..s];
    Word16Bytes(data[h + 2], data[h + 3]);
    assert data[h + 2..h + 4] == [data[h + 2], data[h + 3]];
  }

  lemma CutsInOrder(data: seq<u8>)
    requires Accepted(data)
    ensures 12 <= CsrcEnd(data) <= BodyStart(data) <= BodyEnd(data) <= |data|
    ensures (CsrcEnd(data) - 12) % 4 == 0 && (CsrcEnd(data) - 12) / 4 == data[0] % 16
    ensures HasExtension(data) ==>
      var n := BodyStart(data) - CsrcEnd(data) - 4; n >= 0 && n % 4 == 0 && n / 4 < 0x1_0000
  {
    hide Word16;
    FourTimes(data[0] % 16);
    if HasExtension(data) {
      FourTimes(Word16(data[CsrcEnd(data) + 2], data[CsrcEnd(data) + 3]));
    }
  }

  lemma FourTimes(n: nat)
    ensures n * 4 % 4 == 0 && n * 4 / 4 == n
  {
  }

  /** The encoding that `data` is, cut at the places the parser finds. */
  ghost function Recut(data: seq<u8>): (e: Encoding)
    requires Accepted(data)
    ensures e.Valid() && e.FirstByte() == data[0]
  {
    FirstByteFromBits(data[0]);
    CutsInOrder(data);
    var h, s, t := CsrcEnd(data), BodyStart(data), BodyEnd(data);
    var x := if HasExtension(data) then Some(Extension(data[h..h + 2], data[h + 4..s])) else None;
    Encoding(Fields(data), data[12..h], x, data[t..])
  }

  /** Whatever the parser accepts is an encoding of the packet it returns. */
  lemma AcceptedIsEncoding(data: seq<u8>)
    requires Accepted(data)
    ensures Encodes(data, Fields(data))
  {
    var h, s, t := CsrcEnd(data), BodyStart(data), BodyEnd(data);
    var e := Recut(data);
    HeaderBytes(e, data);
    if HasExtension(data) {
      ExtensionBytesMatch(e, data, h, s);
    }
    Reassembled(data, h, s, t);
    assert e.Wire() == data;
  }

  lemma Reassembled(data: seq<u8>, h: nat, s: nat, t: nat)
    requires 12 <= h <= s <= t <= |data|
    ensures data[..12] + data[12..h] + data[h..s] + data[s..t] + data[t..] == data
  {
  }

  /** The wire format is unambiguous: no byte string encodes two packets. */
  lemma EncodingUnique(data: seq<u8>, p: RtpPacket, q: RtpPacket)
    requires Encodes(data, p) && Encodes(data, q)
    ensures p == q
  {
    var d: Encoding :| d.Valid() && d.packet == p && d.Wire() == data;
    var e: Encoding :| e.Valid() && e.packet == q && e.Wire() == data;
    EncodingIsAccepted(d);
    EncodingIsAccepted(e);
  }

  /** Parsing, writing and parsing again loses nothing: whatever `data` decodes to, its plain
      re-encoding decodes to the same packet and to no other. */
  lemma NormalForm(data: seq<u8>, p: RtpPacket, q: RtpPacket)
    requires Encodes(data, p)
    ensures p.payloadType < 128
    ensures Encodes(Plain(p).Wire(), q) <==> q == p
  {
    var e: Encoding :| e.Valid() && e.packet == p && e.Wire() == data;
    assert Encodes(Plain(p).Wire(), p);
    if Encodes(Plain(p).Wire(), q) {
      EncodingUnique(Plain(p).Wire(), p, q);
    }
  }

  /** `from_bytes(to_bytes(p)) == p` holds exactly for payload types that fit seven bits. */
  method WriteThenParse(p: RtpPacket) returns (r: Result<RtpPacket>)
    ensures r == Ok(Masked(p))
    ensures r == Ok(p) <==> p.payloadType < 128
  {
    var buf := ToBytes(p);
    r := FromBytes(buf);
    if r.Ok? {
      EncodingUnique(buf, r.value, Masked(p));
    }
  }

  /** `from_bytes(to_bytes(from_bytes(d))) == from_bytes(d)` whenever `from_bytes(d)` succeeds. */
  method Normalise(data: seq<u8>) returns (first: Result<RtpPacket>, second: Result<RtpPacket>)
    ensures first.Ok? <==> exists p :: Encodes(data, p)
    ensures first.Ok? ==> Encodes(data, first.value) && second == first
  {
    first := FromBytes(data);
    second := first;
    if first.Ok? {
      NormalForm(data, first.value, first.value);
      second := WriteThenParse(first.value);
    }
  }
}
