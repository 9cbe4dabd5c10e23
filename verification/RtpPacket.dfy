/**
 * The RTP header with its one-word-profile extension (sections 5.1 and 5.3.1 of
 * RFC 3550), and the parser of src/rtp/rtp_packet.cpp.
 */
module RtpPacket {
  import opened Bytes

  const HEADER_SIZE: nat := 12
  const EXTENSION_SIZE: nat := 16
  const PREFIX_SIZE: nat := 28

  /** The fields a sender chooses; version 2, extension present, no padding, no CSRC, type 96. */
  datatype Fields = Fields(
    marker: bool, sequenceLow: uint16, timestamp: uint32, ssrc: uint32,
    reserved: uint16, sequenceHigh: uint16)

  /** The RTPHeader struct in memory. */
  function FixedHeader(f: Fields): (s: seq<byte>)
    ensures |s| == HEADER_SIZE
  {
    [0x90, if f.marker then 224 else 96] + Be16(f.sequenceLow) + Be32(f.timestamp) + Be32(f.ssrc)
  }

  /** The RTPExtensionHeader struct in memory: id 0, three words, no NTP time. */
  function ExtensionHeader(f: Fields): (s: seq<byte>)
    ensures |s| == EXTENSION_SIZE
  {
    [0, 0] + Be16(3) + Be16(f.reserved) + Be16(f.sequenceHigh) + Be32(0) + Be32(0)
  }

  /** The 28 octets of both headers. */
  function HeaderBytes(f: Fields): (s: seq<byte>)
    ensures |s| == PREFIX_SIZE
  {
    FixedHeader(f) + ExtensionHeader(f)
  }

  /** A packet as a value: its header fields and payload. */
  datatype Rtp = Rtp(fields: Fields, payload: seq<byte>)

  /** A packet on the wire. */
  function Wire(p: Rtp): (s: seq<byte>)
    ensures |s| == PREFIX_SIZE + |p.payload|
  {
    HeaderBytes(p.fields) + p.payload
  }

  /** Packets laid one after another in memory. */
  function Wires(packets: seq<Rtp>): seq<byte> {
    if packets == [] then [] else Wire(packets[0]) + Wires(packets[1..])
  }

  lemma {:induction false} WiresConcat(a: seq<Rtp>, b: seq<Rtp>)
    ensures Wires(a + b) == Wires(a) + Wires(b)
  {
    if a == [] {
      assert a + b == b;
    } else {
      assert (a + b)[1..] == a[1..] + b;
      WiresConcat(a[1..], b);
    }
  }

  lemma WiresSnoc(a: seq<Rtp>, x: Rtp)
    ensures Wires(a + [x]) == Wires(a) + Wire(x)
  {
    WiresConcat(a, [x]);
    assert [x][1..] == [];
  }

  /** Each octet of the headers at its offset. */
  lemma HeaderAt(f: Fields)
    ensures var s := HeaderBytes(f);
            && s[0] == 0x90 && s[1] == (if f.marker then 224 else 96)
            && s[2] == Be16(f.sequenceLow)[0] && s[3] == Be16(f.sequenceLow)[1]
            && s[4] == Be32(f.timestamp)[0] && s[5] == Be32(f.timestamp)[1]
            && s[6] == Be32(f.timestamp)[2] && s[7] == Be32(f.timestamp)[3]
            && s[8] == Be32(f.ssrc)[0] && s[9] == Be32(f.ssrc)[1]
            && s[10] == Be32(f.ssrc)[2] && s[11] == Be32(f.ssrc)[3]
            && s[12] == 0 && s[13] == 0 && s[14] == 0 && s[15] == 3
            && s[16] == Be16(f.reserved)[0] && s[17] == Be16(f.reserved)[1]
            && s[18] == Be16(f.sequenceHigh)[0] && s[19] == Be16(f.sequenceHigh)[1]
            && s[20] == 0 && s[21] == 0 && s[22] == 0 && s[23] == 0
            && s[24] == 0 && s[25] == 0 && s[26] == 0 && s[27] == 0
  {
  }

  // ------------------------------------------------------------------
  // The parser

  /** The packet object: what `parse` stores, field by field. */
  class RTPPacket {
    var padding: bool
    var extension: bool
    var csrcCount: byte
    var marker: bool
    var payloadType: byte
    var sequence: uint32
    var timestamp: uint32
    var ssrc: uint32
    var extensionId: uint16
    var extensionLen: uint16
    var reserved: uint16
    var msw: uint32
    var lsw: uint32
    var payloadStart: nat   // m_payload - m_packet
    var payloadLen: nat     // a size_t
    var packet: seq<byte>

    constructor ()
      ensures View() == PacketView(false, 0, 0, 0, 0, 0, 0, [])
    {
      padding, extension, csrcCount, marker, payloadType := false, false, 0, false, 0;
      sequence, timestamp, ssrc := 0, 0, 0;
      extensionId, extensionLen, reserved, msw, lsw := 0, 0, 0, 0, 0;
      payloadStart, payloadLen, packet := 0, 0, [];
    }

    /** What the receiving code reads of a parsed packet. */
    function View(): View
      reads this
    {
      PacketView(marker, sequence, timestamp, ssrc, reserved, payloadStart, payloadLen, packet)
    }

    /** The first twelve octets, which every packet has. */
    method ReadFixedHeader(buffer: seq<byte>)
      requires |buffer| > HEADER_SIZE
      modifies this
      ensures packet == old(packet)
      ensures padding == HasPadding(buffer) && extension == HasExtension(buffer)
      ensures csrcCount == CsrcCount(buffer)
      ensures marker == (buffer[1] / 128 != 0) && payloadType == buffer[1] % 128
      ensures sequence == At16(buffer, 2) && timestamp == At32(buffer, 4) && ssrc == At32(buffer, 8)
    {
      padding := buffer[0] / 32 % 2 != 0;
      extension := buffer[0] / 16 % 2 != 0;
      csrcCount := buffer[0] % 16;
      marker := buffer[1] / 128 != 0;
      payloadType := buffer[1] % 128;
      sequence := At16(buffer, 2);
      timestamp := At32(buffer, 4);
      ssrc := At32(buffer, 8);
    }

    /** The extension at `e`; the two halves make one 32-bit sequence number. */
    method ReadExtension(buffer: seq<byte>, e: nat)
      requires e + EXTENSION_SIZE <= |buffer|
      modifies this
      ensures marker == old(marker) && timestamp == old(timestamp) && ssrc == old(ssrc)
      ensures payloadStart == old(payloadStart) && payloadLen == old(payloadLen) && packet == old(packet)
      ensures padding == old(padding) && extension == old(extension)
      ensures csrcCount == old(csrcCount) && payloadType == old(payloadType)
      ensures extensionId == At16(buffer, e) && extensionLen == At16(buffer, e + 2)
      ensures extensionLen == 3 ==>
                && sequence == WithHigh16(old(sequence), At16(buffer, e + 6))
                && reserved == At16(buffer, e + 4)
                && msw == At32(buffer, e + 8) && lsw == At32(buffer, e + 12)
    {
      hide At16, At32, WithHigh16;
      extensionId := At16(buffer, e);
      extensionLen := At16(buffer, e + 2);
      if extensionLen != 3 {
        return;
      }
      sequence := WithHigh16(sequence, At16(buffer, e + 6));
      reserved := At16(buffer, e + 4);
      msw := At32(buffer, e + 8);
      lsw := At32(buffer, e + 12);
    }

    /**
     * The caller's buffer must hold the extension header it announces: the
     * source reads it without a length check.
     */
    method Parse(buffer: seq<byte>) returns (ok: bool)
      requires AnnouncedHeadersPresent(buffer)
      modifies this
      ensures ok == Parses(buffer)
      ensures ok ==> View() == ParsedView(buffer)
      ensures ok ==> packet == buffer && padding == HasPadding(buffer) && csrcCount == CsrcCount(buffer)
                     && extension && extensionLen == 3 && payloadType == buffer[1] % 128
    {
      hide At16, At32, WithHigh16, SizeT, ParsedView;
      if |buffer| <= HEADER_SIZE {
        return false;
      }
      packet := buffer;
      if buffer[0] / 64 != 2 {
        return false;
      }
      ReadFixedHeader(buffer);
      var paddingBytes := 0;
      if padding {
        paddingBytes := buffer[|buffer| - 1] as int;
        if paddingBytes == 0 {
          return false;
        }
      }
      if !extension {
        return false;
      }
      var e := HEADER_SIZE + csrcCount as int * 4;
      ReadExtension(buffer, e);
      if extensionLen != 3 {
        return false;
      }
      payloadLen := SizeT(|buffer| - paddingBytes - HEADER_SIZE - csrcCount as int * 4 - EXTENSION_SIZE);
      payloadStart := HEADER_SIZE + csrcCount as int * 4 + EXTENSION_SIZE;
      ParsedViewIs(buffer, View(), paddingBytes, e);
      return true;
    }
  }

  /** `(high << 16) | low` on the low 16 bits of a sequence number. */
  function WithHigh16(low: uint32, high: uint16): uint32 {
    high * 0x1_0000 + low % 0x1_0000
  }

  /** Unsigned subtraction wraps around. */
  function SizeT(n: int): nat {
    n % 0x1_0000_0000_0000_0000
  }

  datatype View = PacketView(
    marker: bool, sequence: uint32, timestamp: uint32, ssrc: uint32, reserved: uint16,
    payloadStart: nat, payloadLen: nat, packet: seq<byte>)
  {
    predicate PayloadInside() {
      payloadStart + payloadLen <= |packet|
    }

    function Payload(): seq<byte>
      requires PayloadInside()
    {
      packet[payloadStart..payloadStart + payloadLen]
    }
  }

  predicate HasPadding(b: seq<byte>) {
    |b| > 0 && b[0] / 32 % 2 != 0
  }

  predicate HasExtension(b: seq<byte>) {
    |b| > 0 && b[0] / 16 % 2 != 0
  }

  function CsrcCount(b: seq<byte>): byte {
    if |b| > 0 then b[0] % 16 else 0
  }

  function ExtensionAt(b: seq<byte>): nat {
    HEADER_SIZE + CsrcCount(b) as int * 4
  }

  predicate AnnouncedHeadersPresent(b: seq<byte>) {
    |b| > HEADER_SIZE && b[0] / 64 == 2 && HasExtension(b) ==> ExtensionAt(b) + EXTENSION_SIZE <= |b|
  }

  predicate Parses(b: seq<byte>)
    requires AnnouncedHeadersPresent(b)
  {
    && |b| > HEADER_SIZE && b[0] / 64 == 2
    && HasExtension(b)
    && (HasPadding(b) ==> b[|b| - 1] != 0)
    && At16(b, ExtensionAt(b) + 2) == 3
  }

  /** The big-endian fields of a parsed buffer; the payload length wraps as a size_t does. */
  function ParsedView(b: seq<byte>): View
    requires AnnouncedHeadersPresent(b) && Parses(b)
  {
    var e := ExtensionAt(b);
    PacketView(
      b[1] / 128 != 0,
      WithHigh16(At16(b, 2), At16(b, e + 6)),
      At32(b, 4),
      At32(b, 8),
      At16(b, e + 4),
      e + EXTENSION_SIZE,
      SizeT(|b| - (if HasPadding(b) then b[|b| - 1] as int else 0) - e - EXTENSION_SIZE),
      b)
  }

  /** The payload lies inside the buffer exactly when the padding leaves room for it; else its length has wrapped. */
  lemma PayloadInsideIff(b: seq<byte>)
    requires AnnouncedHeadersPresent(b) && Parses(b) && |b| < 0x1_0000_0000_0000_0000
    ensures var padding := if HasPadding(b) then b[|b| - 1] as int else 0;
            && (ParsedView(b).PayloadInside() <==> ExtensionAt(b) + EXTENSION_SIZE + padding <= |b|)
            && (!ParsedView(b).PayloadInside() ==>
                  ParsedView(b).payloadLen + ExtensionAt(b) + EXTENSION_SIZE + padding == |b| + 0x1_0000_0000_0000_0000)
  {
    var padding := if HasPadding(b) then b[|b| - 1] as int else 0;
    var room := |b| - padding - ExtensionAt(b) - EXTENSION_SIZE;
    if room < 0 {
      assert room % 0x1_0000_0000_0000_0000 == room + 0x1_0000_0000_0000_0000;
    }
  }

  /** The stored fields make up the view. */
  lemma {:induction false} ParsedViewIs(b: seq<byte>, v: View, padding: nat, e: nat)
    requires AnnouncedHeadersPresent(b) && Parses(b) && e == ExtensionAt(b)
    requires padding == if HasPadding(b) then b[|b| - 1] as int else 0
    requires v.marker == (b[1] / 128 != 0) && v.sequence == WithHigh16(At16(b, 2), At16(b, e + 6))
    requires v.timestamp == At32(b, 4) && v.ssrc == At32(b, 8) && v.reserved == At16(b, e + 4)
    requires v.payloadStart == e + EXTENSION_SIZE && v.packet == b
    requires v.payloadLen == SizeT(|b| - padding - e - EXTENSION_SIZE)
    ensures v == ParsedView(b)
  {
    hide At16, At32, WithHigh16, SizeT;
  }

  /** The buffer parses to exactly these fields and this payload. */
  predicate ParsesAs(b: seq<byte>, p: Rtp) {
    && AnnouncedHeadersPresent(b) && Parses(b)
    && var v, f := ParsedView(b), p.fields;
    && v.marker == f.marker && v.timestamp == f.timestamp && v.ssrc == f.ssrc
    && v.reserved == f.reserved
    && v.sequence == WithHigh16(f.sequenceLow, f.sequenceHigh)
    && v.PayloadInside() && v.Payload() == p.payload
  }

  lemma {:induction false} ThreeWords()
    ensures FromBe16(0, 3) == 3
  {
  }

  /** Parsing is the inverse of building: every field and the payload come back. */
  lemma ParseUndoesBuild(p: Rtp)
    requires PREFIX_SIZE + |p.payload| < 0x1_0000_0000_0000_0000
    ensures ParsesAs(Wire(p), p)
  {
    hide At16, At32, HeaderBytes;
    WireFields(p);
    assert Wire(p)[PREFIX_SIZE..] == p.payload;
  }

  /** Each field of a built packet, read back at its offset. */
  lemma {:induction false} WireFields(p: Rtp)
    ensures var b, f := Wire(p), p.fields;
      && b[0] == 0x90 && b[1] == (if f.marker then 224 else 96)
      && At16(b, 2) == f.sequenceLow && At32(b, 4) == f.timestamp && At32(b, 8) == f.ssrc
      && At16(b, 14) == 3 && At16(b, 16) == f.reserved && At16(b, 18) == f.sequenceHigh
  {
    hide FromBe16, FromBe32, Be16, Be32;
    var f := p.fields;
    var h := HeaderBytes(f);
    HeaderAt(f);
    assert forall i :: 0 <= i < PREFIX_SIZE ==> Wire(p)[i] == h[i];
    assert FromBe16(0, 3) == 3 by { ThreeWords(); }
    Be16RoundTrip(f.sequenceLow);
    Be16RoundTrip(f.sequenceHigh);
    Be16RoundTrip(f.reserved);
    Be32RoundTrip(f.timestamp);
    Be32RoundTrip(f.ssrc);
  }

  /** What a caller must see to, in numbers: that the extension which the first octet announces is there. */
  lemma {:induction false} HeadersPresentIff(b: seq<byte>)
    ensures AnnouncedHeadersPresent(b) <==>
            (|b| > 12 && (144 <= b[0] <= 159 || 176 <= b[0] <= 191) ==> 28 + 4 * (b[0] as nat % 16) <= |b|)
  {
  }

  /**
   * What is accepted, in numbers: a first octet with version 2 and an extension,
   * a last octet that is not zero if there is padding, and an extension of three words.
   */
  lemma {:induction false} ParsesIff(b: seq<byte>)
    requires AnnouncedHeadersPresent(b)
    ensures Parses(b) <==>
            && |b| > 12
            && (144 <= b[0] <= 159 || (176 <= b[0] <= 191 && b[|b| - 1] != 0))
            && b[14 + 4 * (b[0] as nat % 16)] == 0 && b[15 + 4 * (b[0] as nat % 16)] == 3
  {
  }

  /**
   * The round trip with everything a sender may add: `h` is the fixed header, then
   * come up to fifteen CSRC words, the extension `e`, the payload and the padding,
   * whose last octet counts it.
   */
  lemma {:induction false} ParseUndoesLayout(
      h: seq<byte>, csrc: seq<byte>, e: seq<byte>, payload: seq<byte>, padding: seq<byte>)
    requires |h| == 12 && |csrc| <= 60 && |csrc| % 4 == 0 && |e| == 16 && e[2] == 0 && e[3] == 3
    requires h[0] as nat == 144 + (if padding == [] then 0 else 32) + |csrc| / 4
    requires padding != [] ==> padding[|padding| - 1] as nat == |padding|
    requires |h + csrc + e + payload + padding| < 0x1_0000_0000_0000_0000
    ensures var b := h + csrc + e + payload + padding;
            && AnnouncedHeadersPresent(b) && Parses(b)
            && var v := ParsedView(b);
            && (v.marker <==> h[1] >= 128)
            && v.sequence == Number(e[6..8] + h[2..4])
            && v.timestamp == Number(h[4..8]) && v.ssrc == Number(h[8..12]) && v.reserved == Number(e[4..6])
            && v.PayloadInside() && v.Payload() == payload
  {
    hide At16, At32, Number, SizeT, WithHigh16, AnnouncedHeadersPresent, Parses;
    var b := h + csrc + e + payload + padding;
    var x := 12 + |csrc|;
    LayoutOctets(h, csrc, e, payload, padding);
    LayoutParses(b, |csrc| / 4, |padding|);
    WordsSpelled(b, 2);
    WordsSpelled(b, 4);
    WordsSpelled(b, 8);
    WordsSpelled(b, x + 4);
    WordsSpelled(b, x + 6);
    JoinedHalves(h[2..4], e[6..8]);
    Fits(|payload|);
  }

  lemma {:induction false} LayoutParses(b: seq<byte>, csrcs: nat, padding: nat)
    requires csrcs <= 15 && 28 + 4 * csrcs + padding <= |b|
    requires b[0] as nat == 144 + (if padding == 0 then 0 else 32) + csrcs
    requires padding != 0 ==> b[|b| - 1] as nat == padding
    requires b[14 + 4 * csrcs] == 0 && b[15 + 4 * csrcs] == 3
    ensures ExtensionAt(b) == 12 + 4 * csrcs && (HasPadding(b) <==> padding != 0)
    ensures AnnouncedHeadersPresent(b) && Parses(b)
  {
    hide Parses;
    assert b[0] as nat % 16 == csrcs;
    ParsesIff(b);
  }

  lemma {:induction false} Fits(n: nat)
    requires n < 0x1_0000_0000_0000_0000
    ensures SizeT(n) == n
  {
  }

  lemma {:induction false} JoinedHalves(low: seq<byte>, high: seq<byte>)
    requires |low| == 2 && |high| == 2
    ensures Number(low) < 0x1_0000 && Number(high) < 0x1_0000
    ensures WithHigh16(Number(low), Number(high)) == Number(high + low)
  {
    hide Number;
    NumberOfTwo(low);
    NumberOfTwo(high);
    NumberOfFour(high + low);
  }

  /** Where the parts of a datagram lie. */
  lemma {:induction false} LayoutOctets(
      h: seq<byte>, csrc: seq<byte>, e: seq<byte>, payload: seq<byte>, padding: seq<byte>)
    requires |h| == 12 && |e| == 16
    ensures var b, x := h + csrc + e + payload + padding, 12 + |csrc|;
            && b[0] == h[0] && b[1] == h[1] && b[2..4] == h[2..4] && b[4..8] == h[4..8] && b[8..12] == h[8..12]
            && b[x + 2] == e[2] && b[x + 3] == e[3] && b[x + 4..x + 6] == e[4..6] && b[x + 6..x + 8] == e[6..8]
            && b[x + 16..x + 16 + |payload|] == payload
            && (padding != [] ==> b[|b| - 1] == padding[|padding| - 1])
  {
    var b, x := h + csrc + e + payload + padding, 12 + |csrc|;
    assert forall k :: 0 <= k < 12 ==> b[k] == h[k];
    assert b[x..x + 16] == e;
  }
}
