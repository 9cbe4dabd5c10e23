/**
 * What a frame looks like on the wire, octet by octet, in plain numbers: an
 * account of sections 5.1 and 5.3.1 of RFC 3550 and 5.6 to 5.8 of RFC 6184 that
 * shares no accessor with the code that builds the datagrams.
 */
module WireForm {
  import opened Bytes
  import opened RtpPacket
  import opened PacketBuilder
  import opened VideoSession
  import AnnexB

  // ------------------------------------------------------------------
  // A receiver by the letter of RFC 6184

  /** The sections of an aggregation: a big-endian 16-bit length, then that many octets. */
  function Sections(b: seq<byte>): seq<seq<byte>> {
    if |b| < 2 then []
    else
      var n, rest := b[0] as nat * 256 + b[1] as nat, b[2..];
      if n > |rest| then [] else [rest[..n]] + Sections(rest[n..])
  }

  /**
   * The units in some payloads, with a unit `open` that fragments have begun. A
   * payload with the forbidden bit and a fragment with the reserved bit are dropped.
   */
  function Depacketized(open: seq<byte>, payloads: seq<seq<byte>>): seq<seq<byte>>
    decreases payloads
  {
    if payloads == [] then []
    else
      var p, rest := payloads[0], payloads[1..];
      if p == [] || p[0] >= 128 then Depacketized(open, rest)
      else if p[0] % 32 == 24 then Sections(p[1..]) + Depacketized(open, rest)
      else if p[0] % 32 != 28 then [p] + Depacketized(open, rest)
      else if |p| < 3 || p[1] / 32 % 2 == 1 then Depacketized(open, rest)
      else
        var now := if p[1] >= 128 then [p[0] / 32 * 32 + p[1] % 32] + p[2..] else open + p[2..];
        if p[1] / 64 % 2 == 1 then [now] + Depacketized([], rest) else Depacketized(now, rest)
  }

  /** A unit without the forbidden bit, and not of the types that mark aggregations and fragments. */
  predicate Plain(u: seq<byte>) {
    u != [] && u[0] < 128 && u[0] % 32 != 24 && u[0] % 32 != 28
  }

  predicate AllPlain(units: seq<seq<byte>>) {
    forall k :: 0 <= k < |units| ==> Plain(units[k])
  }

  lemma {:induction false} SectionHead(u: seq<byte>, tail: seq<byte>)
    requires |u| < 0x1_0000
    ensures Sections(Sized(u) + tail) == [u] + Sections(tail)
  {
    var b := Sized(u) + tail;
    assert |u| % 0x1_0000 == |u|;
    assert b[0] == (|u| / 256) as byte && b[1] == (|u| % 256) as byte;
    var rest := b[2..];
    assert rest == u + tail;
    assert rest[..|u|] == u && rest[|u|..] == tail;
  }

  lemma {:induction false} SectionsOfSized(units: seq<seq<byte>>)
    requires forall k :: 0 <= k < |units| ==> |units[k]| < 0x1_0000
    ensures Sections(SizedAll(units)) == units
  {
    hide Sized;
    if units != [] {
      SectionsOfSized(units[1..]);
      SectionHead(units[0], SizedAll(units[1..]));
    }
  }

  /** One fragment in numbers. */
  lemma {:induction false} FragmentOctets(u: seq<byte>, off: nat)
    requires Plain(u) && |u| > 1372 && off < |u| - 1
    ensures var f, n := Fragment(u, off), CopyLen(u, off);
            && |f| >= 3 && f[0] < 128 && f[0] % 32 == 28 && f[1] / 32 % 2 == 0
            && f[0] / 32 * 32 + f[1] % 32 == u[0]
            && (f[1] >= 128 <==> off == 0)
            && (f[1] / 64 % 2 == 1 <==> off + n == |u| - 1)
            && f[2..] == u[1 + off..1 + off + n]
  {
    var f := Fragment(u, off);
    assert off == 0 ==> CopyLen(u, off) == 1370;
  }

  lemma {:induction false} FragmentRead(open: seq<byte>, f: seq<byte>, rest: seq<seq<byte>>)
    requires |f| >= 3 && f[0] < 128 && f[0] % 32 == 28 && f[1] / 32 % 2 == 0
    ensures var now := if f[1] >= 128 then [f[0] / 32 * 32 + f[1] % 32] + f[2..] else open + f[2..];
            Depacketized(open, [f] + rest) == if f[1] / 64 % 2 == 1 then [now] + Depacketized([], rest) else Depacketized(now, rest)
  {
    assert ([f] + rest)[1..] == rest;
  }

  lemma {:induction false} FragmentsStart(u: seq<byte>, off: nat, rest: seq<seq<byte>>) returns (after: seq<seq<byte>>)
    requires u != [] && off <= |u| - 1
    ensures var next := off + CopyLen(u, off);
            after == if next == |u| - 1 then [] else Fragments(u, next)
    ensures Fragments(u, off) + rest == [Fragment(u, off)] + (after + rest)
  {
    hide Fragment;
    var next := off + CopyLen(u, off);
    after := if next == |u| - 1 then [] else Fragments(u, next);
    Associate([Fragment(u, off)], after, rest);
  }

  lemma {:induction false} FragmentsReadBack(open: seq<byte>, u: seq<byte>, off: nat, rest: seq<seq<byte>>)
    requires Plain(u) && |u| > 1372 && off < |u| - 1 && (off > 0 ==> open == u[..1 + off])
    ensures Depacketized(open, Fragments(u, off) + rest) == [u] + Depacketized([], rest)
    decreases |u| - off
  {
    hide Fragment, Fragments, Plain, Depacketized;
    var f, n := Fragment(u, off), CopyLen(u, off);
    var after := FragmentsStart(u, off, rest);
    FragmentOctets(u, off);
    FragmentRead(open, f, after + rest);
    assert (if off == 0 then [u[0]] + f[2..] else open + f[2..]) == u[..1 + off + n];
    if off + n == |u| - 1 {
      assert u[..1 + off + n] == u && after + rest == rest;
    } else {
      FragmentsReadBack(u[..1 + off + n], u, off + n, rest);
    }
  }

  predicate PlainItem(item: Item) {
    match item
    case Group(units) => units != [] && AllPlain(units) && forall k :: 0 <= k < |units| ==> |units[k]| <= 1372
    case Fragmented(u) => Plain(u) && |u| > 1372
  }

  lemma {:induction false} ItemReadsBack(item: Item, rest: seq<seq<byte>>)
    requires Wellformed(item) && PlainItem(item)
    ensures Depacketized([], Payloads(item) + rest) == UnitsOf(item) + Depacketized([], rest)
  {
    hide Fragments, SizedAll, Sections;
    var all := Payloads(item) + rest;
    match item
    case Fragmented(u) => FragmentsReadBack([], u, 0, rest);
    case Group(units) =>
      assert all[1..] == rest && Plain(units[0]);
      if |units| == 1 {
        assert units == [units[0]];
      } else {
        SectionsOfSized(units);
        assert all[0][1..] == SizedAll(units);
      }
  }

  lemma {:induction false} ItemsReadBack(items: seq<Item>)
    requires AllWellformed(items) && forall k :: 0 <= k < |items| ==> PlainItem(items[k])
    ensures Depacketized([], AllPayloads(items)) == AllUnitsOf(items)
  {
    hide Depacketized, Payloads, UnitsOf, PlainItem;
    if items == [] {
      NothingRead();
    } else {
      assert Wellformed(items[0]) && PlainItem(items[0]);
      ItemReadsBack(items[0], AllPayloads(items[1..]));
      ItemsReadBack(items[1..]);
    }
  }

  lemma {:induction false} NothingRead()
    ensures Depacketized([], []) == []
  {
  }

  lemma {:induction false} ItemsArePlain(units: seq<seq<byte>>, pending: seq<seq<byte>>)
    requires AllPlain(units) && AllPlain(pending) && forall k :: 0 <= k < |pending| ==> |pending[k]| <= 1372
    ensures forall k :: 0 <= k < |Items(units, pending)| ==> PlainItem(Items(units, pending)[k])
    decreases units
  {
    hide SumLen, Plain;
    if units != [] {
      var u, rest := units[0], units[1..];
      assert Plain(u) && AllPlain(rest);
      if |u| > RTP_PAYLOAD_SIZE {
        ItemsArePlain(rest, []);
      } else {
        ItemsArePlain(rest, [u]);
        ItemsArePlain(rest, pending + [u]);
      }
    }
  }

  /** The payloads of a frame give exactly its units to any receiver by the letter of RFC 6184. */
  lemma {:induction false} PayloadsReadBack(units: seq<seq<byte>>)
    requires AllPlain(units)
    ensures AllWellformed(Items(units, []))
    ensures Depacketized([], AllPayloads(Items(units, []))) == units
  {
    hide Items, Depacketized, PlainItem, AllPayloads;
    ItemsWellformed(units, []);
    ItemsArePlain(units, []);
    ItemsReadBack(Items(units, []));
    GroupingKeepsUnits(units, []);
    assert [] + units == units;
  }

  // ------------------------------------------------------------------
  // The first octet of every payload

  predicate GoodHeads(payloads: seq<seq<byte>>) {
    forall k :: 0 <= k < |payloads| ==>
      && payloads[k] != [] && payloads[k][0] < 128
      && (payloads[k][0] % 32 == 24 ==> payloads[k][0] == 0x18)
  }

  lemma {:induction false} FragmentHeads(u: seq<byte>, off: nat)
    requires Plain(u) && |u| > 1372 && off < |u| - 1
    ensures GoodHeads(Fragments(u, off))
    decreases |u| - off
  {
    hide Fragment, Plain;
    FragmentOctets(u, off);
    if off + CopyLen(u, off) != |u| - 1 {
      FragmentHeads(u, off + CopyLen(u, off));
    }
  }

  lemma {:induction false} ItemHeads(items: seq<Item>)
    requires AllWellformed(items) && forall k :: 0 <= k < |items| ==> PlainItem(items[k])
    ensures GoodHeads(AllPayloads(items))
  {
    hide Fragments, SizedAll;
    if items != [] {
      var item := items[0];
      assert Wellformed(item) && PlainItem(item);
      ItemHeads(items[1..]);
      match item
      case Fragmented(u) => FragmentHeads(u, 0);
      case Group(units) => assert Plain(units[0]);
    }
  }

  /** No payload has the forbidden bit, and every aggregation starts with the octet 0x18. */
  lemma {:induction false} FirstOctets(units: seq<seq<byte>>)
    requires AllPlain(units)
    ensures AllWellformed(Items(units, []))
    ensures var payloads := AllPayloads(Items(units, []));
            forall k :: 0 <= k < |payloads| ==>
              && payloads[k] != [] && payloads[k][0] < 128
              && (payloads[k][0] % 32 == 24 ==> payloads[k][0] == 0x18)
  {
    hide Items, AllPayloads, PlainItem;
    ItemsWellformed(units, []);
    ItemsArePlain(units, []);
    ItemHeads(Items(units, []));
  }

  // ------------------------------------------------------------------
  // Where the grouping draws its lines

  /** A unit is sent whole up to 1372 octets. */
  lemma {:induction false} WholeUpTo1372(u: seq<byte>)
    ensures Items([u], []) == [if |u| <= 1372 then Group([u]) else Fragmented(u)]
  {
    assert [u][1..] == [] && [] + [u] == [u];
    assert SumLen([]) == 0;
    assert Items([], [u]) == [Group([u])];
  }

  /** Two small units share a packet up to 1372 octets, or when the first is of just that size. */
  lemma {:induction false} ShareUpTo1372(u: seq<byte>, v: seq<byte>)
    requires 1 <= |u| <= 1372 && 1 <= |v| <= 1372
    ensures Items([u, v], [])
            == if |u| + |v| <= 1372 || |u| == 1372 then [Group([u, v])] else [Group([u]), Group([v])]
  {
    assert [u, v][1..] == [v] && [v][1..] == [] && [] + [u] == [u] && [u] + [v] == [u, v];
    assert SumLen([]) == 0 && SumLen([u]) == |u| by { assert [u][1..] == []; }
    assert Items([u, v], []) == Items([v], [u]);
    assert Items([], [v]) == [Group([v])] && Items([], [u, v]) == [Group([u, v])];
  }

  /** A packet is accepted while the buffer of 262144 bytes keeps a spare one. */
  lemma {:induction false} SpareByte(cur: nat, u: seq<byte>)
    requires |u| <= 1372
    ensures AllWellformed([Group([u])])
    ensures AllFit(cur, [Group([u])]) <==> cur + 28 + |u| < 262144
  {
    assert [Group([u])][1..] == [];
  }

  // ------------------------------------------------------------------
  // Datagrams

  /** The first 28 octets of a datagram, in numbers. */
  predicate HeaderForm(b: seq<byte>, last: bool, sequence: nat, now: nat, ssrc: nat, count: nat) {
    && |b| >= 28
    && b[0] == 0x90 && b[1] == (if last then 0xE0 else 0x60)
    && Number(b[2..4]) == sequence % 65536 && Number(b[4..8]) == now && Number(b[8..12]) == ssrc
    && b[12..16] == [0, 0, 0, 3]
    && Number(b[16..18]) == count % 256
    && forall k :: 18 <= k < 28 ==> b[k] == 0
  }

  lemma {:induction false} WireOctets(p: Rtp)
    requires p.fields.sequenceHigh == 0
    ensures var b, f := Wire(p), p.fields;
      && b[0] == 0x90 && b[1] == (if f.marker then 0xE0 else 0x60)
      && Number(b[2..4]) == f.sequenceLow && Number(b[4..8]) == f.timestamp && Number(b[8..12]) == f.ssrc
      && b[12..16] == [0, 0, 0, 3] && Number(b[16..18]) == f.reserved
      && (forall k :: 18 <= k < 28 ==> b[k] == 0) && b[28..] == p.payload
  {
    hide Be32, Be16, Number, HeaderBytes;
    var b, f, h := Wire(p), p.fields, HeaderBytes(p.fields);
    HeaderAt(f);
    assert forall k :: 0 <= k < 28 ==> b[k] == h[k];
    assert b[2..4] == Be16(f.sequenceLow) && b[16..18] == Be16(f.reserved);
    assert b[4..8] == Be32(f.timestamp) && b[8..12] == Be32(f.ssrc);
    assert b[18] == 0 && b[19] == 0 by { ZeroWord(); }
    NetworkOrder16(f.sequenceLow);
    NetworkOrder16(f.reserved);
    NetworkOrder32(f.timestamp);
    NetworkOrder32(f.ssrc);
  }

  lemma {:induction false} ZeroWord()
    ensures Be16(0) == [0, 0]
  {
  }

  lemma {:induction false} LowHalf(sequence: uint32, k: nat)
    ensures Next(sequence, k) % 0x1_0000 == (sequence + k) % 65536
  {
  }

  /**
   * Datagram `k` of a frame: version 2, extension, type 96 with the marker on the
   * last, the running 16-bit number, the frame's time, the sender's SSRC, an
   * extension of three words with the number of packets modulo 256, and payload `k`.
   */
  lemma {:induction false} DatagramOctets(data: seq<byte>, sequence: uint32, o: Origin, now: uint32, k: nat)
    requires k < |FrameDatagrams(data, sequence, o, now)|
    ensures AllWellformed(Items(AnnexB.NalUnits(data), []))
    ensures var sent, payloads := EachWire(FrameDatagrams(data, sequence, o, now)), AllPayloads(Items(AnnexB.NalUnits(data), []));
            && |payloads| == |sent|
            && HeaderForm(sent[k], k == |sent| - 1, sequence + k, now, o.ssrc, |sent|)
            && sent[k][28..] == payloads[k]
  {
    hide AnnexB.NalUnits, Items, AllPayloads, PatchAll, Packets, Next, Number, Wire;
    ItemsWellformed(AnnexB.NalUnits(data), []);
    var payloads := AllPayloads(Items(AnnexB.NalUnits(data), []));
    var packets := FramePackets(data, sequence, o);
    var d := FrameDatagrams(data, sequence, o, now);
    PacketsLength(sequence, o, payloads);
    PacketAt(sequence, o, payloads, k);
    PatchAllAt(packets, |packets| % 256, now, k);
    EachWireAt(d, k);
    WireOctets(d[k]);
    LowHalf(sequence, k);
  }
}
