/**
 * Packetising NAL units for RTP (RFC 6184): grouping, single units and STAP-A
 * (sections 5.6 and 5.7.1), and FU-A (section 5.8), from
 * src/rtp/rtp_h264_packet_builder.cpp.
 */
module PacketBuilder {
  import opened Bytes
  import opened RtpPacket
  import AnnexB

  const RTP_PAYLOAD_SIZE: nat := 1372  // a packet of 1400 bytes less both headers
  const FRAGMENT_SIZE: nat := 1370  // RTP_PAYLOAD_SIZE - 2
  const RTP_PACKETS_BUFFER_SIZE: nat := 0x4_0000

  // ------------------------------------------------------------------
  // Grouping

  /** What becomes of some consecutive units: one packet, or several fragments. */
  datatype Item = Group(units: seq<seq<byte>>) | Fragmented(unit: seq<byte>)

  function SumLen(units: seq<seq<byte>>): nat {
    if units == [] then 0 else |units[0]| + SumLen(units[1..])
  }

  function Flush(pending: seq<seq<byte>>): seq<Item> {
    if pending == [] then [] else [Group(pending)]
  }

  /** The grouping loop over the units still to come, with some units pending. */
  function Items(units: seq<seq<byte>>, pending: seq<seq<byte>>): seq<Item> {
    if units == [] then Flush(pending)
    else
      var u := units[0];
      var total := SumLen(pending);
      if |u| > RTP_PAYLOAD_SIZE then
        Flush(pending) + [Fragmented(u)] + Items(units[1..], [])
      else if total < RTP_PAYLOAD_SIZE && RTP_PAYLOAD_SIZE < total + |u| then
        Flush(pending) + Items(units[1..], [u])
      else
        Items(units[1..], pending + [u])
  }

  function UnitsOf(item: Item): seq<seq<byte>> {
    match item
    case Group(units) => units
    case Fragmented(unit) => [unit]
  }

  function AllUnitsOf(items: seq<Item>): seq<seq<byte>> {
    if items == [] then [] else UnitsOf(items[0]) + AllUnitsOf(items[1..])
  }

  // ------------------------------------------------------------------
  // Payloads

  /** One aggregation unit: a 16-bit size, then the NAL unit. */
  function Sized(u: seq<byte>): seq<byte> {
    Be16(|u| % 0x1_0000) + u
  }

  function SizedAll(units: seq<seq<byte>>): seq<byte> {
    if units == [] then [] else Sized(units[0]) + SizedAll(units[1..])
  }

  function StapA(units: seq<seq<byte>>): seq<byte> {
    [0x18] + SizedAll(units)
  }

  /** The FU header of the fragment that copies from offset `off` of the unit's body. */
  function FuHeader(u: seq<byte>, off: nat, copied: nat): byte
    requires u != []
  {
    if off == 0 then 128 + Low5(u[0])
    else if copied == |u| - 1 - off then 64 + Low5(u[0])
    else Low5(u[0])
  }

  function CopyLen(u: seq<byte>, off: nat): nat
    requires u != [] && off <= |u| - 1
  {
    if FRAGMENT_SIZE < |u| - 1 - off then FRAGMENT_SIZE else |u| - 1 - off
  }

  function Fragment(u: seq<byte>, off: nat): (f: seq<byte>)
    requires u != [] && off <= |u| - 1
    ensures |f| == 2 + CopyLen(u, off)
  {
    var n := CopyLen(u, off);
    [High3(u[0]) + 28, FuHeader(u, off, n)] + u[1 + off..1 + off + n]
  }

  /** The FU-A payloads of a unit from offset `off` of its body on. */
  function Fragments(u: seq<byte>, off: nat): seq<seq<byte>>
    requires u != [] && off <= |u| - 1
    decreases |u| - off
  {
    var next := off + CopyLen(u, off);
    [Fragment(u, off)] + if next == |u| - 1 then [] else Fragments(u, next)
  }

  predicate Wellformed(item: Item) {
    match item
    case Group(units) => units != []
    case Fragmented(unit) => unit != []
  }

  function Payloads(item: Item): seq<seq<byte>>
    requires Wellformed(item)
  {
    match item
    case Group(units) => if |units| == 1 then [units[0]] else [StapA(units)]
    case Fragmented(unit) => Fragments(unit, 0)
  }

  predicate AllWellformed(items: seq<Item>) {
    forall k :: 0 <= k < |items| ==> Wellformed(items[k])
  }

  function AllPayloads(items: seq<Item>): seq<seq<byte>>
    requires AllWellformed(items)
  {
    if items == [] then []
    else
      assert Wellformed(items[0]);
      Payloads(items[0]) + AllPayloads(items[1..])
  }

  // ------------------------------------------------------------------
  // Packets

  datatype Origin = Origin(timestamp: uint32, ssrc: uint32)

  function Next(sequence: uint32, n: nat): uint32 {
    (sequence + n) % 0x1_0000_0000
  }

  function Packet(sequence: uint32, o: Origin, payload: seq<byte>): (p: Rtp)
    ensures p.payload == payload
  {
    Rtp(Fields(false, sequence % 0x1_0000, o.timestamp, o.ssrc, 0, sequence / 0x1_0000), payload)
  }

  /** Consecutive payloads take consecutive 32-bit sequence numbers. */
  function Packets(sequence: uint32, o: Origin, payloads: seq<seq<byte>>): seq<Rtp>
    decreases payloads
  {
    if payloads == [] then []
    else [Packet(sequence, o, payloads[0])] + Packets(Next(sequence, 1), o, payloads[1..])
  }

  datatype Slice = Slice(start: nat, len: nat)

  /** Consecutive slices of the buffer, one a packet, from position `at` on. */
  function Tiling(at: nat, packets: seq<Rtp>): seq<Slice>
    decreases packets
  {
    if packets == [] then []
    else
      var n := PREFIX_SIZE + |packets[0].payload|;
      [Slice(at, n)] + Tiling(at + n, packets[1..])
  }

  // ------------------------------------------------------------------
  // When the buffer is large enough

  /** Every STAP-A copy is checked before its own prefix bytes are written. */
  predicate StapFits(pos: nat, units: seq<seq<byte>>, first: bool)
    decreases units
  {
    units == [] ||
    (pos + |units[0]| < RTP_PACKETS_BUFFER_SIZE &&
     StapFits(pos + (if first then 3 else 2) + |units[0]|, units[1..], false))
  }

  predicate FragmentsFit(cur: nat, payloads: seq<seq<byte>>)
    decreases payloads
  {
    payloads == [] ||
    (cur + PREFIX_SIZE + |payloads[0]| < RTP_PACKETS_BUFFER_SIZE &&
     FragmentsFit(cur + PREFIX_SIZE + |payloads[0]|, payloads[1..]))
  }

  predicate ItemFits(cur: nat, item: Item)
    requires Wellformed(item)
  {
    match item
    case Group(units) =>
      if |units| == 1 then cur + PREFIX_SIZE + |units[0]| < RTP_PACKETS_BUFFER_SIZE
      else StapFits(cur + PREFIX_SIZE, units, true)
    case Fragmented(unit) => FragmentsFit(cur, Fragments(unit, 0))
  }

  /** The bytes that some payloads take as packets. */
  function PacketBytes(payloads: seq<seq<byte>>): nat {
    28 * |payloads| + SumLen(payloads)
  }

  function ItemSize(item: Item): nat
    requires Wellformed(item)
  {
    PacketBytes(Payloads(item))
  }

  predicate AllFit(cur: nat, items: seq<Item>)
    requires AllWellformed(items)
    decreases items
  {
    items == [] ||
    (assert Wellformed(items[0]);
     ItemFits(cur, items[0]) && AllFit(cur + ItemSize(items[0]), items[1..]))
  }

  // ------------------------------------------------------------------
  // Grouping keeps the units and bounds the groups

  lemma {:induction false} SumLenConcat(a: seq<seq<byte>>, b: seq<seq<byte>>)
    ensures SumLen(a + b) == SumLen(a) + SumLen(b)
  {
    if a == [] {
      assert a + b == b;
    } else {
      assert (a + b)[1..] == a[1..] + b;
      SumLenConcat(a[1..], b);
    }
  }

  lemma {:induction false} SumLenSnoc(a: seq<seq<byte>>, u: seq<byte>)
    ensures SumLen(a + [u]) == SumLen(a) + |u|
  {
    SumLenConcat(a, [u]);
    assert [u][1..] == [];
  }

  lemma {:induction false} AllUnitsOfConcat(a: seq<Item>, b: seq<Item>)
    ensures AllUnitsOf(a + b) == AllUnitsOf(a) + AllUnitsOf(b)
  {
    if a == [] {
      assert a + b == b;
    } else {
      assert (a + b)[1..] == a[1..] + b;
      AllUnitsOfConcat(a[1..], b);
    }
  }

  lemma {:induction false} FlushUnits(pending: seq<seq<byte>>)
    ensures AllUnitsOf(Flush(pending)) == pending
  {
    if pending != [] {
      assert Flush(pending)[1..] == [];
    }
  }

  lemma {:induction false} FlushThenFragment(pending: seq<seq<byte>>, u: seq<byte>)
    ensures AllUnitsOf(Flush(pending) + [Fragmented(u)]) == pending + [u]
  {
    FlushUnits(pending);
    AllUnitsOfConcat(Flush(pending), [Fragmented(u)]);
    assert [Fragmented(u)][1..] == [];
  }

  lemma {:induction false} Regroup(pending: seq<seq<byte>>, units: seq<seq<byte>>)
    requires units != []
    ensures pending + [units[0]] + units[1..] == pending + units
    ensures pending + ([units[0]] + units[1..]) == pending + units
    ensures [] + units[1..] == units[1..]
  {
    assert [units[0]] + units[1..] == units;
  }

  /** The grouping loop handles every unit exactly once and in order. */
  lemma {:induction false} GroupingKeepsUnits(units: seq<seq<byte>>, pending: seq<seq<byte>>)
    ensures AllUnitsOf(Items(units, pending)) == pending + units
    decreases units
  {
    hide SumLen;
    FlushUnits(pending);
    if units == [] {
      assert pending + units == pending;
    } else {
      var u, rest := units[0], units[1..];
      Regroup(pending, units);
      if |u| > RTP_PAYLOAD_SIZE {
        GroupingKeepsUnits(rest, []);
        AllUnitsOfConcat(Flush(pending) + [Fragmented(u)], Items(rest, []));
        FlushThenFragment(pending, u);
      } else if SumLen(pending) < RTP_PAYLOAD_SIZE && RTP_PAYLOAD_SIZE < SumLen(pending) + |u| {
        GroupingKeepsUnits(rest, [u]);
        AllUnitsOfConcat(Flush(pending), Items(rest, [u]));
      } else {
        GroupingKeepsUnits(rest, pending + [u]);
      }
    }
  }

  /** Some proper, non-empty prefix of the units sums to exactly the payload size. */
  predicate FullPrefix(units: seq<seq<byte>>) {
    exists k :: 1 <= k < |units| && SumLen(units[..k]) == RTP_PAYLOAD_SIZE
  }

  predicate NonEmptyUnits(units: seq<seq<byte>>) {
    forall k :: 0 <= k < |units| ==> units[k] != []
  }

  /**
   * The size rule of one item: fragments are of the larger units only, and a
   * group overruns the payload size just when a proper prefix fills it exactly.
   */
  predicate SizeRule(item: Item) {
    match item
    case Fragmented(unit) => |unit| > RTP_PAYLOAD_SIZE
    case Group(units) => units != [] && (SumLen(units) > RTP_PAYLOAD_SIZE <==> FullPrefix(units))
  }

  lemma {:induction false} FullPrefixOverruns(units: seq<seq<byte>>)
    requires NonEmptyUnits(units) && FullPrefix(units)
    ensures SumLen(units) > RTP_PAYLOAD_SIZE
  {
    var k :| 1 <= k < |units| && SumLen(units[..k]) == RTP_PAYLOAD_SIZE;
    assert units == units[..k] + units[k..];
    SumLenConcat(units[..k], units[k..]);
    assert units[k] != [] && units[k..][0] == units[k];
  }

  lemma {:induction false} PendingGrows(pending: seq<seq<byte>>, u: seq<byte>)
    requires NonEmptyUnits(pending) && 1 <= |u| <= RTP_PAYLOAD_SIZE
    requires pending == [] || SizeRule(Group(pending))
    requires !(SumLen(pending) < RTP_PAYLOAD_SIZE && RTP_PAYLOAD_SIZE < SumLen(pending) + |u|)
    ensures NonEmptyUnits(pending + [u]) && SizeRule(Group(pending + [u]))
  {
    var now := pending + [u];
    SumLenSnoc(pending, u);
    if SumLen(now) > RTP_PAYLOAD_SIZE {
      if SumLen(pending) == RTP_PAYLOAD_SIZE {
        assert now[..|pending|] == pending;
        assert pending != [];
      } else {
        var k :| 1 <= k < |pending| && SumLen(pending[..k]) == RTP_PAYLOAD_SIZE;
        assert now[..k] == pending[..k];
      }
      assert FullPrefix(now);
    } else if FullPrefix(now) {
      FullPrefixOverruns(now);
    }
  }

  lemma {:induction false} SingleRule(u: seq<byte>)
    requires 1 <= |u| <= RTP_PAYLOAD_SIZE
    ensures SizeRule(Group([u]))
  {
    assert [u][1..] == [];
  }

  /** The groups obey the size rule; it is the strict test of the loop that leaves the exception. */
  lemma {:induction false} GroupingSizes(units: seq<seq<byte>>, pending: seq<seq<byte>>)
    requires NonEmptyUnits(units) && NonEmptyUnits(pending)
    requires pending == [] || SizeRule(Group(pending))
    ensures forall i :: 0 <= i < |Items(units, pending)| ==> SizeRule(Items(units, pending)[i])
    decreases units
  {
    if units != [] {
      var u, rest := units[0], units[1..];
      assert u != [];
      if |u| > RTP_PAYLOAD_SIZE {
        GroupingSizes(rest, []);
      } else if SumLen(pending) < RTP_PAYLOAD_SIZE && RTP_PAYLOAD_SIZE < SumLen(pending) + |u| {
        SingleRule(u);
        GroupingSizes(rest, [u]);
      } else {
        PendingGrows(pending, u);
        GroupingSizes(rest, pending + [u]);
      }
    }
  }

  /** A group is closed only by a unit that would overrun it, or by a fragmented unit. */
  predicate Greedy(a: Item, b: Item) {
    a.Group? && b.Group? ==>
      b.units != [] && SumLen(a.units) < RTP_PAYLOAD_SIZE < SumLen(a.units) + |b.units[0]|
  }

  lemma {:induction false} FirstItem(units: seq<seq<byte>>, pending: seq<seq<byte>>)
    ensures Items(units, pending) != [] && pending != [] && Items(units, pending)[0].Group? ==>
              pending <= Items(units, pending)[0].units
    decreases units
  {
    if units != [] && pending != [] {
      var u, rest := units[0], units[1..];
      if |u| <= RTP_PAYLOAD_SIZE &&
         !(SumLen(pending) < RTP_PAYLOAD_SIZE && RTP_PAYLOAD_SIZE < SumLen(pending) + |u|) {
        FirstItem(rest, pending + [u]);
      }
    }
  }

  lemma {:induction false} GroupingIsGreedy(units: seq<seq<byte>>, pending: seq<seq<byte>>)
    ensures forall i :: 0 <= i < |Items(units, pending)| - 1 ==>
              Greedy(Items(units, pending)[i], Items(units, pending)[i + 1])
    decreases units
  {
    if units != [] {
      var u, rest := units[0], units[1..];
      if |u| > RTP_PAYLOAD_SIZE {
        GroupingIsGreedy(rest, []);
        var tail := Items(rest, []);
        var all := Items(units, pending);
        assert all == Flush(pending) + [Fragmented(u)] + tail;
        forall i | 0 <= i < |all| - 1
          ensures Greedy(all[i], all[i + 1])
        {
          var k := i - |Flush(pending)| - 1;
          if k >= 0 {
            assert all[i] == tail[k] && all[i + 1] == tail[k + 1];
          }
        }
      } else if SumLen(pending) < RTP_PAYLOAD_SIZE && RTP_PAYLOAD_SIZE < SumLen(pending) + |u| {
        GroupingIsGreedy(rest, [u]);
        FirstItem(rest, [u]);
        var tail := Items(rest, [u]);
        var all := Items(units, pending);
        assert all == Flush(pending) + tail;
        forall i | 0 <= i < |all| - 1
          ensures Greedy(all[i], all[i + 1])
        {
          var k := i - |Flush(pending)|;
          if k >= 0 {
            assert all[i] == tail[k] && all[i + 1] == tail[k + 1];
          } else {
            assert all[i] == Group(pending) && all[i + 1] == tail[0];
          }
        }
      } else {
        GroupingIsGreedy(rest, pending + [u]);
      }
    }
  }

  lemma {:induction false} ItemsWellformed(units: seq<seq<byte>>, pending: seq<seq<byte>>)
    ensures AllWellformed(Items(units, pending))
    decreases units
  {
    if units != [] {
      var u, rest := units[0], units[1..];
      ItemsWellformed(rest, []);
      ItemsWellformed(rest, [u]);
      ItemsWellformed(rest, pending + [u]);
    }
  }

  // ------------------------------------------------------------------
  // FU-A arithmetic

  /** The bytes of one fragment. */
  lemma {:induction false} FragmentIs(u: seq<byte>, off: nat)
    requires u != [] && off <= |u| - 1
    ensures var n := CopyLen(u, off);
      && n == (if FRAGMENT_SIZE < |u| - 1 - off then FRAGMENT_SIZE else |u| - 1 - off)
      && Fragment(u, off) == [High3(u[0]) + 28, FuHeader(u, off, n)] + u[1 + off..1 + off + n]
  {
  }

  /** The k-th fragment copies from offset 1370*k of the unit's body. */
  lemma {:induction false} FragmentAt(u: seq<byte>, off: nat, k: nat)
    requires u != [] && off <= |u| - 1
    requires k < |Fragments(u, off)|
    ensures off + 1370 * k <= |u| - 1
    ensures Fragments(u, off)[k] == Fragment(u, off + 1370 * k)
    decreases k
  {
    hide Fragment;
    if k > 0 {
      var n := CopyLen(u, off);
      assert off + n != |u| - 1 && n == 1370;
      FragmentAt(u, off + n, k - 1);
      assert off + n + 1370 * (k - 1) == off + 1370 * k;
    }
  }

  lemma {:induction false} FragmentCount(u: seq<byte>, off: nat)
    requires u != [] && off < |u| - 1
    ensures |Fragments(u, off)| == (|u| - 1 - off + 1369) / 1370
    decreases |u| - off
  {
    if |u| - 1 - off > 1370 {
      FragmentCount(u, off + 1370);
    }
  }

  /**
   * FU-A fragmentation of a unit too large for one packet: ceil((L-1)/1370)
   * fragments, at least two, none over the packet size; the start bit is on the
   * first only and the end bit on the last only.
   */
  lemma {:induction false} FragmentationShape(u: seq<byte>, k: nat)
    requires |u| > RTP_PAYLOAD_SIZE && k < |Fragments(u, 0)|
    ensures |Fragments(u, 0)| == (|u| - 1 + 1369) / 1370 >= 2
    ensures var f := Fragments(u, 0)[k];
            && 3 <= |f| && 28 + |f| <= 1400
            && Low5(f[0]) == 28 && High3(f[0]) == High3(u[0]) && Low5(f[1]) == Low5(u[0])
            && (f[1] / 128 == 1 <==> k == 0)
            && (f[1] / 64 % 2 == 1 <==> k == |Fragments(u, 0)| - 1)
  {
    FragmentCount(u, 0);
    FragmentAt(u, 0, k);
    var off := 1370 * k;
    assert k == |Fragments(u, 0)| - 1 <==> |u| - 1 - off <= 1370;
  }

  // ------------------------------------------------------------------
  // Packets parse back, and tile the buffer

  lemma {:induction false} NextNext(sequence: uint32, i: nat, j: nat)
    ensures Next(Next(sequence, i), j) == Next(sequence, i + j)
    ensures Next(sequence, 0) == sequence
  {
    var x := sequence + i;
    var q, m := x / 0x1_0000_0000, x % 0x1_0000_0000;
    var k, r := (m + j) / 0x1_0000_0000, (m + j) % 0x1_0000_0000;
    assert x + j == (q + k) * 0x1_0000_0000 + r;
    Mod32(x + j, q + k, r);
    Mod32(sequence, 0, sequence);
  }

  lemma {:induction false} PacketsLength(sequence: uint32, o: Origin, payloads: seq<seq<byte>>)
    ensures |Packets(sequence, o, payloads)| == |payloads|
    ensures |Wires(Packets(sequence, o, payloads))| == PacketBytes(payloads)
    decreases payloads
  {
    if payloads != [] {
      PacketsLength(Next(sequence, 1), o, payloads[1..]);
    }
  }

  lemma {:induction false} PacketAt(sequence: uint32, o: Origin, payloads: seq<seq<byte>>, i: nat)
    requires i < |payloads|
    ensures |Packets(sequence, o, payloads)| == |payloads|
    ensures Packets(sequence, o, payloads)[i] == Packet(Next(sequence, i), o, payloads[i])
    decreases payloads
  {
    PacketsLength(sequence, o, payloads);
    NextNext(sequence, 0, 0);
    if i > 0 {
      PacketAt(Next(sequence, 1), o, payloads[1..], i - 1);
      NextNext(sequence, 1, i - 1);
    }
  }

  lemma {:induction false} PacketsConcat(sequence: uint32, o: Origin, a: seq<seq<byte>>, b: seq<seq<byte>>)
    ensures Packets(sequence, o, a + b) == Packets(sequence, o, a) + Packets(Next(sequence, |a|), o, b)
    decreases a
  {
    if a == [] {
      assert a + b == b;
      NextNext(sequence, 0, 0);
    } else {
      assert (a + b)[1..] == a[1..] + b;
      PacketsConcat(Next(sequence, 1), o, a[1..], b);
      NextNext(sequence, 1, |a| - 1);
    }
  }

  /** Packet i of a call parses back to sequence start+i mod 2^32, the same origin and its payload. */
  lemma {:induction false} PacketParsesBack(sequence: uint32, o: Origin, payloads: seq<seq<byte>>, i: nat)
    requires i < |payloads| && PREFIX_SIZE + |payloads[i]| < 0x1_0000_0000_0000_0000
    ensures |Packets(sequence, o, payloads)| == |payloads|
    ensures var p := Packets(sequence, o, payloads)[i];
            && ParsesAs(Wire(p), p)
            && p.fields.sequenceHigh * 0x1_0000 + p.fields.sequenceLow == (sequence + i) % 0x1_0000_0000
            && p.fields.timestamp == o.timestamp && p.fields.ssrc == o.ssrc
            && !p.fields.marker && p.fields.reserved == 0 && p.payload == payloads[i]
  {
    hide Wire, ParsesAs;
    PacketAt(sequence, o, payloads, i);
    ParseUndoesBuild(Packets(sequence, o, payloads)[i]);
  }

  lemma {:induction false} TilingConcat(at: nat, a: seq<Rtp>, b: seq<Rtp>)
    ensures Tiling(at, a + b) == Tiling(at, a) + Tiling(at + |Wires(a)|, b)
    decreases a
  {
    if a == [] {
      assert a + b == b;
    } else {
      assert (a + b)[1..] == a[1..] + b;
      TilingConcat(at + PREFIX_SIZE + |a[0].payload|, a[1..], b);
    }
  }

  lemma {:induction false} TilingSnoc(at: nat, a: seq<Rtp>, x: Rtp)
    ensures Tiling(at, a + [x]) == Tiling(at, a) + [Slice(at + |Wires(a)|, |Wire(x)|)]
  {
    TilingConcat(at, a, [x]);
    assert [x][1..] == [];
  }

  lemma {:induction false} TilingLength(at: nat, packets: seq<Rtp>)
    ensures |Tiling(at, packets)| == |packets|
    decreases packets
  {
    if packets != [] {
      TilingLength(at + PREFIX_SIZE + |packets[0].payload|, packets[1..]);
    }
  }

  /** The slices are consecutive, and each cuts its own packet out of the buffer. */
  lemma {:induction false} TilingCuts(at: nat, packets: seq<Rtp>, buffer: seq<byte>, i: nat)
    requires at <= |buffer| && Wires(packets) <= buffer[at..]
    requires i < |packets|
    ensures |Tiling(at, packets)| == |packets|
    ensures var t := Tiling(at, packets);
            && t[0].start == at
            && (i > 0 ==> t[i].start == t[i - 1].start + t[i - 1].len)
            && t[i].start + t[i].len <= |buffer|
            && buffer[t[i].start..t[i].start + t[i].len] == Wire(packets[i])
    decreases packets
  {
    hide Wire;
    var w, rest := Wire(packets[0]), packets[1..];
    TilingLength(at, packets);
    PrefixCut(buffer, at, w, Wires(rest));
    if i > 0 {
      TilingCuts(at + |w|, rest, buffer, i - 1);
    }
  }

  lemma {:induction false} PrefixCut(buffer: seq<byte>, at: nat, a: seq<byte>, b: seq<byte>)
    requires at <= |buffer| && a + b <= buffer[at..]
    ensures at + |a| <= |buffer|
    ensures buffer[at..at + |a|] == a
    ensures b <= buffer[at + |a|..]
  {
    var t := buffer[at..];
    assert buffer[at + |a|..] == t[|a|..];
    assert t[..|a|] == (a + b)[..|a|] == a;
    assert t[|a|..][..|b|] == (a + b)[|a|..] == b;
  }

  // ------------------------------------------------------------------
  // Sizes, and when a call succeeds

  lemma {:induction false} AllWellformedConcat(a: seq<Item>, b: seq<Item>)
    requires AllWellformed(a) && AllWellformed(b)
    ensures AllWellformed(a + b)
  {
  }

  lemma {:induction false} AllPayloadsConcat(a: seq<Item>, b: seq<Item>)
    requires AllWellformed(a) && AllWellformed(b) && AllWellformed(a + b)
    ensures AllPayloads(a + b) == AllPayloads(a) + AllPayloads(b)
  {
    if a == [] {
      assert a + b == b;
    } else {
      assert (a + b)[1..] == a[1..] + b;
      AllPayloadsConcat(a[1..], b);
    }
  }

  lemma {:induction false} AllPayloadsSnoc(a: seq<Item>, x: Item)
    requires AllWellformed(a) && Wellformed(x) && AllWellformed(a + [x])
    ensures AllPayloads(a + [x]) == AllPayloads(a) + Payloads(x)
  {
    AllPayloadsConcat(a, [x]);
    assert [x][1..] == [];
  }

  lemma {:induction false} PacketBytesConcat(a: seq<seq<byte>>, b: seq<seq<byte>>)
    ensures PacketBytes(a + b) == PacketBytes(a) + PacketBytes(b)
  {
    SumLenConcat(a, b);
  }

  lemma {:induction false} AllFitConcat(cur: nat, a: seq<Item>, b: seq<Item>)
    requires AllWellformed(a) && AllWellformed(b) && AllWellformed(a + b)
    ensures AllFit(cur, a + b) <==> AllFit(cur, a) && AllFit(cur + PacketBytes(AllPayloads(a)), b)
    decreases a
  {
    if a == [] {
      assert a + b == b;
    } else {
      assert (a + b)[1..] == a[1..] + b;
      assert Wellformed(a[0]);
      AllFitConcat(cur + ItemSize(a[0]), a[1..], b);
      PacketBytesConcat(Payloads(a[0]), AllPayloads(a[1..]));
    }
  }

  lemma {:induction false} SizedAllLength(units: seq<seq<byte>>)
    ensures |SizedAll(units)| == 2 * |units| + SumLen(units)
  {
    if units != [] {
      SizedAllLength(units[1..]);
    }
  }

  lemma {:induction false} StapFitsIff(pos: nat, units: seq<seq<byte>>, first: bool)
    requires units != []
    ensures StapFits(pos, units, first) <==>
            pos + |SizedAll(units)| + (if first then 1 else 0)
              < RTP_PACKETS_BUFFER_SIZE + (if first && |units| == 1 then 3 else 2)
    decreases units
  {
    SizedAllLength(units);
    SizedAllLength(units[1..]);
    if units[1..] != [] {
      StapFitsIff(pos + (if first then 3 else 2) + |units[0]|, units[1..], false);
    }
  }

  lemma {:induction false} FragmentsFitIff(cur: nat, payloads: seq<seq<byte>>)
    requires payloads != []
    ensures FragmentsFit(cur, payloads) <==> cur + PacketBytes(payloads) < RTP_PACKETS_BUFFER_SIZE
    decreases payloads
  {
    assert payloads == [payloads[0]] + payloads[1..];
    if payloads[1..] == [] {
      assert SumLen(payloads) == |payloads[0]|;
    } else {
      FragmentsFitIff(cur + PREFIX_SIZE + |payloads[0]|, payloads[1..]);
    }
  }

  /**
   * The strictness of the tests, in closed form: a single unit or a fragment must
   * leave a spare byte, whereas an aggregation packet may end one byte past the
   * buffer, because its tests leave out the size fields they are about to write.
   */
  lemma {:induction false} ItemFitsIff(cur: nat, item: Item)
    requires Wellformed(item)
    ensures ItemFits(cur, item) <==> cur + ItemSize(item) < RTP_PACKETS_BUFFER_SIZE + Overrun(item)
  {
    match item
    case Fragmented(unit) => FragmentsFitIff(cur, Fragments(unit, 0));
    case Group(units) =>
      if |units| == 1 {
        SumLenSnoc([], units[0]);
        assert [] + [units[0]] == Payloads(item);
      } else {
        StapFitsIff(cur + PREFIX_SIZE, units, true);
        SumLenSnoc([], StapA(units));
        assert [] + [StapA(units)] == Payloads(item);
      }
  }

  function Overrun(item: Item): nat {
    if item.Group? && |item.units| > 1 then 2 else 0
  }

  /** A whole call succeeds just when its total size passes the test of its last item. */
  lemma {:induction false} AllFitIff(cur: nat, items: seq<Item>)
    requires AllWellformed(items) && items != []
    ensures AllFit(cur, items) <==>
            cur + PacketBytes(AllPayloads(items)) < RTP_PACKETS_BUFFER_SIZE + Overrun(items[|items| - 1])
    decreases items
  {
    hide ItemFits, ItemSize, PacketBytes, Payloads, Wellformed;
    var rest := items[1..];
    assert Wellformed(items[0]);
    ItemFitsIff(cur, items[0]);
    ItemSizeIs(items[0]);
    PacketBytesConcat(Payloads(items[0]), AllPayloads(rest));
    if rest == [] {
      assert AllPayloads(rest) == [];
      NoPacketBytes();
    } else {
      assert Wellformed(rest[0]);
      ItemSizeIs(rest[0]);
      AllFitIff(cur + ItemSize(items[0]), rest);
      PacketBytesConcat(Payloads(rest[0]), AllPayloads(rest[1..]));
    }
  }

  lemma {:induction false} NoPacketBytes()
    ensures PacketBytes([]) == 0
  {
  }

  lemma {:induction false} ItemSizeIs(item: Item)
    requires Wellformed(item)
    ensures ItemSize(item) == PacketBytes(Payloads(item)) >= PREFIX_SIZE
  {
  }

  /**
   * On success the packets lie inside the buffer except in one case: the last
   * item is an aggregation packet and the total is exactly one byte too much.
   */
  lemma {:induction false} SuccessStaysInside(items: seq<Item>)
    requires AllWellformed(items) && items != [] && AllFit(0, items)
    ensures PacketBytes(AllPayloads(items)) > RTP_PACKETS_BUFFER_SIZE <==>
            Overrun(items[|items| - 1]) == 2 && PacketBytes(AllPayloads(items)) == RTP_PACKETS_BUFFER_SIZE + 1
  {
    AllFitIff(0, items);
  }

  // ------------------------------------------------------------------
  // Where the writing ends, also when a call fails

  /** The position after the loop over the units of an aggregation, refused or not. */
  function StapEnd(pos: nat, units: seq<seq<byte>>, first: bool): nat
    decreases units
  {
    if units == [] || pos + |units[0]| >= RTP_PACKETS_BUFFER_SIZE then pos
    else StapEnd(pos + (if first then 3 else 2) + |units[0]|, units[1..], false)
  }

  /** The position after the fragments of a unit: each test stops before its own write. */
  function FragmentsEnd(cur: nat, payloads: seq<seq<byte>>): nat
    decreases payloads
  {
    if payloads == [] || cur + PREFIX_SIZE >= RTP_PACKETS_BUFFER_SIZE then cur
    else if cur + PREFIX_SIZE + 2 >= RTP_PACKETS_BUFFER_SIZE then cur + PREFIX_SIZE
    else if cur + PREFIX_SIZE + |payloads[0]| >= RTP_PACKETS_BUFFER_SIZE then cur + PREFIX_SIZE + 2
    else FragmentsEnd(cur + PREFIX_SIZE + |payloads[0]|, payloads[1..])
  }

  function ItemEnd(cur: nat, item: Item): nat
    requires Wellformed(item)
  {
    match item
    case Fragmented(unit) => FragmentsEnd(cur, Fragments(unit, 0))
    case Group(units) =>
      if cur + PREFIX_SIZE >= RTP_PACKETS_BUFFER_SIZE then cur
      else if |units| > 1 then StapEnd(cur + PREFIX_SIZE, units, true)
      else if cur + PREFIX_SIZE + |units[0]| < RTP_PACKETS_BUFFER_SIZE then cur + PREFIX_SIZE + |units[0]|
      else cur + PREFIX_SIZE
  }

  /** The position after a whole call: behind all items, or inside the one that did not fit. */
  function AllEnd(cur: nat, items: seq<Item>): nat
    requires AllWellformed(items)
    decreases items
  {
    if items == [] then cur
    else
      assert Wellformed(items[0]);
      if ItemFits(cur, items[0]) then AllEnd(cur + ItemSize(items[0]), items[1..])
      else ItemEnd(cur, items[0])
  }

  lemma {:induction false} StapEndFits(pos: nat, units: seq<seq<byte>>, first: bool)
    requires StapFits(pos, units, first)
    ensures StapEnd(pos, units, first)
            == pos + |SizedAll(units)| + if first && units != [] then 1 else 0
    decreases units
  {
    if units != [] {
      StapEndFits(pos + (if first then 3 else 2) + |units[0]|, units[1..], false);
    }
  }

  lemma {:induction false} FragmentsEndFits(cur: nat, payloads: seq<seq<byte>>)
    requires FragmentsFit(cur, payloads) && forall k :: 0 <= k < |payloads| ==> |payloads[k]| >= 2
    ensures FragmentsEnd(cur, payloads) == cur + PacketBytes(payloads)
    decreases payloads
  {
    if payloads != [] {
      FragmentsEndFits(cur + PREFIX_SIZE + |payloads[0]|, payloads[1..]);
    }
  }

  lemma {:induction false} FragmentsAreLong(u: seq<byte>, off: nat)
    requires u != [] && off <= |u| - 1
    ensures forall k :: 0 <= k < |Fragments(u, off)| ==> |Fragments(u, off)[k]| >= 2
    decreases |u| - off
  {
    var next := off + CopyLen(u, off);
    if next != |u| - 1 {
      FragmentsAreLong(u, next);
    }
  }

  lemma {:induction false} ItemEndFits(cur: nat, item: Item)
    requires Wellformed(item) && ItemFits(cur, item)
    ensures ItemEnd(cur, item) == cur + ItemSize(item)
  {
    hide Fragments;
    match item
    case Fragmented(unit) =>
      FragmentsAreLong(unit, 0);
      FragmentsEndFits(cur, Fragments(unit, 0));
    case Group(units) =>
      if |units| == 1 {
        SumLenSnoc([], units[0]);
        assert [] + [units[0]] == Payloads(item);
      } else {
        StapEndFits(cur + PREFIX_SIZE, units, true);
        SumLenSnoc([], StapA(units));
        assert [] + [StapA(units)] == Payloads(item);
      }
  }

  /** Behind items that fit, one more item decides. */
  lemma {:induction false} AllEndSnoc(cur: nat, items: seq<Item>, item: Item)
    requires AllWellformed(items) && Wellformed(item) && AllWellformed(items + [item]) && AllFit(cur, items)
    ensures AllEnd(cur, items + [item]) == ItemEnd(cur + PacketBytes(AllPayloads(items)), item)
    decreases items
  {
    hide ItemFits, ItemEnd, ItemSize, Wellformed, PacketBytes, Payloads;
    if items == [] {
      assert items + [item] == [item] && [item][1..] == [];
      NoPacketBytes();
      if ItemFits(cur, item) {
        ItemEndFits(cur, item);
      }
      assert AllEnd(cur, [item]) == if ItemFits(cur, item) then cur + ItemSize(item) else ItemEnd(cur, item);
    } else {
      assert Wellformed(items[0]);
      assert (items + [item])[0] == items[0] && (items + [item])[1..] == items[1..] + [item];
      AllEndSnoc(cur + ItemSize(items[0]), items[1..], item);
      PacketBytesConcat(Payloads(items[0]), AllPayloads(items[1..]));
      ItemSizeIs(items[0]);
    }
  }

  lemma {:induction false} AllEndFits(cur: nat, items: seq<Item>)
    requires AllWellformed(items) && AllFit(cur, items)
    ensures AllEnd(cur, items) == cur + PacketBytes(AllPayloads(items))
    decreases items
  {
    hide ItemFits, ItemEnd, ItemSize, Wellformed, PacketBytes, Payloads;
    NoPacketBytes();
    if items != [] {
      assert Wellformed(items[0]);
      AllEndFits(cur + ItemSize(items[0]), items[1..]);
      PacketBytesConcat(Payloads(items[0]), AllPayloads(items[1..]));
      ItemSizeIs(items[0]);
    }
  }

  /** A call that stopped within its first items ended there. */
  lemma {:induction false} AllEndStopped(cur: nat, done: seq<Item>, tail: seq<Item>)
    requires AllWellformed(done) && AllWellformed(done + tail) && !AllFit(cur, done)
    ensures AllEnd(cur, done + tail) == AllEnd(cur, done)
    decreases done
  {
    hide ItemFits, ItemEnd, ItemSize, Wellformed;
    assert Wellformed(done[0]);
    assert (done + tail)[0] == done[0] && (done + tail)[1..] == done[1..] + tail;
    if ItemFits(cur, done[0]) {
      AllEndStopped(cur + ItemSize(done[0]), done[1..], tail);
    }
  }

  // Past the end

  /** The first `n` units end one byte past the buffer, or the very first two bytes past it. */
  predicate StapSpills(pos: nat, units: seq<seq<byte>>, first: bool, n: nat) {
    1 <= n <= |units| &&
    var end := pos + (if first then 1 else 0) + |SizedAll(units[..n])|;
    end == RTP_PACKETS_BUFFER_SIZE + 1 || (first && n == 1 && end == RTP_PACKETS_BUFFER_SIZE + 2)
  }

  lemma {:induction false} SizedAllTake(units: seq<seq<byte>>, n: nat)
    requires 1 <= n <= |units|
    ensures |SizedAll(units[..n])| == 2 + |units[0]| + |SizedAll(units[1..][..n - 1])|
  {
    assert units[..n][0] == units[0] && units[..n][1..] == units[1..][..n - 1];
  }

  lemma {:induction false} StapSpillsStep(pos: nat, units: seq<seq<byte>>, first: bool, n: nat)
    requires units != [] && n >= 1
    ensures var next := pos + (if first then 3 else 2) + |units[0]|;
      && (n == 1 ==> (StapSpills(pos, units, first, 1) <==>
            next == RTP_PACKETS_BUFFER_SIZE + 1 || (first && next == RTP_PACKETS_BUFFER_SIZE + 2)))
      && (n > 1 ==> (StapSpills(pos, units, first, n) <==> StapSpills(next, units[1..], false, n - 1)))
      && (StapSpills(pos, units, first, n) ==> next <= RTP_PACKETS_BUFFER_SIZE + 2)
      && (StapSpills(pos, units, first, n) && !first ==> next <= RTP_PACKETS_BUFFER_SIZE + 1)
      && (StapSpills(pos, units, first, n) && n > 1 ==> next < RTP_PACKETS_BUFFER_SIZE)
  {
    if n <= |units| {
      SizedAllTake(units, n);
      if n == 1 {
        assert units[1..][..0] == [];
      } else {
        SizedAllTake(units[1..], n - 1);
      }
    }
  }

  /** The loop over the units ends past the buffer exactly if some of the units do. */
  lemma {:induction false} StapEndPastIff(pos: nat, units: seq<seq<byte>>, first: bool)
    requires pos <= RTP_PACKETS_BUFFER_SIZE
    ensures StapEnd(pos, units, first) <= RTP_PACKETS_BUFFER_SIZE + SLACK
    ensures StapEnd(pos, units, first) > RTP_PACKETS_BUFFER_SIZE <==> exists n: nat :: StapSpills(pos, units, first, n)
    decreases units
  {
    hide StapSpills;
    if units == [] {
      NothingSpills(pos, units, first);
    } else {
      var next := pos + (if first then 3 else 2) + |units[0]|;
      forall n: nat | n >= 1
        ensures n == 1 ==> (StapSpills(pos, units, first, n) <==>
                  next == RTP_PACKETS_BUFFER_SIZE + 1 || (first && next == RTP_PACKETS_BUFFER_SIZE + 2))
        ensures n > 1 ==> (StapSpills(pos, units, first, n) <==> StapSpills(next, units[1..], false, n - 1))
        ensures StapSpills(pos, units, first, n) ==> next <= RTP_PACKETS_BUFFER_SIZE + if first then 2 else 1
        ensures StapSpills(pos, units, first, n) && n > 1 ==> next < RTP_PACKETS_BUFFER_SIZE
      {
        StapSpillsStep(pos, units, first, n);
      }
      SpillsCount(pos, units, first);
      SpillsCount(next, units[1..], false);
      if pos + |units[0]| < RTP_PACKETS_BUFFER_SIZE {
        if next <= RTP_PACKETS_BUFFER_SIZE {
          StapEndPastIff(next, units[1..], false);
          if n: nat :| StapSpills(next, units[1..], false, n) {
            assert StapSpills(pos, units, first, n + 1);
          }
        } else {
          assert StapSpills(pos, units, first, 1);
        }
      }
    }
  }

  lemma {:induction false} SpillsCount(pos: nat, units: seq<seq<byte>>, first: bool)
    ensures forall n: nat :: StapSpills(pos, units, first, n) ==> 1 <= n <= |units|
  {
  }

  lemma {:induction false} NothingSpills(pos: nat, units: seq<seq<byte>>, first: bool)
    requires units == []
    ensures forall n: nat :: !StapSpills(pos, units, first, n)
  {
  }

  lemma {:induction false} FragmentsEndInside(cur: nat, payloads: seq<seq<byte>>)
    requires cur <= RTP_PACKETS_BUFFER_SIZE
    ensures FragmentsEnd(cur, payloads) <= RTP_PACKETS_BUFFER_SIZE
    decreases payloads
  {
    if payloads != [] && cur + PREFIX_SIZE + |payloads[0]| < RTP_PACKETS_BUFFER_SIZE {
      FragmentsEndInside(cur + PREFIX_SIZE + |payloads[0]|, payloads[1..]);
    }
  }

  predicate ItemSpills(cur: nat, item: Item, n: nat) {
    item.Group? && |item.units| > 1 && StapSpills(cur + PREFIX_SIZE, item.units, true, n)
  }

  lemma {:induction false} ItemEndPastIff(cur: nat, item: Item)
    requires Wellformed(item) && cur <= RTP_PACKETS_BUFFER_SIZE
    ensures ItemEnd(cur, item) <= RTP_PACKETS_BUFFER_SIZE + SLACK
    ensures ItemEnd(cur, item) > RTP_PACKETS_BUFFER_SIZE <==> exists n: nat :: ItemSpills(cur, item, n)
  {
    hide StapEnd, Fragments, StapSpills, FragmentsEnd;
    match item
    case Fragmented(unit) => FragmentsEndInside(cur, Fragments(unit, 0));
    case Group(units) =>
      forall n: nat
        ensures ItemSpills(cur, item, n) ==> cur + PREFIX_SIZE < RTP_PACKETS_BUFFER_SIZE
      {
        SpillNeedsRoom(cur, item, n);
      }
      if cur + PREFIX_SIZE < RTP_PACKETS_BUFFER_SIZE {
        var pos := cur + PREFIX_SIZE;
        StapEndPastIff(pos, units, true);
        if n: nat :| StapSpills(pos, units, true, n) {
          assert |units| > 1 ==> ItemSpills(cur, item, n);
        }
      }
  }

  lemma {:induction false} SpillNeedsRoom(cur: nat, item: Item, n: nat)
    ensures ItemSpills(cur, item, n) ==> cur + PREFIX_SIZE < RTP_PACKETS_BUFFER_SIZE
  {
    if ItemSpills(cur, item, n) {
      StapSpillsStep(cur + PREFIX_SIZE, item.units, true, n);
    }
  }

  /**
   * The aggregation at place `i` ends past the buffer with its first `n` units, going
   * by the sizes of what stands before them.
   */
  predicate Spills(cur: nat, items: seq<Item>, i: nat, n: nat)
    requires AllWellformed(items)
  {
    i < |items| && ItemSpills(cur + PacketBytes(AllPayloads(items[..i])), items[i], n)
  }

  lemma {:induction false} SpillsHere(cur: nat, items: seq<Item>, n: nat)
    requires AllWellformed(items) && items != []
    ensures Spills(cur, items, 0, n) <==> ItemSpills(cur, items[0], n)
  {
    hide ItemSpills, Payloads;
    NoPacketBytes();
    assert items[..0] == [];
  }

  lemma {:induction false} SpillsLater(cur: nat, items: seq<Item>, i: nat, n: nat)
    requires AllWellformed(items) && items != [] && i >= 1
    ensures Wellformed(items[0])
    ensures Spills(cur, items, i, n) <==> Spills(cur + ItemSize(items[0]), items[1..], i - 1, n)
    ensures Spills(cur, items, i, n) ==> cur + ItemSize(items[0]) + PREFIX_SIZE < RTP_PACKETS_BUFFER_SIZE
  {
    hide ItemSpills, Payloads, PacketBytes, ItemSize, Wellformed;
    assert Wellformed(items[0]);
    ItemSizeIs(items[0]);
    if i < |items| {
      var a := items[1..][..i - 1];
      assert items[..i] == [items[0]] + a && items[..i][0] == items[0] && items[..i][1..] == a;
      PacketBytesConcat(Payloads(items[0]), AllPayloads(a));
      SpillNeedsRoom(cur + PacketBytes(AllPayloads(items[..i])), items[i], n);
    }
  }

  lemma {:induction false} PastStays(cur: nat, items: seq<Item>)
    requires AllWellformed(items) && cur >= RTP_PACKETS_BUFFER_SIZE
    ensures AllEnd(cur, items) == cur
  {
    hide Fragments, StapEnd;
    if items != [] {
      assert Wellformed(items[0]);
      ItemFitsIff(cur, items[0]);
      ItemSizeIs(items[0]);
    }
  }

  /**
   * Every call, whether it succeeds or fails: it writes past the buffer exactly if
   * some aggregation, or a part of one that a later unit makes fail, ends there.
   * It never gets further than two bytes.
   */
  lemma {:induction false} CallPastEndIff(cur: nat, items: seq<Item>)
    requires AllWellformed(items) && cur <= RTP_PACKETS_BUFFER_SIZE
    ensures AllEnd(cur, items) <= RTP_PACKETS_BUFFER_SIZE + SLACK
    ensures AllEnd(cur, items) > RTP_PACKETS_BUFFER_SIZE <==> exists i: nat, n: nat :: Spills(cur, items, i, n)
    decreases items
  {
    hide ItemFits, ItemEnd, ItemSize, ItemSpills, Spills, Wellformed;
    if items == [] {
      NoneSpills(cur, items);
    } else {
      assert Wellformed(items[0]);
      var next := cur + ItemSize(items[0]);
      ItemEndPastIff(cur, items[0]);
      ItemFitsIff(cur, items[0]);
      forall i: nat, n: nat
        ensures Spills(cur, items, i, n) <==>
          if i == 0 then ItemSpills(cur, items[0], n) else Spills(next, items[1..], i - 1, n)
        ensures i > 0 && Spills(cur, items, i, n) ==> next < RTP_PACKETS_BUFFER_SIZE
      {
        if i == 0 {
          SpillsHere(cur, items, n);
        } else {
          SpillsLater(cur, items, i, n);
        }
      }
      if n: nat :| ItemSpills(cur, items[0], n) {
        assert Spills(cur, items, 0, n);
      }
      if ItemFits(cur, items[0]) {
        ItemEndFits(cur, items[0]);
        if next <= RTP_PACKETS_BUFFER_SIZE {
          CallPastEndIff(next, items[1..]);
          if i: nat, n: nat :| Spills(next, items[1..], i, n) {
            assert Spills(cur, items, i + 1, n);
          }
        } else {
          PastStays(next, items[1..]);
        }
      }
    }
  }

  lemma {:induction false} NoneSpills(cur: nat, items: seq<Item>)
    requires items == []
    ensures forall i: nat, n: nat :: !Spills(cur, items, i, n)
  {
  }

  /** Once a group has filled the payload size exactly, it takes all the small units that follow. */
  lemma {:induction false} FullGroupTakesAll(units: seq<seq<byte>>, pending: seq<seq<byte>>)
    requires pending != [] && SumLen(pending) >= RTP_PAYLOAD_SIZE
    requires forall k :: 0 <= k < |units| ==> |units[k]| <= RTP_PAYLOAD_SIZE
    ensures Items(units, pending) == [Group(pending + units)]
    decreases units
  {
    if units == [] {
      assert pending + units == pending;
    } else {
      SumLenSnoc(pending, units[0]);
      FullGroupTakesAll(units[1..], pending + [units[0]]);
      assert pending + [units[0]] + units[1..] == pending + units;
    }
  }

  function Copies(n: nat, u: seq<byte>): (units: seq<seq<byte>>)
    ensures |units| == n && forall k :: 0 <= k < n ==> units[k] == u
  {
    seq(n, _ => u)
  }

  lemma {:induction false} SumLenCopies(n: nat, u: seq<byte>)
    ensures SumLen(Copies(n, u)) == n * |u|
  {
    if n > 0 {
      assert Copies(n, u)[1..] == Copies(n - 1, u);
      SumLenCopies(n - 1, u);
      assert n * |u| == (n - 1) * |u| + |u|;
    }
  }

  /** Of type 1 and without a start code. */
  function Filled(n: nat): (u: seq<byte>)
    ensures |u| == n && forall i :: 0 <= i < n ==> u[i] == 0x41
  {
    seq(n, _ => 0x41)
  }

  lemma {:induction false} FilledIsClean(n: nat)
    requires n > 0
    ensures AnnexB.Clean(Filled(n))
  {
  }

  /**
   * The exceptional case of `SuccessStaysInside` is real: a frame of 191 units
   * that is accepted although its only packet is one byte longer than the buffer.
   */
  lemma {:induction false} OverrunHappens() returns (data: seq<byte>)
    ensures var items := Items(AnnexB.NalUnits(data), []);
      && |AnnexB.NalUnits(data)| == 191 && AnnexB.AllClean(AnnexB.NalUnits(data))
      && AllWellformed(items) && AllFit(0, items)
      && PacketBytes(AllPayloads(items)) == RTP_PACKETS_BUFFER_SIZE + 1
  {
    hide AnnexB.NalUnits, AnnexB.Join, AnnexB.AllUnits, AnnexB.Clean, Items, AllFit, AllPayloads, PacketBytes;
    var units := OverrunUnits();
    var long := seq(191, _ => false);
    AnnexB.SplitUndoesJoin(units, long);
    data := AnnexB.Join(units, long);
    OneGroup(units);
    AllFitIff(0, [Group(units)]);
  }

  lemma {:induction false} OverrunUnits() returns (units: seq<seq<byte>>)
    ensures |units| == 191 && AnnexB.AllClean(units)
    ensures Items(units, []) == [Group(units)] && |StapA(units)| + 28 == RTP_PACKETS_BUFFER_SIZE + 1
    ensures |units[0]| == 1372 && forall k :: 0 <= k < |units| ==> |units[k]| <= 1372
  {
    hide AnnexB.Clean;
    var big, last := Filled(1372), Filled(1054);
    var rest := Copies(189, big) + [last];
    units := [big] + rest;
    FilledIsClean(1372);
    FilledIsClean(1054);
    SumLenSnoc([], big);
    assert [] + [big] == [big];
    SumLenCopies(189, big);
    SumLenSnoc(Copies(189, big), last);
    SumLenConcat([big], rest);
    assert units[1..] == rest;
    FullGroupTakesAll(rest, [big]);
    SizedAllLength(units);
  }

  /** A failing call overruns as well: one unit more, which is refused too late. */
  lemma {:induction false} FailureOverruns() returns (data: seq<byte>)
    ensures var items := Items(AnnexB.NalUnits(data), []);
      && AnnexB.AllClean(AnnexB.NalUnits(data)) && AllWellformed(items)
      && !AllFit(0, items) && AllEnd(0, items) == RTP_PACKETS_BUFFER_SIZE + 1
  {
    hide AnnexB.NalUnits, AnnexB.Join, AnnexB.AllUnits, AnnexB.Clean, Items, AllFit, AllEnd, AllPayloads, PacketBytes, StapFits,
         ItemFits;
    var units := OverrunUnits();
    FilledIsClean(2);
    var all, long := units + [Filled(2)], seq(192, _ => false);
    AnnexB.SplitUndoesJoin(all, long);
    data := AnnexB.Join(all, long);
    GroupOfAll(all);
    OneGroup(all);
    var items := [Group(all)];
    AllFitIff(0, items);
    SizedSnoc(units, Filled(2));
    OneOverruns(units);
    StapEndBehind(28, units, Filled(2));
    NoPacketBytes();
    assert [] + items == items;
    AllEndSnoc(0, [], Group(all));
  }

  lemma {:induction false} OneOverruns(units: seq<seq<byte>>)
    requires |units| > 1 && 28 + |StapA(units)| == RTP_PACKETS_BUFFER_SIZE + 1
    ensures StapFits(28, units, true) && AllFit(0, []) && AllPayloads([]) == []
  {
    StapFitsIff(28, units, true);
  }

  lemma {:induction false} GroupOfAll(units: seq<seq<byte>>)
    requires |units| > 1 && |units[0]| == 1372 && forall k :: 0 <= k < |units| ==> |units[k]| <= 1372
    ensures Items(units, []) == [Group(units)]
  {
    var u, rest := units[0], units[1..];
    SumLenSnoc([], u);
    assert [] + [u] == [u] && [u] + rest == units;
    FullGroupTakesAll(rest, [u]);
  }

  /** Behind units that pass, a unit at or past the end is refused where it stands. */
  lemma {:induction false} StapEndBehind(pos: nat, units: seq<seq<byte>>, u: seq<byte>)
    requires units != [] && StapFits(pos, units, true)
    requires pos + |StapA(units)| + |u| >= RTP_PACKETS_BUFFER_SIZE
    ensures StapEnd(pos, units + [u], true) == pos + |StapA(units)|
  {
    StapEndRefuses(pos, units, u, true);
  }

  lemma {:induction false} StapEndRefuses(pos: nat, units: seq<seq<byte>>, u: seq<byte>, first: bool)
    requires StapFits(pos, units, first) && (first ==> units != [])
    requires pos + |SizedAll(units)| + (if first then 1 else 0) + |u| >= RTP_PACKETS_BUFFER_SIZE
    ensures StapEnd(pos, units + [u], first) == pos + |SizedAll(units)| + if first then 1 else 0
    decreases units
  {
    if units != [] {
      assert (units + [u])[1..] == units[1..] + [u];
      StapEndRefuses(pos + (if first then 3 else 2) + |units[0]|, units[1..], u, false);
    }
  }

  lemma {:induction false} OneGroup(units: seq<seq<byte>>)
    requires |units| > 1
    ensures AllWellformed([Group(units)])
    ensures PacketBytes(AllPayloads([Group(units)])) == 28 + |StapA(units)|
  {
    var items := [Group(units)];
    assert items[1..] == [] && AllPayloads([]) == [];
    assert AllPayloads(items) == [] + [StapA(units)];
    SumLenSnoc([], StapA(units));
  }

  // ------------------------------------------------------------------
  // The builder object

  /**
   * How far past the buffer end the tests of an aggregation packet can let a copy
   * run (see `ItemFitsIff`). The array below is the buffer and that much of what
   * follows it, so that the code can be followed there as well.
   */
  const SLACK: nat := 2

  class RTPH264PacketBuilder {
    const buffer: array<byte>
    var currentPos: nat
    var sequence: uint32
    var timestamp: uint32
    var ssrc: uint32
    var nalus: seq<seq<byte>>

    ghost predicate Valid()
      reads this
    {
      buffer.Length == RTP_PACKETS_BUFFER_SIZE + SLACK
    }

    function Sender(): Origin
      reads this
    {
      Origin(timestamp, ssrc)
    }

    /** The vector of slices describes the given packets, which fill the buffer so far. */
    ghost predicate Holds(slices: seq<Slice>, packets: seq<Rtp>)
      reads this, buffer
    {
      && slices == Tiling(0, packets)
      && currentPos == |Wires(packets)| <= buffer.Length
      && buffer[..currentPos] == Wires(packets)
    }

    constructor (sequenceStart: uint16, timestampStart: uint32, newSsrc: uint32)
      ensures Valid() && fresh(buffer)
      ensures sequence == sequenceStart && timestamp == timestampStart && ssrc == newSsrc && nalus == []
    {
      buffer := new byte[RTP_PACKETS_BUFFER_SIZE + SLACK];
      currentPos, sequence, timestamp, ssrc, nalus := 0, sequenceStart, timestampStart, newSsrc, [];
    }

    method IncrementTimestampBy(inc: uint32)
      modifies this
      ensures timestamp == (old(timestamp) + inc) % 0x1_0000_0000
      ensures sequence == old(sequence) && ssrc == old(ssrc) && nalus == old(nalus) && currentPos == old(currentPos)
    {
      timestamp := (timestamp + inc) % 0x1_0000_0000;
    }

    /** `memcpy(m_current_pos, data, len); m_current_pos += len`. */
    method Append(data: seq<byte>)
      requires currentPos + |data| <= buffer.Length
      modifies this`currentPos, buffer
      ensures currentPos == old(currentPos) + |data|
      ensures buffer[..currentPos] == old(buffer[..currentPos]) + data
      ensures buffer[currentPos..] == old(buffer[currentPos + |data|..])
    {
      forall k | 0 <= k < |data| {
        buffer[currentPos + k] := data[k];
      }
      currentPos := currentPos + |data|;
    }

    /** Both headers of the packet to come, field values of this builder. */
    method AppendHeaders()
      requires currentPos + PREFIX_SIZE <= buffer.Length
      modifies this`currentPos, buffer
      ensures currentPos == old(currentPos) + PREFIX_SIZE
      ensures buffer[..currentPos] == old(buffer[..currentPos]) + HeaderBytes(Packet(sequence, Sender(), []).fields)
    {
      var f := Fields(false, sequence % 0x1_0000, timestamp, ssrc, 0, sequence / 0x1_0000);
      Append(FixedHeader(f));
      Append(ExtensionHeader(f));
    }

    /** Splits the frame; the units are slices of the caller's data. */
    method SendData(data: seq<byte>, base: nat)
      modifies this`nalus
      ensures nalus == AnnexB.NalUnits(data)
    {
      hide AnnexB.CodeStart, AnnexB.AfterNonzero, AnnexB.RawUnits, AnnexB.NonEmpty;
      nalus := [];
      var startCode := AnnexB.FindStartCode(data, base, 0);
      while startCode < |data|
        invariant startCode <= |data|
        invariant nalus + AnnexB.NonEmpty(AnnexB.RawUnits(data, startCode)) == AnnexB.NalUnits(data)
        decreases |data| - startCode
      {
        AnnexB.SplitStep(data, startCode);
        startCode := AnnexB.SkipCode(data, startCode);
        var nextStart := AnnexB.FindStartCode(data, base, startCode);
        var naluLen := nextStart - startCode;
        ghost var rest := AnnexB.NonEmpty(AnnexB.RawUnits(data, nextStart));
        if naluLen > 0 {
          Associate(nalus, [data[startCode..nextStart]], rest);
          nalus := nalus + [data[startCode..nextStart]];
        }
        assert [] + rest == rest;
        startCode := nextStart;
      }
      AnnexB.NoUnitsAtEnd(data);
    }

    /** One packet of a single unit or, for several, a STAP-A aggregation. */
    method BuildPacket(units: seq<seq<byte>>, rtpvec: seq<Slice>, ghost done: seq<Rtp>)
      returns (ok: bool, slices: seq<Slice>)
      requires Valid() && units != [] && Holds(rtpvec, done)
      modifies this`currentPos, this`sequence, buffer
      ensures ok == ItemFits(old(currentPos), Group(units))
      ensures ok ==> Holds(slices, done + [Packet(old(sequence), Sender(), Payloads(Group(units))[0])])
      ensures ok ==> sequence == Next(old(sequence), 1)
      ensures !ok ==> slices == rtpvec && sequence == old(sequence) && Wires(done) <= buffer[..]
      ensures currentPos == ItemEnd(old(currentPos), Group(units))
    {
      slices := rtpvec;
      hide StapA, FixedHeader, ExtensionHeader, Tiling, Wires, StapFits, StapEnd;
      ghost var w := Wires(done);
      StapNeedsRoom(currentPos + PREFIX_SIZE, units);
      if currentPos + HEADER_SIZE + EXTENSION_SIZE >= RTP_PACKETS_BUFFER_SIZE {
        return false, slices;
      }
      var start := currentPos;
      AppendHeaders();
      if |units| == 1 {
        if currentPos + |units[0]| < RTP_PACKETS_BUFFER_SIZE {
          Append(units[0]);
        } else {
          return false, slices;
        }
      } else {
        var fits := AppendStapA(units);
        if !fits {
          return false, slices;
        }
      }
      ghost var p := Packet(sequence, Sender(), Payloads(Group(units))[0]);
      assert buffer[..currentPos] == w + Wire(p);
      slices := PushBack(slices, start, done, p);
      return true, slices;
    }

    /** `rtpvec.push_back(make_pair(start, m_current_pos - start)); m_sequence++`. */
    method PushBack(rtpvec: seq<Slice>, start: nat, ghost done: seq<Rtp>, ghost p: Rtp) returns (slices: seq<Slice>)
      requires rtpvec == Tiling(0, done) && start == |Wires(done)|
      requires currentPos == start + |Wire(p)| <= buffer.Length
      requires buffer[..currentPos] == Wires(done) + Wire(p)
      modifies this`sequence
      ensures Holds(slices, done + [p])
      ensures sequence == Next(old(sequence), 1)
    {
      hide Wire;
      slices := rtpvec + [Slice(start, currentPos - start)];
      sequence := Next(sequence, 1);
      WiresSnoc(done, p);
      TilingSnoc(0, done, p);
    }

    /** All aggregation units; each copy is checked against the end before its size is written. */
    method AppendStapA(units: seq<seq<byte>>) returns (ok: bool)
      requires Valid() && |units| > 1 && currentPos <= buffer.Length
      modifies this`currentPos, buffer
      ensures ok == StapFits(old(currentPos), units, true)
      ensures ok ==> currentPos == old(currentPos) + |StapA(units)| <= buffer.Length
      ensures ok ==> buffer[..currentPos] == old(buffer[..currentPos]) + StapA(units)
      ensures currentPos == StapEnd(old(currentPos), units, true)
      ensures old(buffer[..currentPos]) <= buffer[..]
    {
      hide StapPrefix, UnitBytes, StapA;
      ghost var pre := buffer[..currentPos];
      StapPrefixEnds(units);
      var it := 0;
      while it < |units|
        invariant it <= |units|
        invariant |pre| <= currentPos <= buffer.Length
        invariant StapFits(|pre|, units, true) == StapFits(currentPos, units[it..], it == 0)
        invariant StapEnd(|pre|, units, true) == StapEnd(currentPos, units[it..], it == 0)
        invariant buffer[..currentPos] == pre + StapPrefix(units, it)
      {
        var data := units[it];
        assert units[it..][0] == data && units[it..][1..] == units[it + 1..];
        StapStep(units, it);
        if currentPos + |data| < RTP_PACKETS_BUFFER_SIZE {
          AppendUnit(data, it == 0);
          Associate(pre, StapPrefix(units, it), UnitBytes(data, it == 0));
        } else {
          return false;
        }
        it := it + 1;
      }
      return true;
    }

    /** One fragment, with the three tests of the loop body after the first. */
    method AppendFragment(u: seq<byte>, leftLen: nat, isStart: bool) returns (ok: bool, copyLen: nat)
      requires Valid() && u != [] && leftLen <= |u| - 1 && (isStart <==> leftLen == |u| - 1)
      requires currentPos + PREFIX_SIZE < RTP_PACKETS_BUFFER_SIZE
      modifies this`currentPos, buffer
      ensures var off := |u| - 1 - leftLen;
              var w := Wire(Packet(sequence, Sender(), Fragment(u, off)));
              && copyLen == CopyLen(u, off)
              && ok == (old(currentPos) + |w| < RTP_PACKETS_BUFFER_SIZE)
              && (ok ==> currentPos == old(currentPos) + |w| && buffer[..currentPos] == old(buffer[..currentPos]) + w)
      ensures !ok ==> currentPos == old(currentPos) + PREFIX_SIZE
                      + if old(currentPos) + PREFIX_SIZE + 2 >= RTP_PACKETS_BUFFER_SIZE then 0 else 2
      ensures old(buffer[..currentPos]) <= buffer[..]
    {
      hide HeaderBytes, Fragment, CopyLen;
      ghost var was, h := buffer[..currentPos], HeaderBytes(Packet(sequence, Sender(), []).fields);
      var len := |u| - 1;
      FragmentIs(u, len - leftLen);
      copyLen := if FRAGMENT_SIZE < leftLen then FRAGMENT_SIZE else leftLen;
      AppendHeaders();
      var header: byte;
      if isStart {
        header := 0x80 + Low5(u[0]);
      } else if copyLen == leftLen {
        header := 0x40 + Low5(u[0]);
      } else {
        header := 0x00 + Low5(u[0]);
      }
      ok := AppendFu([High3(u[0]) + 0x1c, header], u[1 + len - leftLen..1 + len - leftLen + copyLen]);
      Associate(was, h, Fragment(u, len - leftLen));
    }

    /** Both octets of the FU headers and the copied bytes, each checked against the end. */
    method AppendFu(headers: seq<byte>, body: seq<byte>) returns (ok: bool)
      requires Valid() && |headers| == 2 && currentPos < RTP_PACKETS_BUFFER_SIZE
      modifies this`currentPos, buffer
      ensures ok == (old(currentPos) + 2 + |body| < RTP_PACKETS_BUFFER_SIZE)
      ensures ok ==> currentPos == old(currentPos) + 2 + |body|
      ensures !ok ==> currentPos == old(currentPos) + if old(currentPos) + 2 >= RTP_PACKETS_BUFFER_SIZE then 0 else 2
      ensures ok ==> buffer[..currentPos] == old(buffer[..currentPos]) + (headers + body)
      ensures old(buffer[..currentPos]) <= buffer[..]
    {
      ghost var was := buffer[..currentPos];
      if currentPos + 2 >= RTP_PACKETS_BUFFER_SIZE {
        return false;
      }
      Append(headers);
      if currentPos + |body| >= RTP_PACKETS_BUFFER_SIZE {
        return false;
      }
      Append(body);
      Associate(was, headers, body);
      return true;
    }

    /**
     * The fragments of one unit. When the buffer is full the fragments pushed so
     * far stay in the vector; `sent` counts them.
     */
    method BuildFuaPacket(u: seq<byte>, rtpvec: seq<Slice>, ghost done: seq<Rtp>)
      returns (ok: bool, slices: seq<Slice>, ghost sent: nat)
      requires Valid() && u != [] && Holds(rtpvec, done)
      modifies this`currentPos, this`sequence, buffer
      ensures ok == ItemFits(old(currentPos), Fragmented(u))
      ensures sent <= |Fragments(u, 0)| && (ok ==> sent == |Fragments(u, 0)|)
      ensures var now := done + Packets(old(sequence), Sender(), Fragments(u, 0)[..sent]);
              && slices == Tiling(0, now) && sequence == Next(old(sequence), sent)
              && Wires(now) <= buffer[..] && (ok ==> Holds(slices, now))
      ensures currentPos == ItemEnd(old(currentPos), Fragmented(u))
    {
      hide Fragments, Fragment, CopyLen, Wire, Tiling, Wires, Next, Packets, Packet, FragmentsFit, FragmentsEnd;
      slices := rtpvec;
      NoPackets(sequence, Sender());
      sent := 0;
      ghost var all := Fragments(u, 0);
      ghost var now := done;
      var len := |u| - 1;
      var leftLen := len;
      var isStart := true;
      NextNext(sequence, 0, 0);
      assert all[..0] == [] && done + [] == done;
      assert all[0..] == all;
      while true
        invariant 0 <= leftLen <= len && (isStart <==> leftLen == len)
        invariant sent <= |all| && all[sent..] == Fragments(u, len - leftLen)
        invariant Valid() && Sender() == old(Sender())
        invariant now == done + Packets(old(sequence), Sender(), all[..sent])
        invariant Holds(slices, now) && sequence == Next(old(sequence), sent)
        invariant FragmentsFit(old(currentPos), all) == FragmentsFit(currentPos, Fragments(u, len - leftLen))
        invariant FragmentsEnd(old(currentPos), all) == FragmentsEnd(currentPos, Fragments(u, len - leftLen))
        decreases leftLen
      {
        ghost var off := len - leftLen;
        ghost var f := Fragment(u, off);
        ghost var rest := FragmentsStep(u, off, currentPos);
        FragmentsEndStep(currentPos, f, rest);
        TailSplit(all, sent, f, rest);
        if currentPos + HEADER_SIZE + EXTENSION_SIZE >= RTP_PACKETS_BUFFER_SIZE {
          return false, slices, sent;
        }
        var start := currentPos;
        var fits, copyLen := AppendFragment(u, leftLen, isStart);
        if !fits {
          return false, slices, sent;
        }
        isStart := false;
        ghost var p := Packet(sequence, Sender(), f);
        slices := PushBack(slices, start, now, p);
        PushedOne(done, old(sequence), Sender(), all, sent);
        now := now + [p];
        sent := sent + 1;
        leftLen := leftLen - copyLen;
        if leftLen <= 0 {
          assert rest == [];
          break;
        }
      }
      assert all[..sent] == all;
      ok := true;
    }

    /** The first `sent` of some payloads are in the buffer and in the vector, numbered from `seq0`. */
    ghost predicate Sent(payloads: seq<seq<byte>>, sent: nat, packets: seq<Slice>, seq0: uint32)
      reads this, buffer
    {
      sent <= |payloads| &&
      var built := Packets(seq0, Sender(), payloads[..sent]);
      packets == Tiling(0, built) && sequence == Next(seq0, sent) && Wires(built) <= buffer[..]
    }

    /** All packets of these items are in the buffer, with nothing after them. */
    ghost predicate Emitted(items: seq<Item>, packets: seq<Slice>, seq0: uint32)
      reads this, buffer
    {
      && AllWellformed(items) && AllFit(0, items)
      && sequence == Next(seq0, |AllPayloads(items)|)
      && Holds(packets, Packets(seq0, Sender(), AllPayloads(items)))
    }

    /** Builds the pending group, if there is one. */
    method EmitPending(tmp: seq<seq<byte>>, packets: seq<Slice>, ghost items: seq<Item>, ghost seq0: uint32)
      returns (ok: bool, slices: seq<Slice>, ghost sent: nat)
      requires Valid() && Emitted(items, packets, seq0)
      modifies this`currentPos, this`sequence, buffer
      ensures AllWellformed(items + Flush(tmp))
      ensures ok == AllFit(0, items + Flush(tmp))
      ensures Sent(AllPayloads(items + Flush(tmp)), sent, slices, seq0)
      ensures ok ==> Emitted(items + Flush(tmp), slices, seq0)
      ensures ok ==> sent == |AllPayloads(items + Flush(tmp))|
      ensures currentPos == AllEnd(0, items + Flush(tmp))
    {
      hide Next, Packets, ItemFits, AllFit, Payloads, AllEnd, AllPayloads, Wellformed, PacketBytes, Tiling, Wires;
      if |tmp| > 0 {
        ok, slices, sent := EmitGroup(tmp, packets, items, seq0);
      } else {
        PacketsLength(seq0, Sender(), AllPayloads(items));
        assert items + [] == items;
        slices, sent := packets, |AllPayloads(items)|;
        assert AllPayloads(items)[..sent] == AllPayloads(items);
        AllEndFits(0, items);
        ok := true;
      }
    }

    method EmitGroup(units: seq<seq<byte>>, packets: seq<Slice>, ghost items: seq<Item>, ghost seq0: uint32)
      returns (ok: bool, slices: seq<Slice>, ghost sent: nat)
      requires Valid() && units != [] && Emitted(items, packets, seq0)
      modifies this`currentPos, this`sequence, buffer
      ensures AllWellformed(items + [Group(units)])
      ensures ok == AllFit(0, items + [Group(units)])
      ensures Sent(AllPayloads(items + [Group(units)]), sent, slices, seq0)
      ensures ok ==> Emitted(items + [Group(units)], slices, seq0)
      ensures ok ==> sent == |AllPayloads(items + [Group(units)])|
      ensures currentPos == AllEnd(0, items + [Group(units)])
    {
      hide Wires, Tiling, Next, Packets, Packet, ItemFits, AllFit, Payloads, Wire, AllEnd, ItemEnd;
      PacketsLength(seq0, Sender(), AllPayloads(items));
      ghost var payloads := AllPayloads(items);
      sent := |payloads|;
      ok, slices := BuildPacket(units, packets, Packets(seq0, Sender(), payloads));
      GroupPayload(units, Next(seq0, |payloads|), Sender());
      EmitStep(items, Group(units), seq0, Sender(), if ok then 1 else 0);
      AllEndSnoc(0, items, Group(units));
      if ok {
        sent := sent + 1;
      }
    }

    method EmitFragments(u: seq<byte>, packets: seq<Slice>, ghost items: seq<Item>, ghost seq0: uint32)
      returns (ok: bool, slices: seq<Slice>, ghost sent: nat)
      requires Valid() && u != [] && Emitted(items, packets, seq0)
      modifies this`currentPos, this`sequence, buffer
      ensures AllWellformed(items + [Fragmented(u)])
      ensures ok == AllFit(0, items + [Fragmented(u)])
      ensures Sent(AllPayloads(items + [Fragmented(u)]), sent, slices, seq0)
      ensures ok ==> Emitted(items + [Fragmented(u)], slices, seq0)
      ensures ok ==> sent == |AllPayloads(items + [Fragmented(u)])|
      ensures currentPos == AllEnd(0, items + [Fragmented(u)])
    {
      hide Wires, Tiling, Next, Packets, Packet, ItemFits, AllFit, Fragments, Wire, AllEnd, ItemEnd;
      PacketsLength(seq0, Sender(), AllPayloads(items));
      ghost var payloads := AllPayloads(items);
      ghost var k;
      ok, slices, k := BuildFuaPacket(u, packets, Packets(seq0, Sender(), payloads));
      EmitStep(items, Fragmented(u), seq0, Sender(), k);
      AllEndSnoc(0, items, Fragmented(u));
      sent := |payloads| + k;
    }

    /**
     * Groups the units and builds all packets from the start of the buffer; the
     * caller has cleared its vector. `sent` counts the packets built before the
     * buffer was found full.
     */
    method ReceiveRtpPackets() returns (ok: bool, packets: seq<Slice>, ghost sent: nat)
      requires Valid() && NonEmptyUnits(nalus)
      modifies this`currentPos, this`sequence, buffer
      ensures AllWellformed(Items(nalus, []))
      ensures ok == AllFit(0, Items(nalus, []))
      ensures Sent(AllPayloads(Items(nalus, [])), sent, packets, old(sequence))
      ensures ok ==> Emitted(Items(nalus, []), packets, old(sequence))
      ensures ok ==> sent == |AllPayloads(Items(nalus, []))|
      ensures currentPos == AllEnd(0, Items(nalus, [])) <= buffer.Length
    {
      hide AllEnd, Wires, Tiling, Next, Packets, Packet, ItemFits, AllFit, AllPayloads, Wellformed, Wire, SumLen, Items,
           Emitted, Sent;
      var totalLen := 0;
      var tmp: seq<seq<byte>> := [];
      ghost var items := Items(nalus, []);
      ghost var done: seq<Item> := [];
      ItemsWellformed(nalus, []);
      CallPastEndIff(0, items);
      NoLength();
      StartOver();
      packets, sent := [], 0;
      assert nalus[0..] == nalus && [] + items == items;
      var it := 0;
      while it < |nalus|
        invariant it <= |nalus| && totalLen == SumLen(tmp)
        invariant Valid() && Sender() == old(Sender())
        invariant Emitted(done, packets, old(sequence))
        invariant items == done + Items(nalus[it..], tmp)
      {
        var u := nalus[it];
        ghost var rest := nalus[it + 1..];
        assert u != [];
        assert nalus[it..] == [u] + rest;
        ItemsStep(u, rest, tmp);
        if |u| > RTP_PAYLOAD_SIZE {
          ghost var tail := [Fragmented(u)] + Items(rest, []);
          Associate(done, Flush(tmp), tail);
          ok, packets, sent := EmitPending(tmp, packets, done, old(sequence));
          done := done + Flush(tmp);
          if !ok {
            SentBound(AllPayloads(done), sent, packets, old(sequence));
            StoppedShort(items, done, tail, sent);
            SentOn(AllPayloads(done), AllPayloads(items), sent, packets, old(sequence));
            return;
          }
          tmp := [];
          totalLen := 0;
          Associate(done, [Fragmented(u)], Items(rest, []));
          ok, packets, sent := EmitFragments(u, packets, done, old(sequence));
          done := done + [Fragmented(u)];
          if !ok {
            SentBound(AllPayloads(done), sent, packets, old(sequence));
            StoppedShort(items, done, Items(rest, []), sent);
            SentOn(AllPayloads(done), AllPayloads(items), sent, packets, old(sequence));
            return;
          }
        } else if totalLen < RTP_PAYLOAD_SIZE && RTP_PAYLOAD_SIZE < totalLen + |u| {
          Associate(done, Flush(tmp), Items(rest, [u]));
          ok, packets, sent := EmitPending(tmp, packets, done, old(sequence));
          done := done + Flush(tmp);
          if !ok {
            SentBound(AllPayloads(done), sent, packets, old(sequence));
            StoppedShort(items, done, Items(rest, [u]), sent);
            SentOn(AllPayloads(done), AllPayloads(items), sent, packets, old(sequence));
            return;
          }
          totalLen := |u|;
          tmp := [u];
        } else {
          totalLen := totalLen + |u|;
          tmp := tmp + [u];
        }
        it := it + 1;
      }
      ItemsEnd(nalus[it..], tmp);
      ok, packets, sent := EmitPending(tmp, packets, done, old(sequence));
    }

    /** `m_current_pos = m_rtp_buffer`, for an empty vector. */
    method StartOver()
      requires Valid()
      modifies this`currentPos
      ensures currentPos == 0 && Emitted([], [], sequence)
    {
      hide Packets, Tiling, Wires, Next;
      EmptyRun(sequence, Sender());
      currentPos := 0;
      assert buffer[..0] == [];
    }

    lemma {:induction false} SentOn(payloads: seq<seq<byte>>, all: seq<seq<byte>>, sent: nat, packets: seq<Slice>, seq0: uint32)
      requires Sent(payloads, sent, packets, seq0)
      requires sent <= |payloads| && sent <= |all| && all[..sent] == payloads[..sent]
      ensures Sent(all, sent, packets, seq0)
    {
      hide Packets, Tiling, Wires, Next;
    }

    /** What the number of sent packets is bounded by. */
    lemma {:induction false} SentBound(payloads: seq<seq<byte>>, sent: nat, packets: seq<Slice>, seq0: uint32)
      requires Sent(payloads, sent, packets, seq0)
      ensures sent <= |payloads|
    {
      hide Packets, Tiling, Wires, Next;
    }

    method AppendUnit(data: seq<byte>, first: bool)
      requires currentPos + |data| + 3 <= buffer.Length
      modifies this`currentPos, buffer
      ensures currentPos == old(currentPos) + |UnitBytes(data, first)|
      ensures buffer[..currentPos] == old(buffer[..currentPos]) + UnitBytes(data, first)
    {
      if first {
        Append([0x18]);
      }
      Append(Be16(|data| % 0x1_0000));
      Append(data);
    }
  }

  function UnitBytes(u: seq<byte>, first: bool): (s: seq<byte>)
    ensures |s| == |u| + if first then 3 else 2
  {
    (if first then [0x18] else []) + Sized(u)
  }

  /** What is written of an aggregation payload after `n` of its units. */
  function StapPrefix(units: seq<seq<byte>>, n: nat): seq<byte>
    requires n <= |units|
  {
    if n == 0 then [] else StapA(units[..n])
  }

  lemma {:induction false} FragmentsStep(u: seq<byte>, off: nat, cur: nat) returns (rest: seq<seq<byte>>)
    requires u != [] && off <= |u| - 1
    ensures var f, next := Fragment(u, off), off + CopyLen(u, off);
            && rest == (if next == |u| - 1 then [] else Fragments(u, next))
            && (rest == [] ==> FragmentsFit(cur + PREFIX_SIZE + |f|, rest))
            && Fragments(u, off) == [f] + rest
            && off <= next <= |u| - 1 && (off < |u| - 1 ==> off < next)
            && (FragmentsFit(cur, Fragments(u, off)) <==>
                cur + PREFIX_SIZE + |f| < RTP_PACKETS_BUFFER_SIZE && FragmentsFit(cur + PREFIX_SIZE + |f|, rest))
  {
    hide Fragment;
    var next := off + CopyLen(u, off);
    rest := if next == |u| - 1 then [] else Fragments(u, next);
    assert Fragments(u, off)[1..] == rest;
  }

  lemma {:induction false} FragmentsEndStep(cur: nat, f: seq<byte>, rest: seq<seq<byte>>)
    ensures FragmentsEnd(cur, [f] + rest) ==
      if cur + PREFIX_SIZE >= RTP_PACKETS_BUFFER_SIZE then cur
      else if cur + PREFIX_SIZE + 2 >= RTP_PACKETS_BUFFER_SIZE then cur + PREFIX_SIZE
      else if cur + PREFIX_SIZE + |f| >= RTP_PACKETS_BUFFER_SIZE then cur + PREFIX_SIZE + 2
      else FragmentsEnd(cur + PREFIX_SIZE + |f|, rest)
    ensures rest == [] ==> FragmentsEnd(cur + PREFIX_SIZE + |f|, rest) == cur + PREFIX_SIZE + |f|
  {
    assert ([f] + rest)[1..] == rest;
  }

  lemma {:induction false} NoLength()
    ensures SumLen([]) == 0
  {
  }

  lemma {:induction false} EmptyRun(sequence: uint32, o: Origin)
    ensures AllWellformed([]) && AllFit(0, []) && AllPayloads([]) == []
    ensures Packets(sequence, o, []) == [] && Tiling(0, []) == [] && Wires([]) == []
    ensures Next(sequence, 0) == sequence && SumLen([]) == 0
  {
  }

  /** One turn of the grouping loop. */
  lemma {:induction false} ItemsStep(u: seq<byte>, rest: seq<seq<byte>>, pending: seq<seq<byte>>)
    ensures Items([u] + rest, pending) ==
      if |u| > RTP_PAYLOAD_SIZE then Flush(pending) + ([Fragmented(u)] + Items(rest, []))
      else if SumLen(pending) < RTP_PAYLOAD_SIZE && RTP_PAYLOAD_SIZE < SumLen(pending) + |u| then
        Flush(pending) + Items(rest, [u])
      else Items(rest, pending + [u])
    ensures SumLen(pending + [u]) == SumLen(pending) + |u| && SumLen([u]) == |u| && SumLen([]) == 0
  {
    hide SumLen;
    assert ([u] + rest)[1..] == rest;
    SumLenSnoc(pending, u);
    SumLenSnoc([], u);
    assert [] + [u] == [u];
    NoLength();
    Associate(Flush(pending), [Fragmented(u)], Items(rest, []));
  }

  lemma {:induction false} ItemsEnd(units: seq<seq<byte>>, pending: seq<seq<byte>>)
    requires units == []
    ensures Items(units, pending) == Flush(pending)
  {
  }

  /** A run that stopped within its first items stopped with the same packets sent. */
  lemma {:induction false} StoppedShort(items: seq<Item>, done: seq<Item>, tail: seq<Item>, sent: nat)
    requires AllWellformed(items) && AllWellformed(done) && items == done + tail && !AllFit(0, done)
    requires sent <= |AllPayloads(done)|
    ensures !AllFit(0, items)
    ensures sent <= |AllPayloads(items)| && AllPayloads(items)[..sent] == AllPayloads(done)[..sent]
    ensures AllEnd(0, items) == AllEnd(0, done)
  {
    hide Wellformed, AllPayloads, AllFit, AllEnd;
    AllEndStopped(0, done, tail);
    forall k | 0 <= k < |tail|
      ensures Wellformed(tail[k])
    {
      assert items[|done| + k] == tail[k];
    }
    AllFitConcat(0, done, tail);
    AllPayloadsConcat(done, tail);
  }

  /** What is sent after `k` more payloads, those of one more item. */
  lemma {:induction false} EmitStep(items: seq<Item>, item: Item, seq0: uint32, o: Origin, k: nat)
    requires AllWellformed(items) && AllFit(0, items) && Wellformed(item) && k <= |Payloads(item)|
    ensures AllWellformed(items + [item])
    ensures AllFit(0, items + [item]) <==> ItemFits(PacketBytes(AllPayloads(items)), item)
    ensures AllPayloads(items + [item]) == AllPayloads(items) + Payloads(item)
    ensures |Wires(Packets(seq0, o, AllPayloads(items)))| == PacketBytes(AllPayloads(items))
    ensures var d := AllPayloads(items);
            && Next(Next(seq0, |d|), k) == Next(seq0, |d| + k)
            && Packets(seq0, o, (d + Payloads(item))[..|d| + k])
               == Packets(seq0, o, d) + Packets(Next(seq0, |d|), o, Payloads(item)[..k])
    ensures k == |Payloads(item)| ==>
              (AllPayloads(items) + Payloads(item))[..|AllPayloads(items)| + k] == AllPayloads(items + [item])
  {
    hide Wires, Next, Packets, Packet, ItemFits, Payloads;
    var d, p := AllPayloads(items), Payloads(item);
    AllWellformedConcat(items, [item]);
    AllPayloadsSnoc(items, item);
    AllFitConcat(0, items, [item]);
    assert [item][1..] == [];
    PacketsLength(seq0, o, d);
    NextNext(seq0, |d|, k);
    assert (d + p)[..|d| + k] == d + p[..k];
    PacketsConcat(seq0, o, d, p[..k]);
  }

  lemma {:induction false} GroupPayload(units: seq<seq<byte>>, sequence: uint32, o: Origin)
    requires units != []
    ensures var p := Payloads(Group(units));
            && |p| == 1 && p[..0] == []
            && Packets(sequence, o, p[..1]) == [Packet(sequence, o, p[0])]
            && Packets(sequence, o, []) == []
  {
    var p := Payloads(Group(units));
    assert p[..1] == [p[0]];
    assert [p[0]][1..] == [];
  }

  lemma {:induction false} TailSplit<T>(all: seq<T>, k: nat, x: T, rest: seq<T>)
    requires k <= |all| && all[k..] == [x] + rest
    ensures k < |all| && all[k] == x && all[k + 1..] == rest
  {
    var t := all[k..];
    assert t[0] == x && t[1..] == rest;
  }

  lemma {:induction false} NoPackets(sequence: uint32, o: Origin)
    ensures Packets(sequence, o, []) == []
  {
  }

  lemma {:induction false} PushedOne(done: seq<Rtp>, sequence: uint32, o: Origin, all: seq<seq<byte>>, k: nat)
    requires k < |all|
    ensures done + Packets(sequence, o, all[..k]) + [Packet(Next(sequence, k), o, all[k])]
            == done + Packets(sequence, o, all[..k + 1])
    ensures Next(Next(sequence, k), 1) == Next(sequence, k + 1)
  {
    hide Next, Packet;
    assert all[..k + 1] == all[..k] + [all[k]];
    PacketsConcat(sequence, o, all[..k], [all[k]]);
    assert [all[k]][1..] == [];
    NextNext(sequence, k, 1);
  }

  lemma {:induction false} StapNeedsRoom(pos: nat, units: seq<seq<byte>>)
    requires units != []
    ensures StapFits(pos, units, true) ==> pos < RTP_PACKETS_BUFFER_SIZE
  {
  }

  lemma {:induction false} StapPrefixEnds(units: seq<seq<byte>>)
    requires units != []
    ensures StapPrefix(units, 0) == []
    ensures StapPrefix(units, |units|) == StapA(units)
  {
    assert units[..|units|] == units;
  }

  lemma {:induction false} StapStep(units: seq<seq<byte>>, n: nat)
    requires n < |units|
    ensures StapPrefix(units, n) + UnitBytes(units[n], n == 0) == StapPrefix(units, n + 1)
  {
    hide SizedAll, Sized;
    SizedSnoc(units[..n], units[n]);
    assert units[..n + 1] == units[..n] + [units[n]];
    if n == 0 {
      NothingSized();
      assert units[..0] == [];
      assert [] + Sized(units[0]) == Sized(units[0]);
    } else {
      Associate([0x18], SizedAll(units[..n]), Sized(units[n]));
    }
  }

  lemma {:induction false} NothingSized()
    ensures SizedAll([]) == []
  {
  }

  lemma {:induction false} SizedSnoc(units: seq<seq<byte>>, u: seq<byte>)
    ensures SizedAll(units + [u]) == SizedAll(units) + Sized(u)
  {
    if units == [] {
      assert [u][1..] == [];
    } else {
      assert (units + [u])[1..] == units[1..] + [u];
      SizedSnoc(units[1..], u);
    }
  }
}
