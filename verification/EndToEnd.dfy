/**
 * A frame sent is a frame received: splitting, packetising, patching, parsing,
 * rebuilding and accumulating compose to the identity on lists of NAL units.
 */
module EndToEnd {
  import opened Bytes
  import opened RtpPacket
  import opened PacketBuilder
  import opened VideoSession
  import opened RoomUser
  import Assembler = FrameAssembler
  import AnnexB

  /** A unit of type 1 to 23 that Annex B can carry and that has a byte after its header. */
  predicate Sendable(u: seq<byte>) {
    AnnexB.Clean(u) && |u| >= 2 && 1 <= Low5(u[0]) <= 23
  }

  predicate AllSendable(units: seq<seq<byte>>) {
    forall k :: 0 <= k < |units| ==> Sendable(units[k])
  }

  // ------------------------------------------------------------------
  // Receiving packets one after another

  function FeedOne(r: Receiver, p: Rtp, past: byte): Receiver {
    ReceivePayload(r, p.payload, p.fields.marker, p.fields.ssrc, p.fields.timestamp, past)
  }

  function Feed(r: Receiver, packets: seq<Rtp>, past: seq<byte>): Receiver
    requires |past| == |packets|
    decreases packets
  {
    if packets == [] then r else Feed(FeedOne(r, packets[0], past[0]), packets[1..], past[1..])
  }

  /** Every push on the way finds the room that the assembler demands. */
  predicate HasRoom(r: Receiver, packets: seq<Rtp>, past: seq<byte>)
    requires |past| == |packets|
    decreases packets
  {
    packets == [] ||
    (Assembler.Room(r.held, packets[0].payload) &&
     HasRoom(FeedOne(r, packets[0], past[0]), packets[1..], past[1..]))
  }

  lemma {:induction false} FeedConcat(r: Receiver, a: seq<Rtp>, b: seq<Rtp>, pa: seq<byte>, pb: seq<byte>)
    requires |pa| == |a| && |pb| == |b|
    ensures Feed(r, a + b, pa + pb) == Feed(Feed(r, a, pa), b, pb)
    ensures HasRoom(r, a + b, pa + pb) <==> HasRoom(r, a, pa) && HasRoom(Feed(r, a, pa), b, pb)
    decreases a
  {
    hide FeedOne;
    if a == [] {
      assert a + b == b && pa + pb == pb;
    } else {
      assert (a + b)[1..] == a[1..] + b && (pa + pb)[1..] == pa[1..] + pb;
      FeedConcat(FeedOne(r, a[0], pa[0]), a[1..], b, pa[1..], pb);
    }
  }

  lemma {:induction false} FeedSingle(r: Receiver, p: Rtp, past: byte)
    ensures Feed(r, [p], [past]) == FeedOne(r, p, past)
    ensures HasRoom(r, [p], [past]) <==> Assembler.Room(r.held, p.payload)
  {
    assert [p][1..] == [] && [past][1..] == [];
  }

  function PayloadsOf(packets: seq<Rtp>): (r: seq<seq<byte>>)
    ensures |r| == |packets|
  {
    if packets == [] then [] else [packets[0].payload] + PayloadsOf(packets[1..])
  }

  lemma {:induction false} PayloadsOfSplit(packets: seq<Rtp>, a: seq<seq<byte>>, b: seq<seq<byte>>)
    requires PayloadsOf(packets) == a + b
    ensures |a| <= |packets|
    ensures PayloadsOf(packets[..|a|]) == a && PayloadsOf(packets[|a|..]) == b
  {
    if a == [] {
      assert a + b == b && packets[0..] == packets;
    } else {
      assert (a + b)[1..] == a[1..] + b;
      PayloadsOfSplit(packets[1..], a[1..], b);
      assert packets[..|a|][1..] == packets[1..][..|a| - 1];
      assert packets[|a|..] == packets[1..][|a| - 1..];
    }
  }

  /** No packet but the last carries the marker. */
  predicate MarkerAtMostLast(packets: seq<Rtp>) {
    forall k :: 0 <= k < |packets| - 1 ==> !packets[k].fields.marker
  }

  /** Only a marked packet can trigger the callback, and at most once. */
  lemma {:induction false} OnlyMarkerDelivers(r: Receiver, p: Rtp, past: byte)
    ensures !p.fields.marker ==> FeedOne(r, p, past).delivered == r.delivered
    ensures r.delivered <= FeedOne(r, p, past).delivered
    ensures |FeedOne(r, p, past).delivered| <= |r.delivered| + 1
  {
  }

  // ------------------------------------------------------------------
  // What the assembler makes of one item

  /** The start-code length chosen for a unit in a single or an aggregation packet. */
  function UnitLong(u: seq<byte>): bool {
    !Assembler.ShortCode(Assembler.ByteAt(u, 0, 0), Assembler.ByteAt(u, 1, 0))
  }

  function UnitLongs(units: seq<seq<byte>>): (r: seq<bool>)
    ensures |r| == |units|
  {
    if units == [] then [] else [UnitLong(units[0])] + UnitLongs(units[1..])
  }

  /** For a fragmented unit the two bytes after the NAL header decide. */
  function Longs(item: Item): (r: seq<bool>)
    requires Wellformed(item)
    ensures |r| == |UnitsOf(item)|
  {
    match item
    case Group(units) => UnitLongs(units)
    case Fragmented(u) => [UnitLong(u[1..])]
  }

  function Rebuilt(item: Item): seq<byte>
    requires Wellformed(item)
  {
    AnnexB.Join(UnitsOf(item), Longs(item))
  }

  lemma {:induction false} JoinOne(u: seq<byte>, long: bool)
    ensures AnnexB.Join([u], [long]) == AnnexB.Code(long) + u
  {
    assert [u][1..] == [] && [long][1..] == [];
  }

  lemma {:induction false} CodeForUnit(u: seq<byte>, rest: seq<byte>, past: byte)
    requires |u| >= 2
    ensures Assembler.CodeFor(u + rest, past) == AnnexB.Code(UnitLong(u))
  {
  }

  lemma {:induction false} PushSingle(held: seq<byte>, u: seq<byte>, past: byte)
    requires Sendable(u) && |u| + 4 <= Assembler.ASSEMBLER_BUFFER_SIZE
    ensures Assembler.Push(held, u, past) == Assembler.Pushed(true, AnnexB.Join([u], UnitLongs([u])))
  {
    CodeForUnit(u, [], past);
    assert u + [] == u;
    assert UnitLongs([u]) == [UnitLong(u)] by {
      assert [u][1..] == [];
    }
    JoinOne(u, UnitLong(u));
  }

  lemma {:induction false} SizedHead(u: seq<byte>, rest: seq<byte>)
    requires |u| < 0x1_0000
    ensures var d := Sized(u) + rest;
            && |d| == 2 + |u| + |rest| && At16(d, 0) == |u|
            && d[2..] == u + rest && (u + rest)[..|u|] == u && (u + rest)[|u|..] == rest
  {
  }

  /** Reading back an aggregation payload gives every unit after its own start code. */
  lemma {:induction false} UnpackAll(held: seq<byte>, units: seq<seq<byte>>, past: byte)
    requires forall k :: 0 <= k < |units| ==> 2 <= |units[k]| < 0x1_0000
    requires |held| + |AnnexB.Join(units, UnitLongs(units))| <= Assembler.ASSEMBLER_BUFFER_SIZE
    ensures Assembler.Unpack(held, SizedAll(units), past)
            == Assembler.Pushed(true, held + AnnexB.Join(units, UnitLongs(units)))
    decreases units
  {
    hide UnitLong, Sized, At16;
    if units == [] {
      assert held + [] == held;
    } else {
      var u, tail := units[0], units[1..];
      var rest := SizedAll(tail);
      SizedHead(u, rest);
      CodeForUnit(u, rest, past);
      var one := AnnexB.Code(UnitLong(u)) + u;
      assert AnnexB.Join(units, UnitLongs(units)) == one + AnnexB.Join(tail, UnitLongs(tail));
      UnpackAll(held + one, tail, past);
      Associate(held, one, AnnexB.Join(tail, UnitLongs(tail)));
    }
  }

  lemma {:induction false} PushStapA(held: seq<byte>, units: seq<seq<byte>>, past: byte)
    requires forall k :: 0 <= k < |units| ==> 2 <= |units[k]| < 0x1_0000
    requires |AnnexB.Join(units, UnitLongs(units))| <= Assembler.ASSEMBLER_BUFFER_SIZE
    ensures Assembler.Push(held, StapA(units), past)
            == Assembler.Pushed(true, AnnexB.Join(units, UnitLongs(units)))
  {
    hide UnitLongs, SizedAll, Assembler.Unpack;
    assert StapA(units)[1..] == SizedAll(units);
    UnpackAll([], units, past);
    assert [] + AnnexB.Join(units, UnitLongs(units)) == AnnexB.Join(units, UnitLongs(units));
  }

  lemma {:induction false} FragmentFields(u: seq<byte>, off: nat)
    requires |u| > RTP_PAYLOAD_SIZE && off < |u| - 1
    ensures var f, n := Fragment(u, off), CopyLen(u, off);
            && 3 <= |f| <= RTP_PAYLOAD_SIZE && Low5(f[0]) == 28
            && High3(f[0]) + Low5(f[1]) == u[0]
            && (f[1] / 128 != 0 <==> off == 0)
            && (off > 0 ==> (f[1] / 64 % 2 != 0 <==> off + n == |u| - 1))
            && f[2..] == u[1 + off..1 + off + n]
            && (off == 0 ==> n == FRAGMENT_SIZE)
  {
  }

  /** Pushing one fragment extends what is held by its part of the unit. */
  lemma {:induction false} PushFragment(held: seq<byte>, u: seq<byte>, off: nat, past: byte)
    requires |u| > RTP_PAYLOAD_SIZE && off < |u| - 1
    requires off > 0 ==> held == AnnexB.Code(UnitLong(u[1..])) + u[..1 + off]
    ensures var n := CopyLen(u, off);
            Assembler.Push(held, Fragment(u, off), past)
            == Assembler.Pushed(off + n == |u| - 1, AnnexB.Code(UnitLong(u[1..])) + u[..1 + off + n])
  {
    hide Fragment, UnitLong, AnnexB.Code;
    FragmentFields(u, off);
    var f, n := Fragment(u, off), CopyLen(u, off);
    var body := f[2..];
    if off == 0 {
      assert body == u[1..][..n];
      FirstTwoDecide(u[1..], n, past);
      assert u[..1 + n] == [u[0]] + body;
      assert AnnexB.Code(UnitLong(u[1..])) + [u[0]] + body == AnnexB.Code(UnitLong(u[1..])) + u[..1 + n];
    } else {
      assert u[..1 + off + n] == u[..1 + off] + body;
      Associate(AnnexB.Code(UnitLong(u[1..])), u[..1 + off], body);
    }
  }

  lemma {:induction false} FirstTwoDecide(s: seq<byte>, n: nat, past: byte)
    requires 2 <= n <= |s|
    ensures Assembler.CodeFor(s[..n], past) == AnnexB.Code(UnitLong(s))
  {
  }

  // ------------------------------------------------------------------
  // Feeding the packets of one item

  predicate ItemSendable(item: Item) {
    match item
    case Group(units) =>
      units != [] && (forall k :: 0 <= k < |units| ==> Sendable(units[k]) && |units[k]| < 0x1_0000)
    case Fragmented(u) => Sendable(u) && |u| > RTP_PAYLOAD_SIZE
  }

  /** Every datagram fits the receive buffer. */
  predicate AllReceivable(packets: seq<Rtp>) {
    forall k :: 0 <= k < |packets| ==> PREFIX_SIZE + |packets[k].payload| <= Assembler.RTP_RECV_BUFFER_SIZE
  }

  function After(r: Receiver, held: seq<byte>, last: Rtp): Receiver {
    Accumulate(r.(held := held), last.fields.marker, last.fields.ssrc, last.fields.timestamp)
  }

  lemma {:induction false} FeedFragments(r: Receiver, u: seq<byte>, off: nat, packets: seq<Rtp>, past: seq<byte>)
    requires |past| == |packets| && packets != []
    requires |u| > RTP_PAYLOAD_SIZE && off < |u| - 1 && |AnnexB.Code(UnitLong(u[1..]))| + |u| <= Assembler.ASSEMBLER_BUFFER_SIZE
    requires PayloadsOf(packets) == Fragments(u, off)
    requires off > 0 ==> r.held == AnnexB.Code(UnitLong(u[1..])) + u[..1 + off]
    ensures HasRoom(r, packets, past)
    ensures Feed(r, packets, past)
            == After(r, AnnexB.Code(UnitLong(u[1..])) + u, packets[|packets| - 1])
    decreases |u| - off
  {
    hide Fragment, UnitLong, AnnexB.Code, Feed, HasRoom, FeedOne, CopyLen, Accumulate;
    var p, f, n := packets[0], Fragment(u, off), CopyLen(u, off);
    var rest := FragmentsStep(u, off, 0);
    PayloadsOfSplit(packets, [f], rest);
    assert PayloadsOf(packets)[0] == f;
    FragmentFed(r, u, off, p, past[0]);
    FeedStep(r, packets, past);
    if off + n == |u| - 1 {
      assert packets[1..] == [] && past[1..] == [];
      FeedNothing(FeedOne(r, p, past[0]), packets[1..], past[1..]);
    } else {
      assert packets[1..] != [];
      FeedFragments(FeedOne(r, p, past[0]), u, off + n, packets[1..], past[1..]);
    }
  }

  lemma {:induction false} FeedStep(r: Receiver, packets: seq<Rtp>, past: seq<byte>)
    requires |past| == |packets| && packets != []
    ensures Feed(r, packets, past) == Feed(FeedOne(r, packets[0], past[0]), packets[1..], past[1..])
    ensures HasRoom(r, packets, past) <==>
            Assembler.Room(r.held, packets[0].payload)
            && HasRoom(FeedOne(r, packets[0], past[0]), packets[1..], past[1..])
  {
    hide FeedOne, Assembler.Room;
  }

  /** The receiver after one fragment. */
  lemma {:induction false} FragmentFed(r: Receiver, u: seq<byte>, off: nat, p: Rtp, past: byte)
    requires |u| > RTP_PAYLOAD_SIZE && off < |u| - 1 && |AnnexB.Code(UnitLong(u[1..]))| + |u| <= Assembler.ASSEMBLER_BUFFER_SIZE
    requires p.payload == Fragment(u, off)
    requires off > 0 ==> r.held == AnnexB.Code(UnitLong(u[1..])) + u[..1 + off]
    ensures Assembler.Room(r.held, p.payload)
    ensures var n, code := CopyLen(u, off), AnnexB.Code(UnitLong(u[1..]));
            FeedOne(r, p, past) == if off + n == |u| - 1 then After(r, code + u, p) else r.(held := code + u[..1 + off + n])
  {
    hide Fragment, UnitLong, AnnexB.Code, Assembler.Push, Accumulate;
    PushFragment(r.held, u, off, past);
    FragmentFields(u, off);
    assert u[..|u|] == u;
  }

  /** The packets of one item leave its units, rebuilt, with the accumulator. */
  lemma {:induction false} FeedItem(r: Receiver, item: Item, packets: seq<Rtp>, past: seq<byte>)
    requires |past| == |packets| && packets != []
    requires Wellformed(item) && ItemSendable(item) && AllReceivable(packets)
    requires |Rebuilt(item)| <= Assembler.ASSEMBLER_BUFFER_SIZE
    requires PayloadsOf(packets) == Payloads(item)
    ensures HasRoom(r, packets, past)
    ensures Feed(r, packets, past) == After(r, Rebuilt(item), packets[|packets| - 1])
  {
    hide UnitLong, AnnexB.Code, Assembler.Push, Accumulate, StapA, UnitLongs, AnnexB.Join, Sendable;
    match item
    case Fragmented(u) =>
      JoinOne(u, UnitLong(u[1..]));
      FeedFragments(r, u, 0, packets, past);
    case Group(units) =>
      var p := packets[0];
      assert packets == [p] && past == [past[0]];
      assert p.payload == Payloads(item)[0];
      FeedSingle(r, p, past[0]);
      if |units| == 1 {
        assert units == [units[0]];
        assert PREFIX_SIZE + |p.payload| <= Assembler.RTP_RECV_BUFFER_SIZE;
        PushSingle(r.held, units[0], past[0]);
        SingleRoom(r.held, units[0]);
      } else {
        SendableSizes(units);
        PushStapA(r.held, units, past[0]);
        StapRoom(r.held, units);
      }
  }

  lemma {:induction false} SingleRoom(held: seq<byte>, u: seq<byte>)
    requires Sendable(u) && |u| <= Assembler.RTP_RECV_BUFFER_SIZE
    ensures Assembler.Room(held, u)
  {
  }

  lemma {:induction false} StapRoom(held: seq<byte>, units: seq<seq<byte>>)
    requires |StapA(units)| <= Assembler.RTP_RECV_BUFFER_SIZE
    ensures Assembler.Room(held, StapA(units))
  {
  }

  lemma {:induction false} SendableSizes(units: seq<seq<byte>>)
    requires ItemSendable(Group(units))
    ensures forall k :: 0 <= k < |units| ==> 2 <= |units[k]| < 0x1_0000
  {
  }

  // ------------------------------------------------------------------
  // Feeding the packets of a frame

  predicate AllItemsSendable(items: seq<Item>) {
    forall k :: 0 <= k < |items| ==>
      Wellformed(items[k]) && ItemSendable(items[k]) && |Rebuilt(items[k])| <= Assembler.ASSEMBLER_BUFFER_SIZE
  }

  function AllLongs(items: seq<Item>): (r: seq<bool>)
    requires AllWellformed(items)
    ensures |r| == |AllUnitsOf(items)|
  {
    if items == [] then []
    else
      assert Wellformed(items[0]);
      Longs(items[0]) + AllLongs(items[1..])
  }

  function AllRebuilt(items: seq<Item>): seq<byte>
    requires AllWellformed(items)
  {
    AnnexB.Join(AllUnitsOf(items), AllLongs(items))
  }

  lemma {:induction false} AllRebuiltStep(items: seq<Item>)
    requires AllWellformed(items) && items != []
    ensures Wellformed(items[0]) && AllWellformed(items[1..])
    ensures AllRebuilt(items) == Rebuilt(items[0]) + AllRebuilt(items[1..])
  {
    hide AnnexB.Join, Longs, UnitsOf;
    assert Wellformed(items[0]);
    AnnexB.JoinConcat(UnitsOf(items[0]), Longs(items[0]), AllUnitsOf(items[1..]), AllLongs(items[1..]));
  }

  lemma {:induction false} PayloadsStep(items: seq<Item>)
    requires AllWellformed(items) && items != []
    ensures Wellformed(items[0]) && AllWellformed(items[1..])
    ensures AllPayloads(items) == Payloads(items[0]) + AllPayloads(items[1..])
    ensures Payloads(items[0]) != []
    ensures items[1..] != [] ==> AllPayloads(items[1..]) != []
  {
    hide StapA, Fragment;
    assert Wellformed(items[0]);
    if items[1..] != [] {
      assert Wellformed(items[1]);
      assert Payloads(items[1]) != [];
      assert AllPayloads(items[1..]) == Payloads(items[1]) + AllPayloads(items[1..][1..]);
    }
  }

  /** Nothing is dropped and nothing delivered early: the frame grows until the marker hands it over. */
  lemma {:induction false} FeedItems(r: Receiver, items: seq<Item>, packets: seq<Rtp>, past: seq<byte>)
    requires |past| == |packets| && items != [] && packets != []
    requires AllWellformed(items) && AllItemsSendable(items) && AllReceivable(packets)
    requires PayloadsOf(packets) == AllPayloads(items)
    requires MarkerAtMostLast(packets) && packets[|packets| - 1].fields.marker
    requires |r.frame| + |AllRebuilt(items)| < RTP_H264_RECV_BUFFER_SIZE
    ensures HasRoom(r, packets, past)
    ensures var last, end := packets[|packets| - 1].fields, Feed(r, packets, past);
            && end.frame == []
            && end.delivered == r.delivered + [Delivery(r.frame + AllRebuilt(items), last.ssrc, last.timestamp)]
    decreases items
  {
    hide Payloads, Rebuilt, AllRebuilt, AllPayloads, ItemSendable, Wellformed, FeedOne, Assembler.Room, Feed, HasRoom,
         AllReceivable, MarkerAtMostLast, AllItemsSendable, AllWellformed;
    var item, rest := items[0], items[1..];
    SendableStep(items);
    PayloadsStep(items);
    AllRebuiltStep(items);
    var k := |Payloads(item)|;
    PayloadsOfSplit(packets, Payloads(item), AllPayloads(rest));
    var a, b, pa, pb := packets[..k], packets[k..], past[..k], past[k..];
    assert packets == a + b && past == pa + pb;
    FeedConcat(r, a, b, pa, pb);
    PacketsSplit(packets, k);
    FeedItem(r, item, a, pa);
    var mid := Feed(r, a, pa);
    if rest == [] {
      assert AllPayloads(rest) == [] && AllRebuilt(rest) == [] by {
        NothingLeft(rest);
      }
      assert b == [] && pb == [] && a == packets;
      FeedNothing(mid, b, pb);
      assert Rebuilt(item) + [] == Rebuilt(item);
    } else {
      assert b != [] && b[|b| - 1] == packets[|packets| - 1];
      FeedItems(mid, rest, b, pb);
      Associate(r.frame, Rebuilt(item), AllRebuilt(rest));
    }
  }

  lemma {:induction false} SendableStep(items: seq<Item>)
    requires AllWellformed(items) && AllItemsSendable(items) && items != []
    ensures Wellformed(items[0]) && ItemSendable(items[0]) && |Rebuilt(items[0])| <= Assembler.ASSEMBLER_BUFFER_SIZE
    ensures AllWellformed(items[1..]) && AllItemsSendable(items[1..])
  {
    hide ItemSendable, Wellformed, Rebuilt;
    assert Wellformed(items[0]) && ItemSendable(items[0]);
    forall k | 0 <= k < |items[1..]|
      ensures Wellformed(items[1..][k]) && ItemSendable(items[1..][k])
    {
      assert Wellformed(items[k + 1]) && ItemSendable(items[k + 1]);
    }
  }

  lemma {:induction false} PacketsSplit(packets: seq<Rtp>, k: nat)
    requires k <= |packets| && AllReceivable(packets) && MarkerAtMostLast(packets)
    ensures AllReceivable(packets[..k]) && AllReceivable(packets[k..]) && MarkerAtMostLast(packets[k..])
    ensures 0 < k < |packets| ==> !packets[..k][k - 1].fields.marker
  {
  }

  lemma {:induction false} NothingLeft(items: seq<Item>)
    requires items == []
    ensures AllPayloads(items) == [] && AllRebuilt(items) == []
  {
  }

  lemma {:induction false} FeedNothing(r: Receiver, packets: seq<Rtp>, past: seq<byte>)
    requires packets == [] && past == []
    ensures Feed(r, packets, past) == r && HasRoom(r, packets, past)
  {
  }

  // ------------------------------------------------------------------
  // Sizes

  lemma {:induction false} JoinLength(units: seq<seq<byte>>, long: seq<bool>)
    requires |units| == |long|
    ensures |AnnexB.Join(units, long)| <= 4 * |units| + SumLen(units)
  {
    if units != [] {
      JoinLength(units[1..], long[1..]);
    }
  }

  lemma {:induction false} FragmentsLength(u: seq<byte>, off: nat)
    requires u != [] && off <= |u| - 1
    ensures SumLen(Fragments(u, off)) == 2 * |Fragments(u, off)| + |u| - 1 - off
    ensures |Fragments(u, off)| >= 1
    decreases |u| - off
  {
    var rest := FragmentsStep(u, off, 0);
    var n := off + CopyLen(u, off);
    assert Fragments(u, off)[1..] == rest;
    if n < |u| - 1 {
      FragmentsLength(u, n);
    } else {
      assert rest == [];
    }
  }

  lemma {:induction false} RebuiltLength(item: Item)
    requires Wellformed(item)
    ensures |Rebuilt(item)| <= 2 * ItemSize(item)
    ensures item.Fragmented? ==> |Rebuilt(item)| + 24 <= ItemSize(item)
    ensures item.Group? && |item.units| > 1 ==> |Rebuilt(item)| <= 2 * |StapA(item.units)|
    ensures item.Group? && |item.units| == 1 ==> |Rebuilt(item)| <= 4 + |item.units[0]|
  {
    JoinLength(UnitsOf(item), Longs(item));
    match item
    case Fragmented(u) =>
      SumLenSnoc([], u);
      assert [] + [u] == [u];
      FragmentsLength(u, 0);
    case Group(units) =>
      if |units| == 1 {
        SumLenSnoc([], units[0]);
        assert [] + [units[0]] == units;
      } else {
        SizedAllLength(units);
        SumLenSnoc([], StapA(units));
        assert [] + [StapA(units)] == [StapA(units)];
      }
  }

  lemma {:induction false} AllRebuiltLength(items: seq<Item>)
    requires AllWellformed(items)
    ensures |AllRebuilt(items)| <= 2 * PacketBytes(AllPayloads(items))
    ensures forall k :: 0 <= k < |items| ==> Wellformed(items[k]) && ItemSize(items[k]) <= PacketBytes(AllPayloads(items))
    decreases items
  {
    hide Payloads, Rebuilt, AllRebuilt, AllPayloads, Wellformed, PacketBytes, ItemSize;
    if items == [] {
      NothingLeft(items);
    } else {
      PayloadsStep(items);
      AllRebuiltStep(items);
      RebuiltLength(items[0]);
      ItemSizeIs(items[0]);
      PacketBytesConcat(Payloads(items[0]), AllPayloads(items[1..]));
      AllRebuiltLength(items[1..]);
      forall k | 0 <= k < |items|
        ensures Wellformed(items[k]) && ItemSize(items[k]) <= PacketBytes(AllPayloads(items))
      {
        if k > 0 {
          assert items[k] == items[1..][k - 1];
        }
      }
    }
  }

  predicate SmallSendable(units: seq<seq<byte>>) {
    forall k :: 0 <= k < |units| ==> Sendable(units[k]) && |units[k]| <= RTP_PAYLOAD_SIZE
  }

  lemma {:induction false} ItemsSendable(units: seq<seq<byte>>, pending: seq<seq<byte>>)
    requires AllSendable(units) && SmallSendable(pending)
    ensures forall k :: 0 <= k < |Items(units, pending)| ==> ItemSendable(Items(units, pending)[k])
    decreases units
  {
    hide SumLen, Sendable;
    if units != [] {
      var u, rest := units[0], units[1..];
      assert Sendable(u);
      assert AllSendable(rest);
      if |u| > RTP_PAYLOAD_SIZE {
        ItemsSendable(rest, []);
      } else {
        ItemsSendable(rest, [u]);
        ItemsSendable(rest, pending + [u]);
      }
    }
  }

  // ------------------------------------------------------------------
  // The datagrams of a frame

  lemma {:induction false} PatchedPayloads(packets: seq<Rtp>, num: uint16, now: uint32)
    ensures PayloadsOf(PatchAll(packets, num, now)) == PayloadsOf(packets)
  {
    if packets != [] {
      PatchedPayloads(packets[1..], num, now);
    }
  }

  lemma {:induction false} PacketPayloads(sequence: uint32, o: Origin, payloads: seq<seq<byte>>)
    ensures PayloadsOf(Packets(sequence, o, payloads)) == payloads
    decreases payloads
  {
    hide Next;
    if payloads != [] {
      PacketPayloads(Next(sequence, 1), o, payloads[1..]);
    }
  }

  /**
   * The datagrams carry the payloads in order, one marker at the end, the sender's
   * time and SSRC, and the number of packets modulo 256.
   */
  lemma {:induction false} DatagramShape(data: seq<byte>, sequence: uint32, o: Origin, now: uint32)
    ensures AllWellformed(Items(AnnexB.NalUnits(data), []))
    ensures var d := FrameDatagrams(data, sequence, o, now);
            && PayloadsOf(d) == AllPayloads(Items(AnnexB.NalUnits(data), []))
            && MarkerAtMostLast(d)
            && (d != [] ==> d[|d| - 1].fields.marker)
            && forall k :: 0 <= k < |d| ==>
                 d[k].fields.ssrc == o.ssrc && d[k].fields.timestamp == now && d[k].fields.reserved == |d| % 256
  {
    hide AnnexB.NalUnits, Items, AllPayloads, PatchAll, Packets, Next;
    ItemsWellformed(AnnexB.NalUnits(data), []);
    var payloads := AllPayloads(Items(AnnexB.NalUnits(data), []));
    var packets := FramePackets(data, sequence, o);
    var d := FrameDatagrams(data, sequence, o, now);
    var num := |packets| % 256;
    PacketPayloads(sequence, o, payloads);
    PatchedPayloads(packets, num, now);
    forall k | 0 <= k < |d|
      ensures d[k].fields.ssrc == o.ssrc && d[k].fields.timestamp == now && d[k].fields.reserved == |d| % 256
      ensures d[k].fields.marker <==> k == |d| - 1
    {
      PacketAt(sequence, o, payloads, k);
      PatchAllAt(packets, num, now, k);
    }
  }

  // ------------------------------------------------------------------
  // Datagrams as bytes

  /** One datagram through the parser; what does not parse is dropped. */
  function ReceiveDatagram(r: Receiver, b: seq<byte>, past: byte): Receiver {
    if AnnouncedHeadersPresent(b) && Parses(b) && ParsedView(b).PayloadInside() then Receive(r, ParsedView(b), past)
    else r
  }

  function ReceiveAll(r: Receiver, datagrams: seq<seq<byte>>, past: seq<byte>): Receiver
    requires |past| == |datagrams|
    decreases datagrams
  {
    if datagrams == [] then r
    else ReceiveAll(ReceiveDatagram(r, datagrams[0], past[0]), datagrams[1..], past[1..])
  }

  lemma {:induction false} DatagramIsPacket(r: Receiver, p: Rtp, past: byte)
    requires PREFIX_SIZE + |p.payload| < 0x1_0000_0000_0000_0000
    ensures ReceiveDatagram(r, Wire(p), past) == FeedOne(r, p, past)
  {
    hide Wire, ReceivePayload;
    ParseUndoesBuild(p);
  }

  lemma {:induction false} DatagramsArePackets(r: Receiver, packets: seq<Rtp>, past: seq<byte>)
    requires |past| == |packets| && AllReceivable(packets)
    ensures ReceiveAll(r, EachWire(packets), past) == Feed(r, packets, past)
    decreases packets
  {
    hide Wire, FeedOne, ReceiveDatagram;
    if packets != [] {
      assert PREFIX_SIZE + |packets[0].payload| <= Assembler.RTP_RECV_BUFFER_SIZE;
      DatagramIsPacket(r, packets[0], past[0]);
      DatagramsArePackets(FeedOne(r, packets[0], past[0]), packets[1..], past[1..]);
    }
  }

  // ------------------------------------------------------------------
  // The theorems

  /** A frame as an application has it: units joined by start codes of any lengths, and a send time. */
  datatype Frame = Frame(units: seq<seq<byte>>, long: seq<bool>, now: uint32)

  function Data(f: Frame): seq<byte>
    requires |f.units| == |f.long|
  {
    AnnexB.Join(f.units, f.long)
  }

  /**
   * The frame can be carried: sendable units, packets that the builder accepts
   * and that the receive buffer holds.
   */
  predicate Carried(f: Frame) {
    && |f.units| == |f.long| && f.units != [] && AllSendable(f.units)
    && FrameFits(Data(f))
    && (ItemsWellformed(f.units, []);
        var payloads := AllPayloads(Items(f.units, []));
        forall k :: 0 <= k < |payloads| ==> PREFIX_SIZE + |payloads[k]| <= Assembler.RTP_RECV_BUFFER_SIZE)
  }

  /** What the receiver of a frame must have been handed. */
  predicate IsDeliveryOf(got: Delivery, f: Frame, o: Origin) {
    AnnexB.NalUnits(got.data) == f.units && got.ssrc == o.ssrc && got.timestamp == f.now
  }

  lemma {:induction false} CleanUnits(units: seq<seq<byte>>)
    requires AllSendable(units)
    ensures AnnexB.AllClean(units)
  {
    forall k | 0 <= k < |units|
      ensures AnnexB.Clean(units[k])
    {
      assert Sendable(units[k]);
    }
  }

  lemma {:induction false} RebuiltUnits(units: seq<seq<byte>>)
    requires AllSendable(units) && AllWellformed(Items(units, []))
    ensures AnnexB.NalUnits(AllRebuilt(Items(units, []))) == units
  {
    hide AnnexB.NalUnits, Items;
    GroupingKeepsUnits(units, []);
    assert [] + units == units;
    CleanUnits(units);
    AnnexB.SplitUndoesJoin(units, AllLongs(Items(units, [])));
  }

  lemma {:induction false} PayloadOf(packets: seq<Rtp>, k: nat)
    requires k < |packets|
    ensures PayloadsOf(packets)[k] == packets[k].payload
  {
    if k > 0 {
      PayloadOf(packets[1..], k - 1);
    }
  }

  /** The items of a carried frame meet what feeding them asks for. */
  lemma {:induction false} CarriedItems(f: Frame)
    requires Carried(f)
    ensures AnnexB.NalUnits(Data(f)) == f.units
    ensures var items := Items(f.units, []);
            && items != [] && AllWellformed(items) && AllPayloads(items) != []
            && AllItemsSendable(items)
            && |AllRebuilt(items)| < RTP_H264_RECV_BUFFER_SIZE
  {
    hide Payloads, Rebuilt, AllRebuilt, AllPayloads, ItemSendable, Wellformed, AllFit, Items, AnnexB.NalUnits, PacketBytes;
    CleanUnits(f.units);
    AnnexB.SplitUndoesJoin(f.units, f.long);
    var items := Items(f.units, []);
    ItemsWellformed(f.units, []);
    GroupingKeepsUnits(f.units, []);
    assert [] + f.units == f.units;
    assert items != [];
    PayloadsStep(items);
    SuccessStaysInside(items);
    AllRebuiltLength(items);
    ItemsSendable(f.units, []);
    forall k | 0 <= k < |items|
      ensures Wellformed(items[k]) && ItemSendable(items[k]) && |Rebuilt(items[k])| <= Assembler.ASSEMBLER_BUFFER_SIZE
    {
      RebuiltLength(items[k]);
      if items[k].Group? {
        PayloadAmong(items, k);
        GroupReceivable(items[k]);
      }
    }
  }

  /** The payloads of an item are among those of the list. */
  lemma {:induction false} PayloadAmong(items: seq<Item>, k: nat)
    requires AllWellformed(items) && k < |items|
    ensures Wellformed(items[k]) && Payloads(items[k]) != []
    ensures exists i :: 0 <= i < |AllPayloads(items)| && AllPayloads(items)[i] == Payloads(items[k])[0]
    decreases k
  {
    hide Payloads, AllPayloads, Wellformed;
    PayloadsStep(items);
    if k == 0 {
      assert AllPayloads(items)[0] == Payloads(items[0])[0];
    } else {
      PayloadAmong(items[1..], k - 1);
      var i :| 0 <= i < |AllPayloads(items[1..])| && AllPayloads(items[1..])[i] == Payloads(items[k])[0];
      assert AllPayloads(items)[|Payloads(items[0])| + i] == Payloads(items[k])[0];
    }
  }

  lemma {:induction false} GroupReceivable(item: Item)
    requires Wellformed(item) && item.Group?
    requires PREFIX_SIZE + |Payloads(item)[0]| <= Assembler.RTP_RECV_BUFFER_SIZE
    ensures |Rebuilt(item)| <= Assembler.ASSEMBLER_BUFFER_SIZE
  {
    RebuiltLength(item);
  }

  /**
   * End to end: whatever start-code lengths the sender used, one frame sent is
   * one callback, on its marker, with a byte stream of exactly the same NAL units.
   */
  lemma {:induction false} FrameDelivered(f: Frame, sequence: uint32, o: Origin, r: Receiver, past: seq<byte>)
    requires Carried(f) && r.frame == []
    requires |past| == |FrameDatagrams(Data(f), sequence, o, f.now)|
    ensures var d := FrameDatagrams(Data(f), sequence, o, f.now);
            var end := ReceiveAll(r, EachWire(d), past);
            && AllReceivable(d) && HasRoom(r, d, past)
            && end.frame == []
            && |end.delivered| == |r.delivered| + 1 && r.delivered <= end.delivered
            && IsDeliveryOf(end.delivered[|r.delivered|], f, o)
  {
    hide AllRebuilt, AllPayloads, Items, AnnexB.NalUnits, FrameDatagrams, Feed, HasRoom, EachWire, ReceiveAll, Sendable;
    CarriedItems(f);
    var items := Items(f.units, []);
    var d := FrameDatagrams(Data(f), sequence, o, f.now);
    DatagramShape(Data(f), sequence, o, f.now);
    forall k | 0 <= k < |d|
      ensures PREFIX_SIZE + |d[k].payload| <= Assembler.RTP_RECV_BUFFER_SIZE
    {
      PayloadOf(d, k);
    }
    FeedItems(r, items, d, past);
    DatagramsArePackets(r, d, past);
    RebuiltUnits(f.units);
    assert r.frame + AllRebuilt(items) == AllRebuilt(items);
  }

  /** The datagrams of several frames, sequence numbers running on. */
  function Stream(frames: seq<Frame>, sequence: uint32, o: Origin): seq<Rtp>
    requires forall k :: 0 <= k < |frames| ==> Carried(frames[k])
    decreases frames
  {
    if frames == [] then []
    else
      assert Carried(frames[0]);
      var d := FrameDatagrams(Data(frames[0]), sequence, o, frames[0].now);
      d + Stream(frames[1..], Next(sequence, |d|), o)
  }

  lemma {:induction false} ReceiveAllConcat(r: Receiver, a: seq<seq<byte>>, b: seq<seq<byte>>, pa: seq<byte>, pb: seq<byte>)
    requires |pa| == |a| && |pb| == |b|
    ensures ReceiveAll(r, a + b, pa + pb) == ReceiveAll(ReceiveAll(r, a, pa), b, pb)
    decreases a
  {
    hide ReceiveDatagram;
    if a == [] {
      assert a + b == b && pa + pb == pb;
    } else {
      assert (a + b)[1..] == a[1..] + b && (pa + pb)[1..] == pa[1..] + pb;
      ReceiveAllConcat(ReceiveDatagram(r, a[0], pa[0]), a[1..], b, pa[1..], pb);
    }
  }

  lemma {:induction false} EachWireConcat(a: seq<Rtp>, b: seq<Rtp>)
    ensures EachWire(a + b) == EachWire(a) + EachWire(b)
  {
    hide Wire;
    if a == [] {
      assert a + b == b;
    } else {
      assert (a + b)[1..] == a[1..] + b;
      EachWireConcat(a[1..], b);
    }
  }

  /** Over a whole call: as many callbacks as frames, in order, each with its frame's units. */
  lemma {:induction false} RunDelivered(frames: seq<Frame>, sequence: uint32, o: Origin, r: Receiver, past: seq<byte>)
    requires forall k :: 0 <= k < |frames| ==> Carried(frames[k])
    requires r.frame == [] && |past| == |Stream(frames, sequence, o)|
    ensures var end := ReceiveAll(r, EachWire(Stream(frames, sequence, o)), past);
            && HasRoom(r, Stream(frames, sequence, o), past)
            && end.frame == []
            && |end.delivered| == |r.delivered| + |frames| && r.delivered <= end.delivered
            && forall k :: 0 <= k < |frames| ==> IsDeliveryOf(end.delivered[|r.delivered| + k], frames[k], o)
    decreases frames
  {
    hide IsDeliveryOf, Carried, EachWire, FrameDatagrams, ReceiveAll, HasRoom, Feed;
    if frames == [] {
      NoDatagrams(r, past);
    } else {
      assert Carried(frames[0]);
      DataDefined(frames[0]);
      var d := FrameDatagrams(Data(frames[0]), sequence, o, frames[0].now);
      var rest := Stream(frames[1..], Next(sequence, |d|), o);
      var pa, pb := past[..|d|], past[|d|..];
      assert past == pa + pb;
      EachWireConcat(d, rest);
      FrameDelivered(frames[0], sequence, o, r, pa);
      ReceiveAllConcat(r, EachWire(d), EachWire(rest), pa, pb);
      DatagramsArePackets(r, d, pa);
      FeedConcat(r, d, rest, pa, pb);
      var mid := ReceiveAll(r, EachWire(d), pa);
      RunDelivered(frames[1..], Next(sequence, |d|), o, mid, pb);
      var end := ReceiveAll(mid, EachWire(rest), pb);
      forall k | 0 <= k < |frames|
        ensures IsDeliveryOf(end.delivered[|r.delivered| + k], frames[k], o)
      {
        if k == 0 {
          assert end.delivered[|r.delivered|] == mid.delivered[|r.delivered|];
        } else {
          assert frames[k] == frames[1..][k - 1];
        }
      }
    }
  }

  lemma {:induction false} NoDatagrams(r: Receiver, past: seq<byte>)
    requires past == []
    ensures EachWire([]) == [] && ReceiveAll(r, [], past) == r && HasRoom(r, [], past)
  {
  }

  lemma {:induction false} DataDefined(f: Frame)
    requires Carried(f)
    ensures |f.units| == |f.long|
  {
  }

  lemma {:induction false} OneUnitItems(u: seq<byte>)
    requires |u| <= RTP_PAYLOAD_SIZE
    ensures Items([u], []) == [Group([u])]
  {
    assert [u][1..] == [] && [] + [u] == [u] && SumLen([]) == 0;
    assert Items([u], []) == Items([], [u]);
  }

  /** For one: any single sendable unit that needs no fragmentation is a frame that is carried. */
  lemma {:induction false} OneUnitCarried(u: seq<byte>, long: bool, now: uint32)
    requires Sendable(u) && |u| <= RTP_PAYLOAD_SIZE
    ensures Carried(Frame([u], [long], now))
  {
    hide AnnexB.NalUnits, AnnexB.Join, AnnexB.AllUnits, AnnexB.Clean;
    var f := Frame([u], [long], now);
    CleanUnits(f.units);
    AnnexB.SplitUndoesJoin(f.units, f.long);
    assert Items(f.units, []) == [Group([u])] by { OneUnitItems(u); }
    assert AllPayloads([Group([u])]) == [u] by { assert [Group([u])][1..] == []; }
    assert AllFit(0, [Group([u])]) by { assert [Group([u])][1..] == []; }
  }
}
