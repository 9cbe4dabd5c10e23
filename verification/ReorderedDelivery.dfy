/**
 * The receiving path as a whole: datagrams of several frames, rearranged on the
 * way within the reorder window, still give every frame, once and in order.
 */
module ReorderedDelivery {
  import opened Bytes
  import opened RtpPacket
  import opened PacketBuilder
  import opened VideoSession
  import opened RoomUser
  import opened ReorderWindow
  import opened EndToEnd
  import AnnexB
  import Assembler = FrameAssembler

  // ------------------------------------------------------------------
  // Sequence numbers on the wire

  /** The session clears the high half, so packet i carries its number modulo 2^16. */
  predicate Numbered(d: seq<Rtp>, sequence: uint32) {
    forall i :: 0 <= i < |d| ==>
      d[i].fields.sequenceHigh == 0 && d[i].fields.sequenceLow == Next(sequence, i) % 0x1_0000
  }

  lemma {:induction false} FrameNumbered(data: seq<byte>, sequence: uint32, o: Origin, now: uint32)
    ensures Numbered(FrameDatagrams(data, sequence, o, now), sequence)
  {
    hide AnnexB.NalUnits, Items, AllPayloads, PatchAll, Packets, Next;
    ItemsWellformed(AnnexB.NalUnits(data), []);
    var payloads := AllPayloads(Items(AnnexB.NalUnits(data), []));
    var packets := FramePackets(data, sequence, o);
    PacketsLength(sequence, o, payloads);
    var d := FrameDatagrams(data, sequence, o, now);
    forall i | 0 <= i < |d|
      ensures d[i].fields.sequenceHigh == 0 && d[i].fields.sequenceLow == Next(sequence, i) % 0x1_0000
    {
      PacketAt(sequence, o, payloads, i);
      PatchAllAt(packets, |packets| % 256, now, i);
    }
  }

  lemma {:induction false} StreamNumbered(frames: seq<Frame>, sequence: uint32, o: Origin)
    requires forall k :: 0 <= k < |frames| ==> Carried(frames[k])
    ensures Numbered(Stream(frames, sequence, o), sequence)
    decreases frames
  {
    hide Carried, FrameDatagrams, Next;
    if frames != [] {
      assert Carried(frames[0]);
      DataDefined(frames[0]);
      var d := FrameDatagrams(Data(frames[0]), sequence, o, frames[0].now);
      var rest := Stream(frames[1..], Next(sequence, |d|), o);
      FrameNumbered(Data(frames[0]), sequence, o, frames[0].now);
      StreamNumbered(frames[1..], Next(sequence, |d|), o);
      var all: seq<Rtp> := d + rest;
      forall i | 0 <= i < |all|
        ensures all[i].fields.sequenceHigh == 0
        ensures all[i].fields.sequenceLow == Next(sequence, i) % 0x1_0000
      {
        if i >= |d| {
          assert all[i] == rest[i - |d|];
          NextNext(sequence, |d|, i - |d|);
        }
      }
    }
  }

  lemma {:induction false} StreamReceivable(frames: seq<Frame>, sequence: uint32, o: Origin)
    requires forall k :: 0 <= k < |frames| ==> Carried(frames[k])
    ensures AllReceivable(Stream(frames, sequence, o))
    decreases frames
  {
    hide Carried, FrameDatagrams, ReceiveAll, HasRoom, IsDeliveryOf, EachWire;
    if frames != [] {
      assert Carried(frames[0]);
      DataDefined(frames[0]);
      var d := FrameDatagrams(Data(frames[0]), sequence, o, frames[0].now);
      FrameDelivered(frames[0], sequence, o, Receiver([], [], []), Zeros(|d|));
      StreamReceivable(frames[1..], Next(sequence, |d|), o);
    }
  }

  // ------------------------------------------------------------------
  // Packets as the receiver sees them

  /** The parsed datagrams. */
  function StreamViews(d: seq<Rtp>): (r: seq<View>)
    requires AllReceivable(d)
    ensures |r| == |d|
  {
    if d == [] then []
    else
      assert PREFIX_SIZE + |d[0].payload| <= Assembler.RTP_RECV_BUFFER_SIZE;
      ParseUndoesBuild(d[0]);
      [ParsedView(Wire(d[0]))] + StreamViews(d[1..])
  }

  lemma {:induction false} StreamViewAt(d: seq<Rtp>, i: nat)
    requires AllReceivable(d) && i < |d|
    ensures ParsesAs(Wire(d[i]), d[i])
    ensures StreamViews(d)[i] == ParsedView(Wire(d[i]))
  {
    hide Wire, ParsesAs;
    assert PREFIX_SIZE + |d[0].payload| <= Assembler.RTP_RECV_BUFFER_SIZE;
    ParseUndoesBuild(d[0]);
    if i > 0 {
      StreamViewAt(d[1..], i - 1);
    }
  }

  lemma {:induction false} ParsedNumber(b: seq<byte>, p: Rtp)
    requires ParsesAs(b, p)
    ensures AnnouncedHeadersPresent(b) && Parses(b)
    ensures ParsedView(b).sequence == WithHigh16(p.fields.sequenceLow, p.fields.sequenceHigh)
  {
  }

  lemma {:induction false} SmallNumber(sequence: uint32, i: nat)
    requires sequence + i < 0x1_0000
    ensures WithHigh16(Next(sequence, i) % 0x1_0000, 0) == sequence + i
  {
    var n := sequence + i;
    Mod32(n, 0, n);
    assert n % 0x1_0000 == n;
  }

  /** Without a wrap-around of the 16 bits the parsed numbers increase. */
  lemma {:induction false} StreamIncreasing(d: seq<Rtp>, sequence: uint32)
    requires AllReceivable(d) && Numbered(d, sequence)
    requires 1 <= sequence && sequence + |d| <= 0x1_0000
    ensures forall i :: 0 <= i < |d| ==> StreamViews(d)[i].sequence == sequence + i
    ensures Increasing(StreamViews(d))
  {
    hide Wire, ParsedView, ParsesAs, StreamViews, AllReceivable, Next, WithHigh16;
    forall i | 0 <= i < |d|
      ensures StreamViews(d)[i].sequence == sequence + i
    {
      StreamViewAt(d, i);
      ParsedNumber(Wire(d[i]), d[i]);
      SmallNumber(sequence, i);
    }
  }

  // ------------------------------------------------------------------
  // The 16-bit wrap

  lemma {:induction false} Mod16(x: nat, k: int, r: nat)
    requires x == k * 0x1_0000 + r && r < 0x1_0000
    ensures x % 0x1_0000 == r
  {
  }

  /** What is left of a packet's number on the wire. */
  lemma {:induction false} WireNumber(sequence: uint32, i: nat)
    ensures WithHigh16(Next(sequence, i) % 0x1_0000, 0) == (sequence % 0x1_0000 + i) % 0x1_0000
  {
    Wrap16(sequence + i);
    Shift16(sequence, i);
    Mod16((sequence + i) % 0x1_0000, 0, (sequence + i) % 0x1_0000);
  }

  lemma {:induction false} Wrap16(x: nat)
    ensures x % 0x1_0000_0000 % 0x1_0000 == x % 0x1_0000
  {
    var q, m := x / 0x1_0000_0000, x % 0x1_0000_0000;
    var a, b := m / 0x1_0000, m % 0x1_0000;
    assert m == a * 0x1_0000 + b;
    assert x == (q * 0x1_0000 + a) * 0x1_0000 + b;
    Mod16(x, q * 0x1_0000 + a, b);
  }

  lemma {:induction false} Shift16(s: nat, i: nat)
    ensures (s % 0x1_0000 + i) % 0x1_0000 == (s + i) % 0x1_0000
  {
    var c, e := s / 0x1_0000, s % 0x1_0000;
    var k, r := (e + i) / 0x1_0000, (e + i) % 0x1_0000;
    assert s == c * 0x1_0000 + e && e + i == k * 0x1_0000 + r;
    assert s + i == (c + k) * 0x1_0000 + r;
    Mod16(s + i, c + k, r);
  }

  lemma {:induction false} NumberAt(d: seq<Rtp>, sequence: uint32, i: nat)
    requires AllReceivable(d) && Numbered(d, sequence) && i < |d|
    ensures StreamViews(d)[i].sequence == (sequence % 0x1_0000 + i) % 0x1_0000
  {
    hide Wire, ParsedView, ParsesAs, StreamViews, AllReceivable, Next, WithHigh16;
    StreamViewAt(d, i);
    ParsedNumber(Wire(d[i]), d[i]);
    WireNumber(sequence, i);
  }

  lemma {:induction false} NumberBeforeWrap(d: seq<Rtp>, sequence: uint32, i: nat)
    requires AllReceivable(d) && Numbered(d, sequence) && i < |d| && sequence % 0x1_0000 + i < 0x1_0000
    ensures StreamViews(d)[i].sequence == sequence % 0x1_0000 + i
  {
    hide StreamViews, AllReceivable, Numbered;
    NumberAt(d, sequence, i);
    Mod16(sequence % 0x1_0000 + i, 0, sequence % 0x1_0000 + i);
  }

  /** The parsed numbers of a stream increase exactly if they stay below the wrap. */
  lemma {:induction false} StreamIncreasingIff(d: seq<Rtp>, sequence: uint32)
    requires AllReceivable(d) && Numbered(d, sequence)
    ensures Increasing(StreamViews(d)) <==> sequence % 0x1_0000 + |d| <= 0x1_0000
  {
    hide StreamViews, AllReceivable, Numbered;
    var s := sequence % 0x1_0000;
    if s + |d| <= 0x1_0000 {
      forall i | 0 <= i < |d|
        ensures StreamViews(d)[i].sequence == s + i
      {
        NumberBeforeWrap(d, sequence, i);
      }
    } else {
      var i := 0x1_0000 - s;
      NumberBeforeWrap(d, sequence, i - 1);
      NumberAt(d, sequence, i);
      assert StreamViews(d)[i].sequence == 0;
      assert StreamViews(d)[i - 1].sequence > StreamViews(d)[i].sequence;
    }
  }

  lemma {:induction false} StreamBelowTop(d: seq<Rtp>, sequence: uint32, a: seq<View>)
    requires AllReceivable(d) && Numbered(d, sequence) && multiset(a) == multiset(StreamViews(d))
    ensures forall i :: 0 <= i < |a| ==> a[i].sequence <= 0xFFFF
  {
    hide StreamViews, AllReceivable, Numbered;
    forall i | 0 <= i < |a|
      ensures a[i].sequence <= 0xFFFF
    {
      assert a[i] in multiset(a);
      assert a[i] in StreamViews(d);
      var j :| 0 <= j < |d| && StreamViews(d)[j] == a[i];
      NumberAt(d, sequence, j);
    }
  }

  /**
   * Past the wrap no order of arrival and no window restores a stream: the packet
   * numbered 65535 stays at the end of the list, with packets sent later before it.
   */
  lemma {:induction false} NotRestoredPastWrap(k: nat, arrivals: seq<Option<View>>, d: seq<Rtp>, sequence: uint32)
    requires k >= 1 && arrivals != [] && AllReceivable(d) && Numbered(d, sequence)
    requires multiset(PacketsOf(arrivals[1..])) == multiset(StreamViews(d))
    requires sequence % 0x1_0000 + |d| > 0x1_0000
    ensures var end := Run(k, [], arrivals); end.out + end.list != [BLANK] + StreamViews(d)
  {
    hide StreamViews, AllReceivable, Numbered, Run, RunPackets, PacketsOf;
    var a := PacketsOf(arrivals[1..]);
    BlankRun(k, arrivals);
    StreamBelowTop(d, sequence, a);
    TopStays(k, [BLANK], a, 0xFFFF);
    var end, s := Run(k, [], arrivals), StreamViews(d);
    var p := 0x1_0000 - sequence % 0x1_0000;
    NumberBeforeWrap(d, sequence, p - 1);
    TopOnlyLast(end.out, end.list, 0xFFFF);
    assert ([BLANK] + s)[p].sequence == 0xFFFF && p < |s|;
  }

  lemma {:induction false} BlankRun(k: nat, arrivals: seq<Option<View>>)
    requires k >= 1 && arrivals != []
    ensures Run(k, [], arrivals) == RunPackets(k, [BLANK], PacketsOf(arrivals[1..]))
    ensures Increasing([BLANK])
  {
    BlankOnce(k, arrivals);
    OneIncreasing(BLANK);
    EmptyCallsDoNothing(k, [BLANK], arrivals[1..]);
  }

  /** A first packet numbered 0 is dropped as equal to the blank one. */
  lemma {:induction false} NumberZeroDropped(k: nat, a: seq<View>)
    requires k >= 1 && a != [] && a[0].sequence == 0
    ensures var end := RunPackets(k, [BLANK], a); |end.out| + |end.list| <= |a|
  {
    assert Insert([BLANK], a[0]) == [BLANK];
    assert Pop(k, [BLANK]) == Outcome([BLANK], []);
    RunLength(k, [BLANK], a[1..]);
  }

  /**
   * A stream that arrives in order comes through the window unharmed exactly if its
   * numbers neither start at 0 nor pass the 16-bit wrap.
   */
  lemma {:induction false} InOrderRestoredIff(k: nat, arrivals: seq<Option<View>>, d: seq<Rtp>, sequence: uint32)
    requires k >= 1 && arrivals != [] && AllReceivable(d) && Numbered(d, sequence)
    requires PacketsOf(arrivals[1..]) == StreamViews(d)
    ensures var end, s := Run(k, [], arrivals), sequence % 0x1_0000;
            end.out + end.list == [BLANK] + StreamViews(d) <==> d == [] || (s > 0 && s + |d| <= 0x1_0000)
  {
    hide StreamViews, AllReceivable, Numbered, Run, RunPackets, PacketsOf, WithinWindow;
    var s, a := sequence % 0x1_0000, StreamViews(d);
    StreamIncreasingIff(d, sequence);
    if d != [] {
      NumberBeforeWrap(d, sequence, 0);
    }
    if s + |d| > 0x1_0000 {
      NotRestoredPastWrap(k, arrivals, d, sequence);
    } else if d != [] && s == 0 {
      BlankRun(k, arrivals);
      NumberZeroDropped(k, a);
    } else {
      InOrderIsWithin(k, a);
      WindowRestores(k, arrivals, a);
    }
  }

  /** Handing returned packets to the room user one after another. */
  function ReceiveViews(r: Receiver, out: seq<View>, past: seq<byte>): Receiver
    requires |past| == |out|
    decreases out
  {
    if out == [] then r
    else if out[0].PayloadInside() then ReceiveViews(Receive(r, out[0], past[0]), out[1..], past[1..])
    else ReceiveViews(r, out[1..], past[1..])
  }

  /** What the receiving method requires of every packet it is handed. */
  predicate ViewsHaveRoom(r: Receiver, out: seq<View>, past: seq<byte>)
    requires |past| == |out|
    decreases out
  {
    out == [] ||
    (out[0].PayloadInside() && Assembler.Room(r.held, out[0].Payload()) &&
     ViewsHaveRoom(Receive(r, out[0], past[0]), out[1..], past[1..]))
  }

  lemma {:induction false} ViewsArePackets(r: Receiver, d: seq<Rtp>, past: seq<byte>)
    requires AllReceivable(d) && |past| == |d|
    ensures ReceiveViews(r, StreamViews(d), past) == Feed(r, d, past)
    ensures ViewsHaveRoom(r, StreamViews(d), past) <==> HasRoom(r, d, past)
    decreases d
  {
    hide Wire, ReceivePayload, Assembler.Room;
    if d != [] {
      StreamViewAt(d, 0);
      assert StreamViews(d)[1..] == StreamViews(d[1..]);
      ViewsArePackets(FeedOne(r, d[0], past[0]), d[1..], past[1..]);
    }
  }

  /** The blank packet has no payload and leaves no trace. */
  lemma {:induction false} BlankIgnored(r: Receiver, past: byte)
    ensures BLANK.PayloadInside() && Receive(r, BLANK, past) == r && Assembler.Room(r.held, BLANK.Payload())
  {
    assert BLANK.Payload() == [];
  }

  lemma {:induction false} FeedGrows(r: Receiver, d: seq<Rtp>, past: seq<byte>)
    requires |past| == |d|
    ensures r.delivered <= Feed(r, d, past).delivered
    decreases d
  {
    hide FeedOne;
    if d != [] {
      OnlyMarkerDelivers(r, d[0], past[0]);
      FeedGrows(FeedOne(r, d[0], past[0]), d[1..], past[1..]);
    }
  }

  lemma {:induction false} StreamPrefix(frames: seq<Frame>, j: nat, sequence: uint32, o: Origin)
    requires j <= |frames| && forall k :: 0 <= k < |frames| ==> Carried(frames[k])
    ensures Stream(frames[..j], sequence, o) <= Stream(frames, sequence, o)
    decreases frames
  {
    hide Carried, FrameDatagrams, Next;
    if j > 0 {
      assert Carried(frames[0]);
      DataDefined(frames[0]);
      var d := FrameDatagrams(Data(frames[0]), sequence, o, frames[0].now);
      StreamPrefix(frames[1..], j - 1, Next(sequence, |d|), o);
      assert frames[..j][0] == frames[0] && frames[..j][1..] == frames[1..][..j - 1];
      var a, b := Stream(frames[1..][..j - 1], Next(sequence, |d|), o), Stream(frames[1..], Next(sequence, |d|), o);
      assert d + a <= d + b;
    }
  }

  /** The assembler has room for every packet of a prefix, the last frame whole or not. */
  lemma {:induction false} PrefixHasRoom(
      frames: seq<Frame>, m: nat, sequence: uint32, o: Origin, r: Receiver, past: seq<byte>)
    requires forall k :: 0 <= k < |frames| ==> Carried(frames[k])
    requires r.frame == [] && |past| == m <= |Stream(frames, sequence, o)|
    ensures HasRoom(r, Stream(frames, sequence, o)[..m], past)
  {
    hide IsDeliveryOf, Carried, Stream, EachWire, ReceiveAll, Feed, HasRoom;
    var d := Stream(frames, sequence, o);
    var more := Zeros(|d| - m);
    RunDelivered(frames, sequence, o, r, past + more);
    assert d[..m] + d[m..] == d;
    FeedConcat(r, d[..m], d[m..], past, more);
  }

  /** Feeding a prefix of the stream that covers the first frames delivers them. */
  lemma {:induction false} PrefixDelivers(
      frames: seq<Frame>, j: nat, m: nat, sequence: uint32, o: Origin, r: Receiver, past: seq<byte>)
    requires j <= |frames| && forall k :: 0 <= k < |frames| ==> Carried(frames[k])
    requires r.frame == [] && |past| == m
    requires |Stream(frames[..j], sequence, o)| <= m <= |Stream(frames, sequence, o)|
    ensures HasRoom(r, Stream(frames, sequence, o)[..m], past)
    ensures var end := Feed(r, Stream(frames, sequence, o)[..m], past);
            && |end.delivered| >= |r.delivered| + j && r.delivered <= end.delivered
            && forall k :: 0 <= k < j ==> IsDeliveryOf(end.delivered[|r.delivered| + k], frames[k], o)
  {
    hide IsDeliveryOf, Carried, Stream, EachWire, ReceiveAll, Feed, HasRoom;
    var first := frames[..j];
    var d, a := Stream(frames, sequence, o), Stream(first, sequence, o);
    StreamPrefix(frames, j, sequence, o);
    PrefixHasRoom(frames, m, sequence, o, r, past);
    var b := d[|a|..m];
    assert d[..m] == a + b;
    var pa, pb := past[..|a|], past[|a|..];
    assert past == pa + pb;
    FeedConcat(r, a, b, pa, pb);
    StreamReceivable(first, sequence, o);
    DatagramsArePackets(r, a, pa);
    RunDelivered(first, sequence, o, r, pa);
    var mid := Feed(r, a, pa);
    FeedGrows(mid, b, pb);
    var end := Feed(mid, b, pb);
    forall k | 0 <= k < j
      ensures IsDeliveryOf(end.delivered[|r.delivered| + k], frames[k], o)
    {
      assert first[k] == frames[k];
      assert end.delivered[|r.delivered| + k] == mid.delivered[|r.delivered| + k];
    }
  }

  lemma {:induction false} StreamViewsPrefix(d: seq<Rtp>, m: nat)
    requires AllReceivable(d) && m <= |d|
    ensures AllReceivable(d[..m]) && StreamViews(d[..m]) == StreamViews(d)[..m]
    decreases m
  {
    hide Wire, ParsedView;
    if m > 0 {
      assert d[..m][0] == d[0] && d[..m][1..] == d[1..][..m - 1];
      StreamViewsPrefix(d[1..], m - 1);
    }
  }

  /** What the run returns is the stream as sent, up to the packets still held. */
  lemma {:induction false} ReturnedIsPrefix(k: nat, arrivals: seq<Option<View>>, d: seq<Rtp>, sequence: uint32)
    returns (m: nat)
    requires k >= 1 && arrivals != [] && AllReceivable(d) && Numbered(d, sequence)
    requires 1 <= sequence && sequence + |d| <= 0x1_0000
    requires multiset(PacketsOf(arrivals[1..])) == multiset(StreamViews(d))
    requires WithinWindow(k, PacketsOf(arrivals[1..])) && |d| >= k
    ensures |d| - k <= m <= |d|
    ensures AllReceivable(d[..m])
    ensures Run(k, [], arrivals).out == [BLANK] + StreamViews(d[..m])
  {
    hide Wire, ParsedView, PacketsOf, WithinWindow, Run;
    StreamIncreasing(d, sequence);
    var sent := StreamViews(d);
    WindowRestores(k, arrivals, sent);
    var end := Run(k, [], arrivals);
    var s := [BLANK] + sent;
    assert |end.out| >= 1;
    m := |end.out| - 1;
    assert end.out == s[..m + 1];
    assert s[..m + 1] == [BLANK] + sent[..m];
    StreamViewsPrefix(d, m);
  }

  /**
   * The whole path. Frames are sent one after another; their datagrams arrive in
   * any order in which each is overtaken by at most k later ones (after the first
   * call, which only creates the blank packet). Then every frame whose datagrams
   * are followed by at least k others is delivered, once, in order, with exactly
   * its NAL units.
   */
  lemma {:induction false} ReorderedFramesDelivered(
      k: nat, arrivals: seq<Option<View>>, frames: seq<Frame>, j: nat, sequence: uint32, o: Origin,
      r: Receiver, past: seq<byte>)
    requires k >= 1 && arrivals != [] && r.frame == []
    requires j <= |frames| && forall i :: 0 <= i < |frames| ==> Carried(frames[i])
    requires 1 <= sequence && sequence + |Stream(frames, sequence, o)| <= 0x1_0000
    requires AllReceivable(Stream(frames, sequence, o))
    requires multiset(PacketsOf(arrivals[1..])) == multiset(StreamViews(Stream(frames, sequence, o)))
    requires WithinWindow(k, PacketsOf(arrivals[1..]))
    requires |Stream(frames[..j], sequence, o)| + k <= |Stream(frames, sequence, o)|
    requires |past| == |Run(k, [], arrivals).out|
    ensures ViewsHaveRoom(r, Run(k, [], arrivals).out, past)
    ensures var end := ReceiveViews(r, Run(k, [], arrivals).out, past);
            && |end.delivered| >= |r.delivered| + j && r.delivered <= end.delivered
            && forall i :: 0 <= i < j ==> IsDeliveryOf(end.delivered[|r.delivered| + i], frames[i], o)
  {
    hide IsDeliveryOf, Carried, Stream, Run, StreamViews, PacketsOf, WithinWindow, Receive, Feed, HasRoom, Assembler.Room;
    var d := Stream(frames, sequence, o);
    StreamNumbered(frames, sequence, o);
    var m := ReturnedIsPrefix(k, arrivals, d, sequence);
    var views := StreamViews(d[..m]);
    BlankIgnored(r, past[0]);
    assert ([BLANK] + views)[1..] == views;
    ViewsArePackets(r, d[..m], past[1..]);
    PrefixDelivers(frames, j, m, sequence, o, r, past[1..]);
  }

  // ------------------------------------------------------------------
  // The conditions can all be met

  /** `n` frames of the same single unit. */
  function Repeated(n: nat, u: seq<byte>): (frames: seq<Frame>)
    ensures |frames| == n && forall i :: 0 <= i < n ==> frames[i] == Frame([u], [false], 0)
  {
    seq(n, _ => Frame([u], [false], 0))
  }

  lemma {:induction false} OneDatagram(u: seq<byte>, sequence: uint32, o: Origin)
    requires Sendable(u) && |u| <= RTP_PAYLOAD_SIZE
    ensures |FrameDatagrams(AnnexB.Join([u], [false]), sequence, o, 0)| == 1
  {
    hide AnnexB.NalUnits, AnnexB.Join, AnnexB.AllUnits, AnnexB.Clean;
    CleanUnits([u]);
    AnnexB.SplitUndoesJoin([u], [false]);
    OneUnitItems(u);
    assert [Group([u])][1..] == [];
    assert AllPayloads([Group([u])]) == [u];
    PacketsLength(sequence, o, [u]);
  }

  lemma {:induction false} RepeatedStream(n: nat, u: seq<byte>, sequence: uint32, o: Origin)
    requires Sendable(u) && |u| <= RTP_PAYLOAD_SIZE
    ensures forall i :: 0 <= i < n ==> Carried(Repeated(n, u)[i])
    ensures |Stream(Repeated(n, u), sequence, o)| == n
    decreases n
  {
    hide Carried, FrameDatagrams, Next, Sendable;
    OneUnitCarried(u, false, 0);
    if n > 0 {
      var frames := Repeated(n, u);
      OneDatagram(u, sequence, o);
      DataDefined(frames[0]);
      assert frames[1..] == Repeated(n - 1, u);
      RepeatedStream(n - 1, u, Next(sequence, 1), o);
    }
  }

  /** One call that creates the blank packet, then one for each packet. */
  function Calls(views: seq<View>): (arrivals: seq<Option<View>>)
    ensures |arrivals| == |views| + 1
  {
    [None] + seq(|views|, i requires 0 <= i < |views| => Some(views[i]))
  }

  lemma {:induction false} PacketsOfCalls(views: seq<View>)
    ensures PacketsOf(Calls(views)[1..]) == views
    decreases |views|
  {
    var a := Calls(views)[1..];
    if views != [] {
      PacketsOfCalls(views[1..]);
      assert a[1..] == Calls(views[1..])[1..];
    }
  }

  /** For every window: k+1 one-unit frames that arrive in order meet what the theorem asks for. */
  lemma {:induction false} ConditionsMet(k: nat, u: seq<byte>, o: Origin)
    returns (arrivals: seq<Option<View>>, frames: seq<Frame>)
    requires 1 <= k < 0xFFFE && Sendable(u) && |u| <= RTP_PAYLOAD_SIZE
    ensures arrivals != [] && |frames| == k + 1
    ensures forall i :: 0 <= i < |frames| ==> Carried(frames[i])
    ensures var d := Stream(frames, 1, o);
      && 1 + |d| <= 0x1_0000 && AllReceivable(d)
      && multiset(PacketsOf(arrivals[1..])) == multiset(StreamViews(d))
      && WithinWindow(k, PacketsOf(arrivals[1..]))
      && |Stream(frames[..1], 1, o)| + k <= |d|
  {
    hide Carried, Stream, StreamViews, PacketsOf, WithinWindow, Sendable, AllReceivable;
    frames := Repeated(k + 1, u);
    RepeatedStream(k + 1, u, 1, o);
    RepeatedStream(1, u, 1, o);
    assert frames[..1] == Repeated(1, u);
    var d := Stream(frames, 1, o);
    StreamReceivable(frames, 1, o);
    StreamNumbered(frames, 1, o);
    StreamIncreasing(d, 1);
    arrivals := Calls(StreamViews(d));
    PacketsOfCalls(StreamViews(d));
    InOrderIsWithin(k, StreamViews(d));
  }
}
