/**
 * The messages of a well-formed WebSocket stream: fragments with control frames
 * between them are delivered once, concatenated (section 5.4 of RFC 6455).
 */
module WebSocketMessages {
  import opened Bytes
  import opened WebSocket
  import opened WebSocketConnection
  import opened WebSocketDelivery

  // ------------------------------------------------------------------
  // Streams

  /** The payload of one frame and its mask, empty when the frame is not masked. */
  datatype Piece = Piece(data: seq<byte>, mask: seq<byte>)

  datatype Middle =
    | Continuation(p: Piece)
    | Between(op: byte, p: Piece)  // a control frame among the fragments

  datatype Item =
    | Whole(op: byte, p: Piece)
    | Alone(op: byte, p: Piece)    // a control frame outside a fragmented message
    | Fragmented(op: byte, first: Piece, middle: seq<Middle>, last: Piece)

  predicate GoodPiece(p: Piece) {
    |p.data| <= MAX_PAYLOAD && (p.mask == [] || |p.mask| == 4)
  }

  predicate IsData(op: byte) {
    op == OP_TEXT || op == OP_BINARY
  }

  predicate IsControl(op: byte) {
    op == OP_CLOSE || op == OP_PING || op == OP_PONG
  }

  predicate GoodMiddle(m: Middle) {
    GoodPiece(m.p) && (m.Between? ==> IsControl(m.op))
  }

  predicate Good(item: Item) {
    match item
    case Whole(op, p) => IsData(op) && GoodPiece(p)
    case Alone(op, p) => IsControl(op) && GoodPiece(p)
    case Fragmented(op, first, middle, last) =>
      IsData(op) && GoodPiece(first) && GoodPiece(last)
      && forall k :: 0 <= k < |middle| ==> GoodMiddle(middle[k])
  }

  function Frame(flags: byte, p: Piece): seq<byte>
    requires GoodPiece(p)
  {
    FrameBytes(flags, p.data, p.mask)
  }

  function MiddleFlags(m: Middle): byte {
    if m.Between? then FinalFlags(m.op) else 0
  }

  function MiddleBytes(middle: seq<Middle>): seq<byte>
    requires forall k :: 0 <= k < |middle| ==> GoodMiddle(middle[k])
  {
    if middle == [] then []
    else
      assert GoodMiddle(middle[0]);
      Frame(MiddleFlags(middle[0]), middle[0].p) + MiddleBytes(middle[1..])
  }

  function ItemBytes(item: Item): seq<byte>
    requires Good(item)
  {
    match item
    case Whole(op, p) => Frame(FinalFlags(op), p)
    case Alone(op, p) => Frame(FinalFlags(op), p)
    case Fragmented(op, first, middle, last) => Frame(op, first) + (MiddleBytes(middle) + Frame(128, last))
  }

  predicate AllGood(items: seq<Item>) {
    forall k :: 0 <= k < |items| ==> Good(items[k])
  }

  function StreamBytes(items: seq<Item>): seq<byte>
    requires AllGood(items)
  {
    if items == [] then []
    else
      assert Good(items[0]);
      ItemBytes(items[0]) + StreamBytes(items[1..])
  }

  // ------------------------------------------------------------------
  // Their messages

  datatype Text = Text(flags: byte, data: seq<byte>)

  /** What a frame between the first and the last adds to the message. */
  function Part(m: Middle): seq<byte> {
    if m.Continuation? then m.p.data else []
  }

  function Fragments(middle: seq<Middle>): seq<byte> {
    if middle == [] then []
    else Part(middle[0]) + Fragments(middle[1..])
  }

  /** The message of an item: a fragmented one is whole again, with the opcode of its first frame. */
  function TextOf(item: Item): seq<Text> {
    match item
    case Whole(op, p) => [Text(FinalFlags(op), p.data)]
    case Alone(_, _) => []
    case Fragmented(op, first, middle, last) => [Text(op, first.data + Fragments(middle) + last.data)]
  }

  function TextsOf(items: seq<Item>): seq<Text> {
    if items == [] then [] else TextOf(items[0]) + TextsOf(items[1..])
  }

  /** The messages among the handler calls. */
  function Texts(events: seq<Event>): seq<Text> {
    if events == [] then [] else TextOfEvent(events[0]) + Texts(events[1..])
  }

  function TextOfEvent(e: Event): seq<Text> {
    if e.Message? then [Text(e.flags, e.data)] else []
  }

  lemma {:induction false} TextsConcat(a: seq<Event>, b: seq<Event>)
    ensures Texts(a + b) == Texts(a) + Texts(b)
  {
    if a == [] {
      assert a + b == b;
    } else {
      hide TextOfEvent;
      assert (a + b)[1..] == a[1..] + b;
      TextsConcat(a[1..], b);
      Associate(TextOfEvent(a[0]), Texts(a[1..]), Texts(b));
    }
  }

  // ------------------------------------------------------------------
  // One frame

  /** The connection with this kept part and these bytes behind it. */
  function At(c: Conn, kept: seq<byte>, rest: seq<byte>): Conn {
    c.(recv := kept + rest, ofs := |kept|)
  }

  /** What one complete frame turns the connection into. */
  function AfterFrame(c: Conn, masks: nat -> Mask, kept: seq<byte>, flags: byte, data: seq<byte>, rest: seq<byte>): Conn
    requires |data| <= MAX_PAYLOAD && (flags % 16 == 0 ==> kept != [])
  {
    var d := Dispatch(c, masks, flags, data);
    var final, op := flags >= 128, flags % 16;
    if final && op != 0 then At(d, kept, rest)
    else if op != 0 then At(d, kept + ([flags] + data), rest)
    else if !final then At(d, kept + data, rest)
    else At(d.(events := d.events + [Message(kept[0], kept[1..] + data)]), [], rest)
  }

  lemma {:induction false} StripCases(
      c: Conn, kept: seq<byte>, flags: byte, h: seq<byte>, data: seq<byte>, rest: seq<byte>, x: Conn)
    requires |h| >= 2 && h[0] == flags && (flags % 16 == 0 ==> kept != [])
    requires x == At(c, kept, h + data + rest)
    ensures var final, op := flags >= 128, flags % 16;
            Strip(x, flags, |h|, |data|)
            == if final && op != 0 then At(c, kept, rest)
               else if op != 0 then At(c, kept + ([flags] + data), rest)
               else if !final then At(c, kept + data, rest)
               else At(c.(events := c.events + [Message(kept[0], kept[1..] + data)]), [], rest)
  {
    hide Delete;
    var s := kept + (h + data + rest);
    var final, op := flags >= 128, flags % 16;
    if final && op != 0 {
      DeleteMiddle(kept, h + data, rest, s);
    } else if op != 0 {
      assert h == [flags] + h[1..];
      DeleteMiddle(kept + [flags], h[1..], data + rest, s);
      assert kept + [flags] + (data + rest) == kept + ([flags] + data) + rest;
    } else {
      DeleteMiddle(kept, h, data + rest, s);
      assert kept + (data + rest) == kept + data + rest;
      if final {
        HandOverKept(c, kept, data, rest);
      }
    }
  }

  lemma {:induction false} HandOverKept(c: Conn, kept: seq<byte>, data: seq<byte>, rest: seq<byte>)
    requires kept != []
    ensures HandOver(At(c, kept + data, rest))
            == At(c.(events := c.events + [Message(kept[0], kept[1..] + data)]), [], rest)
  {
    var t := kept + data + rest;
    assert t[1..|kept| + |data|] == kept[1..] + data && t[|kept| + |data|..] == rest && t[0] == kept[0];
    assert [] + rest == rest;
  }

  lemma {:induction false} DeleteMiddle(a: seq<byte>, b: seq<byte>, c: seq<byte>, s: seq<byte>)
    requires s == a + b + c
    ensures Delete(s, |a|, |b|) == a + c
  {
    assert s[..|a|] == a && s[|a| + |b|..] == c;
  }

  lemma {:induction false} DispatchAnywhere(c: Conn, masks: nat -> Mask, flags: byte, data: seq<byte>, kept: seq<byte>, rest: seq<byte>)
    requires |data| <= MAX_PAYLOAD
    ensures Dispatch(At(c, kept, rest), masks, flags, data) == At(Dispatch(c, masks, flags, data), kept, rest)
  {
    hide FrameBytes;
  }

  /** Processing goes on from one state as from the other. */
  predicate SameRun(x: Conn, d: Conn, masks: nat -> Mask) {
    && x.ofs <= |x.recv| && d.ofs <= |d.recv|
    && Drain(x, masks) == Drain(d, masks)
    && (Unexposed(x, masks) <==> Unexposed(d, masks))
  }

  lemma {:induction false} SameRunSelf(x: Conn, masks: nat -> Mask)
    requires x.ofs <= |x.recv|
    ensures SameRun(x, x, masks)
  {
  }

  lemma {:induction false} SameRunTrans(x: Conn, y: Conn, z: Conn, masks: nat -> Mask)
    requires SameRun(x, y, masks) && SameRun(y, z, masks)
    ensures SameRun(x, z, masks)
  {
    hide Drain, Unexposed;
  }

  /** A complete frame behind a kept part is handled in one turn, and that turn is not exposed. */
  lemma {:induction false} OneFrame(c: Conn, masks: nat -> Mask, kept: seq<byte>, flags: byte, p: Piece, rest: seq<byte>)
    requires GoodPiece(p) && (flags % 16 == 0 ==> kept != [])
    ensures var x := At(c, kept, Frame(flags, p) + rest);
            var d := AfterFrame(c, masks, kept, flags, p.data, rest);
            FrameReady(x) && !Exposed(x) && Turn(x, masks) == d && SameRun(x, d, masks)
  {
    hide FrameBytes, HeaderBytes, ParseHeader, Unmasked, FrameLen, Dispatch, Strip, Turn, Drain, Unexposed;
    var h, bytes := HeaderBytes(flags, |p.data|, p.mask), Frame(flags, p) + rest;
    var x := At(c, kept, bytes);
    FrameRoundTrip(flags, p.data, p.mask, rest);
    assert Pending(x) == bytes;
    HeaderStart(flags, |p.data|, p.mask);
    var now := At(c, kept, h + p.data + rest);
    assert x.recv[..x.ofs] + Unmasked(bytes) == now.recv;
    TurnSteps(x, masks, now, Header(|h|, |p.data|, flags));
    PayloadAt(kept, h, p.data, rest, now.recv);
    DispatchAnywhere(c, masks, flags, p.data, kept, h + p.data + rest);
    var e := Dispatch(c, masks, flags, p.data);
    StripCases(e, kept, flags, h, p.data, rest, At(e, kept, h + p.data + rest));
    DrainStep(x, masks);
    NotExposed(x, flags, kept);
    UnexposedStep(x, masks);
  }

  lemma {:induction false} HeaderStart(flags: byte, len: nat, mask: seq<byte>)
    requires len <= MAX_PAYLOAD && (mask == [] || |mask| == 4)
    ensures var h := HeaderBytes(flags, len, mask); |h| >= 2 && h[0] == flags
  {
  }

  lemma {:induction false} PayloadAt(kept: seq<byte>, h: seq<byte>, data: seq<byte>, rest: seq<byte>, s: seq<byte>)
    requires s == kept + (h + data + rest)
    ensures s[|kept| + |h|..|kept| + |h| + |data|] == data
  {
  }

  lemma {:induction false} NotExposed(x: Conn, flags: byte, kept: seq<byte>)
    requires FrameReady(x) && ParseHeader(Pending(x)).flags == flags && x.ofs == |kept|
    requires flags % 16 == 0 ==> kept != []
    ensures !Exposed(x)
  {
  }

  // ------------------------------------------------------------------
  // One item

  /** The effect of an item's frames between messages: handler calls and pongs. */
  function AfterMiddle(c: Conn, masks: nat -> Mask, middle: seq<Middle>): Conn
    requires forall k :: 0 <= k < |middle| ==> GoodMiddle(middle[k])
    decreases middle
  {
    if middle == [] then c
    else
      assert GoodMiddle(middle[0]);
      AfterMiddle(Dispatch(c, masks, MiddleFlags(middle[0]), middle[0].p.data), masks, middle[1..])
  }

  function AfterItem(c: Conn, masks: nat -> Mask, item: Item): Conn
    requires Good(item)
  {
    match item
    case Whole(op, p) => Dispatch(c, masks, FinalFlags(op), p.data)
    case Alone(op, p) => Dispatch(c, masks, FinalFlags(op), p.data)
    case Fragmented(op, first, middle, last) =>
      var d := Dispatch(AfterMiddle(c, masks, middle), masks, 128, last.data);
      d.(events := d.events + [Message(op, first.data + Fragments(middle) + last.data)])
  }

  function AfterItems(c: Conn, masks: nat -> Mask, items: seq<Item>): Conn
    requires AllGood(items)
    decreases items
  {
    if items == [] then c
    else
      assert Good(items[0]);
      AfterItems(AfterItem(c, masks, items[0]), masks, items[1..])
  }

  lemma {:induction false} MiddleFrame(c: Conn, masks: nat -> Mask, kept: seq<byte>, m: Middle, more: seq<byte>)
    requires kept != [] && GoodMiddle(m)
    ensures SameRun(At(c, kept, Frame(MiddleFlags(m), m.p) + more),
                    At(Dispatch(c, masks, MiddleFlags(m), m.p.data), kept + Part(m), more), masks)
  {
    hide Frame, Dispatch, SameRun, Turn, Exposed, FrameReady;
    OneFrame(c, masks, kept, MiddleFlags(m), m.p, more);
    assert kept + [] == kept;
  }

  /** Continuations pile up behind the flags byte; control frames pass. */
  lemma {:induction false} MiddleFrames(c: Conn, masks: nat -> Mask, kept: seq<byte>, middle: seq<Middle>, rest: seq<byte>)
    requires kept != [] && forall k :: 0 <= k < |middle| ==> GoodMiddle(middle[k])
    ensures var x := At(c, kept, MiddleBytes(middle) + rest);
            var d := At(AfterMiddle(c, masks, middle), kept + Fragments(middle), rest);
            SameRun(x, d, masks)
    decreases middle
  {
    hide Frame, Dispatch, SameRun;
    if middle == [] {
      assert [] + rest == rest && kept + [] == kept;
      SameRunSelf(At(c, kept, rest), masks);
    } else {
      var m, tail := middle[0], middle[1..];
      assert GoodMiddle(m);
      var more := MiddleBytes(tail) + rest;
      Associate(Frame(MiddleFlags(m), m.p), MiddleBytes(tail), rest);
      MiddleFrame(c, masks, kept, m, more);
      var c1, kept1 := Dispatch(c, masks, MiddleFlags(m), m.p.data), kept + Part(m);
      MiddleFrames(c1, masks, kept1, tail, rest);
      Associate(kept, Part(m), Fragments(tail));
      SameRunTrans(At(c, kept, MiddleBytes(middle) + rest), At(c1, kept1, more),
                   At(AfterMiddle(c, masks, middle), kept + Fragments(middle), rest), masks);
    }
  }

  lemma {:induction false} ItemFrames(c: Conn, masks: nat -> Mask, item: Item, rest: seq<byte>)
    requires Good(item)
    ensures var x := At(c, [], ItemBytes(item) + rest);
            var d := At(AfterItem(c, masks, item), [], rest);
            SameRun(x, d, masks)
  {
    hide Frame, Dispatch, SameRun, Turn, Exposed, FrameReady, MiddleBytes, AfterMiddle, Fragments;
    match item
    case Whole(op, p) => OneFrame(c, masks, [], FinalFlags(op), p, rest);
    case Alone(op, p) => OneFrame(c, masks, [], FinalFlags(op), p, rest);
    case Fragmented(op, first, middle, last) => FragmentedFrames(c, masks, op, first, middle, last, rest);
  }

  /** The fragments of one message: kept, joined, and handed over by the last. */
  lemma {:induction false} FragmentedFrames(
      c: Conn, masks: nat -> Mask, op: byte, first: Piece, middle: seq<Middle>, last: Piece, rest: seq<byte>)
    requires Good(Fragmented(op, first, middle, last))
    ensures var item := Fragmented(op, first, middle, last);
            var x := At(c, [], ItemBytes(item) + rest);
            var d := At(AfterItem(c, masks, item), [], rest);
            SameRun(x, d, masks)
  {
    hide Frame, Dispatch, SameRun, MiddleBytes, AfterMiddle, Fragments;
    var end := Frame(128, last) + rest;
    var kept := [op] + first.data;
    var all := kept + Fragments(middle);
    FragmentedBytes(op, first, middle, last, rest);
    FirstFrame(c, masks, op, first, MiddleBytes(middle) + end);
    MiddleFrames(c, masks, kept, middle, end);
    LastFrame(AfterMiddle(c, masks, middle), masks, all, last, rest);
    assert all[1..] == first.data + Fragments(middle);
    var s0, s1 := At(c, [], ItemBytes(Fragmented(op, first, middle, last)) + rest), At(c, kept, MiddleBytes(middle) + end);
    var s2, s3 := At(AfterMiddle(c, masks, middle), all, end), At(AfterItem(c, masks, Fragmented(op, first, middle, last)), [], rest);
    SameRunTrans(s0, s1, s2, masks);
    SameRunTrans(s0, s2, s3, masks);
  }

  lemma {:induction false} FirstFrame(c: Conn, masks: nat -> Mask, op: byte, p: Piece, rest: seq<byte>)
    requires IsData(op) && GoodPiece(p)
    ensures SameRun(At(c, [], Frame(op, p) + rest), At(c, [op] + p.data, rest), masks)
  {
    hide Frame, Dispatch, SameRun, Turn, Exposed, FrameReady;
    OneFrame(c, masks, [], op, p, rest);
    FirstSilent(c, masks, op, p.data);
    assert [] + ([op] + p.data) == [op] + p.data;
  }

  lemma {:induction false} LastFrame(c: Conn, masks: nat -> Mask, kept: seq<byte>, p: Piece, rest: seq<byte>)
    requires kept != [] && GoodPiece(p)
    ensures var d := Dispatch(c, masks, 128, p.data);
            SameRun(At(c, kept, Frame(128, p) + rest),
                    At(d.(events := d.events + [Message(kept[0], kept[1..] + p.data)]), [], rest), masks)
  {
    hide Frame, Dispatch, SameRun, Turn, Exposed, FrameReady;
    OneFrame(c, masks, kept, 128, p, rest);
  }

  lemma {:induction false} FragmentedBytes(op: byte, first: Piece, middle: seq<Middle>, last: Piece, rest: seq<byte>)
    requires Good(Fragmented(op, first, middle, last))
    ensures ItemBytes(Fragmented(op, first, middle, last)) + rest
            == Frame(op, first) + (MiddleBytes(middle) + (Frame(128, last) + rest))
  {
    hide Frame, MiddleBytes;
    Associate(Frame(op, first), MiddleBytes(middle) + Frame(128, last), rest);
    Associate(MiddleBytes(middle), Frame(128, last), rest);
  }

  lemma {:induction false} FirstSilent(c: Conn, masks: nat -> Mask, op: byte, data: seq<byte>)
    requires IsData(op) && |data| <= MAX_PAYLOAD
    ensures Dispatch(c, masks, op, data) == c
  {
  }

  lemma {:induction false} StreamFrames(c: Conn, masks: nat -> Mask, items: seq<Item>)
    requires AllGood(items)
    ensures var x := At(c, [], StreamBytes(items));
            && Drain(x, masks) == At(AfterItems(c, masks, items), [], [])
            && Unexposed(x, masks)
    decreases items
  {
    hide ItemBytes, AfterItem, Turn, Exposed;
    if items == [] {
      assert !FrameReady(At(c, [], []));
    } else {
      assert Good(items[0]);
      ItemFrames(c, masks, items[0], StreamBytes(items[1..]));
      StreamFrames(AfterItem(c, masks, items[0]), masks, items[1..]);
    }
  }

  // ------------------------------------------------------------------
  // Their messages again

  lemma {:induction false} DispatchTexts(c: Conn, masks: nat -> Mask, flags: byte, data: seq<byte>)
    requires |data| <= MAX_PAYLOAD
    ensures Texts(Dispatch(c, masks, flags, data).events)
            == Texts(c.events) + if flags >= 128 && IsData(flags % 16) then [Text(flags, data)] else []
  {
    hide FrameBytes, Texts;
    var d := Dispatch(c, masks, flags, data);
    if d.events != c.events {
      var e := d.events[|c.events|];
      assert d.events == c.events + [e];
      TextsConcat(c.events, [e]);
      TextsOne(e);
    } else {
      assert Texts(c.events) + [] == Texts(c.events);
    }
  }

  lemma {:induction false} TextsOne(e: Event)
    ensures Texts([e]) == if e.Message? then [Text(e.flags, e.data)] else []
  {
    assert [e][1..] == [];
  }

  lemma {:induction false} MiddleTexts(c: Conn, masks: nat -> Mask, middle: seq<Middle>)
    requires forall k :: 0 <= k < |middle| ==> GoodMiddle(middle[k])
    ensures Texts(AfterMiddle(c, masks, middle).events) == Texts(c.events)
    decreases middle
  {
    hide Dispatch, Texts;
    if middle != [] {
      assert GoodMiddle(middle[0]);
      DispatchTexts(c, masks, MiddleFlags(middle[0]), middle[0].p.data);
      MiddleTexts(Dispatch(c, masks, MiddleFlags(middle[0]), middle[0].p.data), masks, middle[1..]);
    }
  }

  lemma {:induction false} ItemTexts(c: Conn, masks: nat -> Mask, item: Item)
    requires Good(item)
    ensures Texts(AfterItem(c, masks, item).events) == Texts(c.events) + TextOf(item)
  {
    hide Dispatch, Texts, AfterMiddle, Fragments;
    match item
    case Whole(op, p) => DispatchTexts(c, masks, FinalFlags(op), p.data);
    case Alone(op, p) => DispatchTexts(c, masks, FinalFlags(op), p.data);
    case Fragmented(op, first, middle, last) =>
      MiddleTexts(c, masks, middle);
      var c1 := AfterMiddle(c, masks, middle);
      DispatchTexts(c1, masks, 128, last.data);
      var d := Dispatch(c1, masks, 128, last.data);
      var e := Message(op, first.data + Fragments(middle) + last.data);
      TextsConcat(d.events, [e]);
      TextsOne(e);
  }

  lemma {:induction false} StreamTexts(c: Conn, masks: nat -> Mask, items: seq<Item>)
    requires AllGood(items)
    ensures Texts(AfterItems(c, masks, items).events) == Texts(c.events) + TextsOf(items)
    decreases items
  {
    hide AfterItem, Texts, TextOf;
    if items != [] {
      assert Good(items[0]);
      ItemTexts(c, masks, items[0]);
      StreamTexts(AfterItem(c, masks, items[0]), masks, items[1..]);
      Associate(Texts(c.events), TextOf(items[0]), TextsOf(items[1..]));
    } else {
      assert Texts(c.events) + [] == Texts(c.events);
    }
  }

  /**
   * Delivery: for every stream of complete frames, control frames between the
   * fragments included, and every cutting of its bytes into reads, exactly the
   * stream's messages are delivered, in order, and nothing is left in the buffer.
   */
  lemma {:induction false} MessagesDelivered(
      c: Conn, masks: nat -> Mask, items: seq<Item>, pieces: seq<seq<byte>>)
    requires c.recv == [] && c.ofs == 0
    requires AllGood(items) && Flatten(pieces) == StreamBytes(items)
    ensures var end := ReadAll(c, masks, pieces);
            && Texts(end.events) == Texts(c.events) + TextsOf(items)
            && end == AfterItems(c, masks, items).(recv := [], ofs := 0)
  {
    hide Drain, Unexposed, AfterItems, Texts, StreamBytes;
    var bytes := StreamBytes(items);
    assert More(c, bytes) == At(c, [], bytes);
    StreamFrames(c, masks, items);
    assert !FrameReady(c);
    CutsDoNotMatter(c, masks, pieces);
    StreamTexts(c, masks, items);
  }
}
