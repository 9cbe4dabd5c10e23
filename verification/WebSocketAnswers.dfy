/**
 * What a connection does with a well-formed stream, in the opcodes of section
 * 11.8 of RFC 6455: which handler calls it makes, and what it sends in answer.
 */
module WebSocketAnswers {
  import opened Bytes
  import opened WebSocket
  import opened WebSocketConnection
  import opened WebSocketDelivery
  import opened WebSocketMessages

  // ------------------------------------------------------------------
  // One frame

  /** The opcodes that a stream may use. */
  lemma {:induction false} Opcodes(op: byte)
    ensures IsData(op) <==> op == 1 || op == 2
    ensures IsControl(op) <==> op == 8 || op == 9 || op == 10
    ensures IsData(op) || IsControl(op) ==> FinalFlags(op) as nat == 128 + op as nat
  {
  }

  /**
   * The effect of one frame: a continuation (0), a close (8), a ping (9) and a pong
   * (10) are reported, a close starts the closing, and a ping is answered by a frame
   * with the first octet 0x8A and the same payload. Final text (1) and binary (2)
   * frames are messages. Anything else is an error and starts the closing.
   */
  lemma {:induction false} ByOpcode(c: Conn, masks: nat -> Mask, flags: byte, data: seq<byte>)
    requires |data| <= MAX_PAYLOAD
    ensures var d, op := Dispatch(c, masks, flags, data), flags % 16;
            && (op == 0 || op == 10 ==> d == c.(events := c.events + [Control(flags, data)]))
            && (op == 8 ==> d == c.(events := c.events + [Control(flags, data)], closing := true))
            && (op == 9 && c.isClient ==>
                  d == c.(events := c.events + [Control(flags, data)], used := c.used + 1,
                          send := c.send + FrameBytes(0x8A, data, masks(c.used).Bytes())))
            && (op == 9 && !c.isClient ==>
                  d == c.(events := c.events + [Control(flags, data)], send := c.send + FrameBytes(0x8A, data, [])))
            && (op == 1 || op == 2 ==> d == if flags >= 128 then c.(events := c.events + [Message(flags, data)]) else c)
            && (3 <= op <= 7 || 11 <= op ==> d == c.(events := c.events + [Error(op)], closing := true))
  {
    hide FrameBytes;
  }

  // ------------------------------------------------------------------
  // The calls and answers of a stream

  function MiddleCalls(middle: seq<Middle>): seq<Event> {
    if middle == [] then []
    else
      var m := middle[0];
      [if m.Between? then Control(m.op % 16 + 128, m.p.data) else Control(0, m.p.data)] + MiddleCalls(middle[1..])
  }

  /** The handler calls of an item: a message once, and every frame but data frames. */
  function CallsOf(item: Item): seq<Event> {
    match item
    case Whole(op, p) => [Message(op % 16 + 128, p.data)]
    case Alone(op, p) => [Control(op % 16 + 128, p.data)]
    case Fragmented(op, first, middle, last) =>
      MiddleCalls(middle) + [Control(128, last.data), Message(op, first.data + Fragments(middle) + last.data)]
  }

  function Calls(items: seq<Item>): seq<Event> {
    if items == [] then [] else CallsOf(items[0]) + Calls(items[1..])
  }

  function MiddlePings(middle: seq<Middle>): seq<seq<byte>> {
    if middle == [] then []
    else (if middle[0].Between? && middle[0].op == 9 then [middle[0].p.data] else []) + MiddlePings(middle[1..])
  }

  /** The payloads of the pings of an item, those between fragments included. */
  function PingsOf(item: Item): seq<seq<byte>> {
    match item
    case Whole(_, _) => []
    case Alone(op, p) => if op == 9 then [p.data] else []
    case Fragmented(_, _, middle, _) => MiddlePings(middle)
  }

  function Pings(items: seq<Item>): seq<seq<byte>> {
    if items == [] then [] else PingsOf(items[0]) + Pings(items[1..])
  }

  predicate MiddleCloses(middle: seq<Middle>) {
    middle != [] && ((middle[0].Between? && middle[0].op == 8) || MiddleCloses(middle[1..]))
  }

  predicate Closes(item: Item) {
    match item
    case Whole(_, _) => false
    case Alone(op, _) => op == 8
    case Fragmented(_, _, middle, _) => MiddleCloses(middle)
  }

  predicate AnyCloses(items: seq<Item>) {
    exists k :: 0 <= k < |items| && Closes(items[k])
  }

  predicate Short(pings: seq<seq<byte>>) {
    forall k :: 0 <= k < |pings| ==> |pings[k]| <= MAX_PAYLOAD
  }

  /** One frame with the first octet 0x8A for each ping; a client masks each with a fresh mask. */
  function Pongs(client: bool, masks: nat -> Mask, used: nat, pings: seq<seq<byte>>): seq<byte>
    requires Short(pings)
    decreases pings
  {
    if pings == [] then []
    else
      assert |pings[0]| <= MAX_PAYLOAD;
      FrameBytes(0x8A, pings[0], if client then masks(used).Bytes() else [])
      + Pongs(client, masks, if client then used + 1 else used, pings[1..])
  }

  /** The connection after these calls and answers. */
  function Advanced(c: Conn, masks: nat -> Mask, calls: seq<Event>, pings: seq<seq<byte>>, closes: bool): Conn
    requires Short(pings)
  {
    c.(events := c.events + calls, send := c.send + Pongs(c.isClient, masks, c.used, pings),
       used := if c.isClient then c.used + |pings| else c.used, closing := c.closing || closes)
  }

  lemma {:induction false} PongsConcat(
      client: bool, masks: nat -> Mask, used: nat, a: seq<seq<byte>>, b: seq<seq<byte>>)
    requires Short(a) && Short(b)
    ensures Short(a + b)
    ensures Pongs(client, masks, used, a + b)
            == Pongs(client, masks, used, a) + Pongs(client, masks, if client then used + |a| else used, b)
    decreases a
  {
    hide FrameBytes;
    if a == [] {
      assert a + b == b;
    } else {
      assert (a + b)[1..] == a[1..] + b;
      assert |a[0]| <= MAX_PAYLOAD;
      PongsConcat(client, masks, if client then used + 1 else used, a[1..], b);
    }
  }

  lemma {:induction false} AdvancedTwice(
      c: Conn, masks: nat -> Mask,
      calls: seq<Event>, pings: seq<seq<byte>>, closes: bool,
      calls1: seq<Event>, pings1: seq<seq<byte>>, closes1: bool)
    requires Short(pings) && Short(pings1)
    ensures Short(pings + pings1)
    ensures Advanced(Advanced(c, masks, calls, pings, closes), masks, calls1, pings1, closes1)
            == Advanced(c, masks, calls + calls1, pings + pings1, closes || closes1)
  {
    hide Pongs;
    PongsConcat(c.isClient, masks, c.used, pings, pings1);
    Associate(c.events, calls, calls1);
    Associate(c.send, Pongs(c.isClient, masks, c.used, pings),
              Pongs(c.isClient, masks, if c.isClient then c.used + |pings| else c.used, pings1));
  }

  lemma {:induction false} NoPongs(client: bool, masks: nat -> Mask, used: nat)
    ensures Pongs(client, masks, used, []) == []
  {
  }

  lemma {:induction false} OnePong(client: bool, masks: nat -> Mask, used: nat, data: seq<byte>)
    requires |data| <= MAX_PAYLOAD
    ensures Short([data])
    ensures Pongs(client, masks, used, [data]) == FrameBytes(0x8A, data, if client then masks(used).Bytes() else [])
  {
    hide FrameBytes;
    assert [data][1..] == [];
  }

  lemma {:induction false} ControlAdvances(c: Conn, masks: nat -> Mask, op: byte, flags: byte, data: seq<byte>)
    requires |data| <= MAX_PAYLOAD
    requires (op == 0 && (flags == 0 || flags == 128)) || ((op == 8 || op == 9 || op == 10) && flags == op + 128)
    ensures var pings := if op == 9 then [data] else [];
            && Short(pings)
            && Dispatch(c, masks, flags, data) == Advanced(c, masks, [Control(flags, data)], pings, op == 8)
  {
    hide FrameBytes, Dispatch, Pongs;
    ByOpcode(c, masks, flags, data);
    NoPongs(c.isClient, masks, c.used);
    OnePong(c.isClient, masks, c.used, data);
    assert c.send + [] == c.send;
  }

  lemma {:induction false} MessageAdvances(c: Conn, masks: nat -> Mask, flags: byte, data: seq<byte>)
    ensures Advanced(c, masks, [Message(flags, data)], [], false) == c.(events := c.events + [Message(flags, data)])
  {
    NoPongs(c.isClient, masks, c.used);
    assert c.send + [] == c.send;
  }

  lemma {:induction false} NothingAdvances(c: Conn, masks: nat -> Mask)
    ensures Advanced(c, masks, [], [], false) == c
  {
    assert c.send + [] == c.send && c.events + [] == c.events;
  }

  lemma {:induction false} MiddleAdvances(c: Conn, masks: nat -> Mask, middle: seq<Middle>)
    requires forall k :: 0 <= k < |middle| ==> GoodMiddle(middle[k])
    ensures Short(MiddlePings(middle))
    ensures AfterMiddle(c, masks, middle)
            == Advanced(c, masks, MiddleCalls(middle), MiddlePings(middle), MiddleCloses(middle))
    decreases middle
  {
    hide Dispatch, Advanced, Pongs;
    if middle == [] {
      NothingAdvances(c, masks);
    } else {
      var m, rest := middle[0], middle[1..];
      assert GoodMiddle(m);
      var op: byte := if m.Between? then m.op else 0;
      Opcodes(op);
      ControlAdvances(c, masks, op, MiddleFlags(m), m.p.data);
      MiddleAdvances(Dispatch(c, masks, MiddleFlags(m), m.p.data), masks, rest);
      AdvancedTwice(c, masks, [Control(MiddleFlags(m), m.p.data)], if op == 9 then [m.p.data] else [], op == 8,
                    MiddleCalls(rest), MiddlePings(rest), MiddleCloses(rest));
    }
  }

  lemma {:induction false} ItemAdvances(c: Conn, masks: nat -> Mask, item: Item)
    requires Good(item)
    ensures Short(PingsOf(item))
    ensures AfterItem(c, masks, item) == Advanced(c, masks, CallsOf(item), PingsOf(item), Closes(item))
  {
    hide Dispatch, Advanced, Pongs, AfterMiddle, Fragments;
    match item
    case Whole(op, p) =>
      Opcodes(op);
      ByOpcode(c, masks, FinalFlags(op), p.data);
      MessageAdvances(c, masks, FinalFlags(op), p.data);
    case Alone(op, p) =>
      Opcodes(op);
      ControlAdvances(c, masks, op, FinalFlags(op), p.data);
    case Fragmented(op, first, middle, last) =>
      var calls, pings, closes := MiddleCalls(middle), MiddlePings(middle), MiddleCloses(middle);
      var end := Message(op, first.data + Fragments(middle) + last.data);
      MiddleAdvances(c, masks, middle);
      var d := Advanced(c, masks, calls, pings, closes);
      ControlAdvances(d, masks, 0, 128, last.data);
      var e := Dispatch(d, masks, 128, last.data);
      MessageAdvances(e, masks, op, end.data);
      var none: seq<seq<byte>> := [];
      assert none + none == none;
      AdvancedTwice(d, masks, [Control(128, last.data)], none, false, [end], none, false);
      assert [Control(128, last.data)] + [end] == [Control(128, last.data), end];
      AdvancedTwice(c, masks, calls, pings, closes, [Control(128, last.data), end], none, false);
      assert pings + none == pings;
  }

  lemma {:induction false} ItemsAdvance(c: Conn, masks: nat -> Mask, items: seq<Item>)
    requires AllGood(items)
    ensures Short(Pings(items))
    ensures AfterItems(c, masks, items) == Advanced(c, masks, Calls(items), Pings(items), AnyCloses(items))
    decreases items
  {
    hide AfterItem, Advanced, Pongs, CallsOf, PingsOf, Closes;
    if items == [] {
      NothingAdvances(c, masks);
    } else {
      var item, rest := items[0], items[1..];
      assert Good(item);
      ItemAdvances(c, masks, item);
      ItemsAdvance(AfterItem(c, masks, item), masks, rest);
      AdvancedTwice(c, masks, CallsOf(item), PingsOf(item), Closes(item), Calls(rest), Pings(rest), AnyCloses(rest));
      assert AnyCloses(items) <==> Closes(item) || AnyCloses(rest) by {
        assert forall k :: 1 <= k < |items| ==> items[k] == rest[k - 1];
      }
    }
  }

  // ------------------------------------------------------------------
  // The answers, read back

  /** A frame as a peer reads it: first octet and unmasked payload. */
  datatype Received = Received(flags: byte, data: seq<byte>)

  /** The frames at the front of some bytes, none once the rest holds no complete one. */
  function FramesIn(s: seq<byte>): seq<Received>
    decreases |s|
  {
    HeaderShape(s);
    var n, h := FrameLen(s), ParseHeader(s);
    if n == 0 then []
    else [Received(h.flags, Unmasked(s)[h.headerLen..n])] + FramesIn(s[n..])
  }

  function Answers(pings: seq<seq<byte>>): seq<Received> {
    if pings == [] then [] else [Received(0x8A, pings[0])] + Answers(pings[1..])
  }

  lemma {:induction false} FrameInFront(flags: byte, data: seq<byte>, mask: seq<byte>, rest: seq<byte>)
    requires |data| <= MAX_PAYLOAD && (mask == [] || |mask| == 4)
    ensures FramesIn(FrameBytes(flags, data, mask) + rest) == [Received(flags, data)] + FramesIn(rest)
  {
    hide ParseHeader, FrameLen, Unmasked, HeaderBytes, Masked;
    var f, h := FrameBytes(flags, data, mask), HeaderBytes(flags, |data|, mask);
    FrameRoundTrip(flags, data, mask, rest);
    HeaderStart(flags, |data|, mask);
    assert (f + rest)[|f|..] == rest;
    assert (h + data + rest)[|h|..|h| + |data|] == data;
  }

  lemma {:induction false} PongsReadBack(client: bool, masks: nat -> Mask, used: nat, pings: seq<seq<byte>>)
    requires Short(pings)
    ensures FramesIn(Pongs(client, masks, used, pings)) == Answers(pings)
    decreases pings
  {
    hide FrameBytes, FrameLen, ParseHeader, Unmasked;
    if pings == [] {
      NoFrames();
    } else {
      assert |pings[0]| <= MAX_PAYLOAD;
      var next := if client then used + 1 else used;
      FrameInFront(0x8A, pings[0], if client then masks(used).Bytes() else [], Pongs(client, masks, next, pings[1..]));
      PongsReadBack(client, masks, next, pings[1..]);
    }
  }

  lemma {:induction false} NoFrames()
    ensures FramesIn([]) == []
  {
  }

  /**
   * For every stream of complete frames and every cutting of it into reads: the
   * handler calls are those of the stream, in order, and what is sent is one frame
   * for each ping, in order, with the first octet 0x8A and the ping's payload, and
   * nothing else. The connection is closing afterwards if it was or a close came.
   */
  lemma {:induction false} CallsAndAnswers(c: Conn, masks: nat -> Mask, items: seq<Item>, pieces: seq<seq<byte>>)
    requires c.recv == [] && c.ofs == 0
    requires AllGood(items) && Flatten(pieces) == StreamBytes(items)
    ensures Short(Pings(items))
    ensures var end := ReadAll(c, masks, pieces);
            && end.events == c.events + Calls(items)
            && end.send == c.send + Pongs(c.isClient, masks, c.used, Pings(items))
            && FramesIn(end.send[|c.send|..]) == Answers(Pings(items))
            && (end.closing <==> c.closing || AnyCloses(items))
            && end.used == (if c.isClient then c.used + |Pings(items)| else c.used)
            && end.recv == [] && end.ofs == 0
  {
    hide AfterItems, Calls, Pings, Pongs, FramesIn, Answers, AnyCloses, ReadAll, StreamBytes;
    MessagesDelivered(c, masks, items, pieces);
    ItemsAdvance(c, masks, items);
    PongsReadBack(c.isClient, masks, c.used, Pings(items));
    var sent := Pongs(c.isClient, masks, c.used, Pings(items));
    assert (c.send + sent)[|c.send|..] == sent;
  }
}
