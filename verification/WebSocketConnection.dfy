/**
 * One WebSocket connection: sending frames, and the reassembly of messages in
 * place in the receive buffer across reads (section 5.4 of RFC 6455), from
 * src/websocket/mongoose.cpp.
 */
module WebSocketConnection {
  import opened Bytes
  import opened WebSocket

  const OP_CONTINUE: byte := 0
  const OP_TEXT: byte := 1
  const OP_BINARY: byte := 2
  const OP_CLOSE: byte := 8
  const OP_PING: byte := 9
  const OP_PONG: byte := 10

  /** The calls of the event handler. */
  datatype Event =
    | Control(flags: byte, data: seq<byte>)
    | Message(flags: byte, data: seq<byte>)
    | Error(op: byte)
    | Garbled(flags: byte)  // a message whose length has wrapped below zero

  /**
   * The connection as a value. `recv[..ofs]` is the kept part of a fragmented
   * message; `used` counts the random masks drawn.
   */
  datatype Conn = Conn(
    isClient: bool, recv: seq<byte>, ofs: nat, send: seq<byte>, used: nat, closing: bool, events: seq<Event>)

  // ------------------------------------------------------------------
  // Sending

  function NextMask(c: Conn, masks: nat -> Mask): (m: seq<byte>)
    ensures m == [] || |m| == 4
  {
    if c.isClient then masks(c.used).Bytes() else []
  }

  /** `op | 128`. */
  function FinalFlags(op: byte): byte {
    op % 128 + 128
  }

  function SendFrame(c: Conn, masks: nat -> Mask, op: byte, data: seq<byte>): Conn
    requires |data| < 0x1_0000_0000_0000_0000
  {
    c.(send := c.send + FrameBytes(FinalFlags(op), data, NextMask(c, masks)),
       used := if c.isClient then c.used + 1 else c.used)
  }

  // ------------------------------------------------------------------
  // Receiving one frame

  /** The buffer behind the kept part. */
  function Pending(c: Conn): seq<byte>
    requires c.ofs <= |c.recv|
  {
    c.recv[c.ofs..]
  }

  function Delete(s: seq<byte>, at: nat, n: nat): (r: seq<byte>)
    requires at + n <= |s|
    ensures |r| == |s| - n
  {
    s[..at] + s[at + n..]
  }

  lemma {:induction false} DeleteFront(s: seq<byte>, n: nat)
    requires n <= |s|
    ensures Delete(s, 0, n) == s[n..]
  {
  }

  /** The handler calls, and the answer to a ping. */
  function Dispatch(c: Conn, masks: nat -> Mask, flags: byte, data: seq<byte>): (d: Conn)
    requires |data| <= MAX_PAYLOAD
    ensures d.recv == c.recv && d.ofs == c.ofs
  {
    var op := flags % 16;
    var control := c.(events := c.events + [Control(flags, data)]);
    if op == OP_CONTINUE || op == OP_PONG then control
    else if op == OP_PING then
      SendFrame(c, masks, OP_PONG, data).(events := control.events)
    else if op == OP_TEXT || op == OP_BINARY then
      if flags >= 128 then c.(events := c.events + [Message(flags, data)]) else c
    else if op == OP_CLOSE then control.(closing := true)
    else c.(closing := true, events := c.events + [Error(op)])
  }

  /**
   * What stays of the frame at `ofs`: of a first fragment the flags byte and the
   * payload, of a continuation the payload, of anything else nothing; a final
   * continuation hands over and drops all that was kept.
   */
  function Strip(c: Conn, flags: byte, headerLen: nat, dataLen: nat): (d: Conn)
    requires headerLen >= 2 && c.ofs + headerLen + dataLen <= |c.recv|
    ensures d.ofs <= |d.recv| && |d.recv| - d.ofs == |c.recv| - c.ofs - headerLen - dataLen
  {
    var final, op := flags >= 128, flags % 16;
    if !final && op != 0 then
      c.(recv := Delete(c.recv, c.ofs + 1, headerLen - 1), ofs := c.ofs + 1 + dataLen)
    else if final && op != 0 then
      c.(recv := Delete(c.recv, c.ofs, headerLen + dataLen))
    else
      var d := c.(recv := Delete(c.recv, c.ofs, headerLen), ofs := c.ofs + dataLen);
      if final then HandOver(d) else d
  }

  /** The first byte of the buffer; deleted bytes were cleared. */
  function FirstByte(s: seq<byte>): byte {
    if s == [] then 0 else s[0]
  }

  function HandOver(c: Conn): Conn
    requires c.ofs <= |c.recv|
  {
    var flags := FirstByte(c.recv);
    var e := if c.ofs == 0 then Garbled(flags) else Message(flags, c.recv[1..c.ofs]);
    c.(recv := c.recv[c.ofs..], ofs := 0, events := c.events + [e])
  }

  predicate FrameReady(c: Conn) {
    c.ofs <= |c.recv| && FrameLen(Pending(c)) > 0
  }

  /** One turn of the loop: unmask in place, dispatch, strip. */
  function Turn(c: Conn, masks: nat -> Mask): (d: Conn)
    requires FrameReady(c)
    ensures d.ofs <= |d.recv|
    ensures |d.recv| - d.ofs == |c.recv| - c.ofs - FrameLen(Pending(c))
  {
    hide ParseHeader, Unmasked, Dispatch, Strip, MaskLen;
    HeaderShape(Pending(c));
    var h, b := ParseHeader(Pending(c)), Unmasked(Pending(c));
    var data := b[h.headerLen..h.headerLen + h.dataLen];
    var d := Dispatch(c.(recv := c.recv[..c.ofs] + b), masks, h.flags, data);
    Strip(d, h.flags, h.headerLen, h.dataLen)
  }

  /** All complete frames of the buffer. */
  function Drain(c: Conn, masks: nat -> Mask): (d: Conn)
    requires c.ofs <= |c.recv|
    ensures d.ofs <= |d.recv|
    decreases |c.recv| - c.ofs
  {
    if FrameReady(c) then Drain(Turn(c, masks), masks) else c
  }

  /** One read: the bytes are appended, then the loop runs. */
  function Read(c: Conn, masks: nat -> Mask, bytes: seq<byte>): (d: Conn)
    requires c.ofs <= |c.recv|
    ensures d.ofs <= |d.recv|
  {
    Drain(c.(recv := c.recv + bytes), masks)
  }

  /** The last `n` bytes masked with the four before them, for a client. */
  function MaskTail(s: seq<byte>, n: nat, isClient: bool): (r: seq<byte>)
    requires |s| >= n + if isClient then 4 else 0
    ensures |r| == |s|
  {
    var p := |s| - n;
    if isClient then s[..p] + Masked(s[p..], s[p - 4..p]) else s
  }

  lemma {:induction false} MaskedSoFar(s: seq<byte>, p: nat, i: nat)
    requires 4 <= p && p + i <= |s|
    ensures var r := UnmaskedAt(s, p, i);
            && (i == 0 ==> r == s)
            && (p + i == |s| ==> r == s[..p] + Masked(s[p..], s[p - 4..p]))
            && (p + i < |s| ==> r[p + i := Xor(r[p + i], r[p - 4 + i % 4])] == UnmaskedAt(s, p, i + 1))
  {
    var r := UnmaskedAt(s, p, i);
    if p + i < |s| {
      hide Xor;
      var next := UnmaskedAt(s, p, i + 1);
      var m := s[p - 4..p];
      assert r[p + i] == s[p + i] && r[p - 4 + i % 4] == m[i % 4];
      assert Masked(s[p..p + i + 1], m) == Masked(s[p..p + i], m) + [Xor(s[p + i], m[i % 4])];
    } else {
      assert s[p..p + i] == s[p..];
    }
  }

  // ------------------------------------------------------------------
  // The connection object

  class WsConnection {
    const isClient: bool
    const masks: nat -> Mask  // the random source
    var recv: seq<byte>
    var pfnData: nat          // the offset kept between reads
    var send: seq<byte>
    var used: nat
    var isClosing: bool
    var events: seq<Event>

    constructor (client: bool, random: nat -> Mask)
      ensures isClient == client && masks == random && State() == Conn(client, [], 0, [], 0, false, [])
    {
      isClient, masks := client, random;
      recv, pfnData, send, used, isClosing, events := [], 0, [], 0, false, [];
    }

    function State(): Conn
      reads this
    {
      Conn(isClient, recv, pfnData, send, used, isClosing, events)
    }

    /** `mkhdr`: the header octets, drawing a mask for a client. */
    method MkHdr(len: nat, op: byte) returns (header: seq<byte>)
      requires len < 0x1_0000_0000_0000_0000
      modifies this`used
      ensures header == HeaderBytes(FinalFlags(op), len, NextMask(old(State()), masks))
      ensures used == if isClient then old(used) + 1 else old(used)
    {
      hide Be16, Be32;
      header := [op % 128 + 128];
      if len < 126 {
        header := header + [len as byte];
      } else if len < 65536 {
        header := header + [126] + Be16(len);
      } else {
        header := header + [127] + (Be32(len / 0x1_0000_0000) + Be32(len % 0x1_0000_0000));
      }
      if isClient {
        header := header[1 := header[1] + 128];
        header := header + masks(used).Bytes();
        used := used + 1;
      }
    }

    /** `mg_ws_mask`: masks the last `len` bytes of the send buffer with the four before them. */
    method WsMask(len: nat)
      requires |send| >= len + if isClient then 4 else 0
      modifies this`send
      ensures send == MaskTail(old(send), len, isClient)
    {
      if isClient {
        hide Masked, UnmaskedAt, Xor;
        ghost var was := send;
        var p := |send| - len;
        var i := 0;
        MaskedSoFar(was, p, 0);
        while i < len
          invariant i <= len && send == UnmaskedAt(was, p, i)
        {
          MaskedSoFar(was, p, i);
          send := send[p + i := Xor(send[p + i], send[p - 4 + i % 4])];
          i := i + 1;
        }
        MaskedSoFar(was, p, len);
      }
    }

    /** `mg_ws_send`: header, payload, then the mask over the payload. */
    method WsSend(data: seq<byte>, op: byte) returns (n: nat)
      requires |data| < 0x1_0000_0000_0000_0000
      modifies this`send, this`used
      ensures State() == SendFrame(old(State()), masks, op, data)
      ensures n == |send| - |old(send)|
    {
      hide HeaderBytes, FrameBytes, MaskTail, FinalFlags;
      ghost var mask := NextMask(State(), masks);
      var header := MkHdr(|data|, op);
      HeaderTail(send, header, data, FinalFlags(op), mask);
      send := send + header;
      send := send + data;
      WsMask(|data|);
      return |header| + |data|;
    }

    /**
     * `mg_ws_wrap`: turns the last `len` bytes of the send buffer into a frame.
     * `fill` is whatever the bytes added at the end hold.
     */
    method WsWrap(len: nat, op: byte, fill: seq<byte>) returns (n: nat)
      requires len <= |send| && len < 0x1_0000_0000_0000_0000
      requires |fill| == |HeaderBytes(FinalFlags(op), len, NextMask(State(), masks))|
      modifies this`send, this`used
      ensures var at := |old(send)| - len;
              State() == SendFrame(old(State()).(send := old(send)[..at]), masks, op, old(send)[at..])
      ensures n == |send|
    {
      hide HeaderBytes, FrameBytes, MaskTail, FinalFlags;
      ghost var mask, was := NextMask(State(), masks), send;
      var header := MkHdr(len, op);
      Prepend(header, len, fill);
      HeaderTail(was[..|was| - len], header, was[|was| - len..], FinalFlags(op), mask);
      WsMask(len);
      return |send|;
    }

    /** Room at the end, the data moved back, the header copied in front of it. */
    method Prepend(header: seq<byte>, len: nat, fill: seq<byte>)
      requires len <= |send| && |fill| == |header|
      modifies this`send
      ensures send == old(send)[..|old(send)| - len] + header + old(send)[|old(send)| - len..]
    {
      ghost var was := send;
      send := send + fill;
      var p := |send| - len;
      send := send[..p] + send[p - |header|..p - |header| + len];
      send := send[..p - |header|] + header + send[p..];
      Shifted(was, fill, header, len);
    }

    /** `mg_iobuf_del`, with its clamping of the range. */
    method IobufDel(at: nat, n: nat)
      modifies this`recv
      ensures at + n <= |old(recv)| ==> recv == Delete(old(recv), at, n)
      ensures at + n > |old(recv)| ==> recv == old(recv)[..if at > |old(recv)| then |old(recv)| else at]
    {
      var ofs := if at > |recv| then |recv| else at;
      var len := if ofs + n > |recv| then |recv| - ofs else n;
      recv := recv[..ofs] + recv[ofs + len..];
    }

    /** `ws_process` on the buffer from `ofs` on. */
    method WsProcess(ofs: nat) returns (n: nat, msg: Header)
      requires ofs <= |recv|
      modifies this`recv
      ensures n == FrameLen(old(recv)[ofs..]) && msg == ParseHeader(old(recv)[ofs..])
      ensures recv == old(recv)[..ofs] + Unmasked(old(recv)[ofs..])
    {
      ghost var was := recv;
      var len := |recv| - ofs;
      ghost var b := recv[ofs..];
      n := 0;
      var maskLen := 0;
      msg := Header(0, 0, 0);
      if len >= 2 {
        n := (recv[ofs + 1] % 128) as int;
        maskLen := if recv[ofs + 1] >= 128 then 4 else 0;
        msg := Header(0, 0, recv[ofs]);
        if n < 126 && len >= maskLen {
          msg := Header(2 + maskLen, n, msg.flags);
        } else if n == 126 && len >= 4 + maskLen {
          msg := Header(4 + maskLen, At16(recv, ofs + 2), msg.flags);
        } else if len >= 10 + maskLen {
          msg := Header(10 + maskLen, At32(recv, ofs + 2) * 0x1_0000_0000 + At32(recv, ofs + 6), msg.flags);
        }
      }
      assert msg == ParseHeader(b) && maskLen == MaskLen(b);
      assert was == was[..ofs] + b;
      if msg.dataLen > MAX_PAYLOAD {
        return 0, msg;
      }
      if msg.headerLen + msg.dataLen > len {
        return 0, msg;
      }
      if maskLen > 0 {
        UnmaskPayload(ofs, msg, b);
      }
      return msg.headerLen + msg.dataLen, msg;
    }

    /** `mg_ws_cb` on a read: the bytes have been appended to the receive buffer. */
    method WsCb()
      requires pfnData <= |recv|
      modifies this
      ensures State() == Drain(old(State()), masks)
    {
      hide Turn, Drain, ParseHeader, Unmasked, Dispatch, Strip;
      var ofs := pfnData;
      var n, msg := WsProcess(ofs);
      ghost var c := old(State());
      if n == 0 {
        NotReady(c, masks);
      }
      while n > 0
        invariant c.ofs == ofs <= |c.recv| && c.isClient == isClient
        invariant n == FrameLen(Pending(c)) && msg == ParseHeader(Pending(c))
        invariant State() == c.(recv := c.recv[..ofs] + Unmasked(Pending(c)))
        invariant Drain(c, masks) == Drain(old(State()), masks)
        invariant n == 0 ==> State() == c && Drain(c, masks) == c
        decreases |c.recv| - ofs
      {
        HeaderShape(Pending(c));
        ghost var d := Turn(c, masks);
        DrainStep(c, masks);
        TurnSteps(c, masks, State(), msg);
        DispatchFrame(msg.flags, recv[ofs + msg.headerLen..ofs + msg.headerLen + msg.dataLen]);
        ofs := StripFrame(msg);
        c := d;
        n, msg := WsProcess(ofs);
        if n == 0 {
          NotReady(c, masks);
        }
      }
    }

    /** The switch over the opcode. */
    method DispatchFrame(flags: byte, data: seq<byte>)
      requires |data| <= MAX_PAYLOAD
      modifies this
      ensures State() == Dispatch(old(State()), masks, flags, data)
    {
      hide FrameBytes, FinalFlags;
      var final, op := flags >= 128, flags % 16;
      if op == OP_CONTINUE {
        events := events + [Control(flags, data)];
      } else if op == OP_PING {
        var _ := WsSend(data, OP_PONG);
        events := events + [Control(flags, data)];
      } else if op == OP_PONG {
        events := events + [Control(flags, data)];
      } else if op == OP_TEXT || op == OP_BINARY {
        if final {
          events := events + [Message(flags, data)];
        }
      } else if op == OP_CLOSE {
        events := events + [Control(flags, data)];
        isClosing := true;
      } else {
        isClosing := true;
        events := events + [Error(op)];
      }
    }

    /** Keeping or dropping the frame just handled. */
    method StripFrame(msg: Header) returns (ofs: nat)
      requires msg.headerLen >= 2 && pfnData + msg.headerLen + msg.dataLen <= |recv|
      modifies this
      ensures State() == Strip(old(State()), msg.flags, msg.headerLen, msg.dataLen)
      ensures ofs == pfnData
    {
      hide Delete, FirstByte;
      ofs := pfnData;
      var len := msg.headerLen + msg.dataLen;
      var headerLen := msg.headerLen;
      var final, op := msg.flags >= 128, msg.flags % 16;
      if !final || op == 0 {
        if op != 0 {
          ofs := ofs + 1;
          len := len - 1;
          headerLen := headerLen - 1;
        }
        IobufDel(ofs, headerLen);
        len := len - headerLen;
        ofs := ofs + len;
        pfnData := ofs;
      }
      if final && op != 0 {
        IobufDel(ofs, len);
      }
      if final && op == 0 {
        var flags := FirstByte(recv);
        if ofs == 0 {
          events := events + [Garbled(flags)];
        } else {
          events := events + [Message(flags, recv[1..1 + (ofs - 1)])];
        }
        DeleteFront(recv, ofs);
        IobufDel(0, ofs);
        ofs := 0;
        pfnData := 0;
      }
    }

    /** The loop of `ws_process` over the payload. */
    method UnmaskPayload(ofs: nat, msg: Header, ghost b: seq<byte>)
      requires ofs <= |recv| && b == recv[ofs..] && msg == ParseHeader(b)
      requires MaskLen(b) > 0 && msg.dataLen <= MAX_PAYLOAD && msg.headerLen + msg.dataLen <= |b|
      modifies this`recv
      ensures recv == old(recv)[..ofs] + Unmasked(b)
    {
      hide ParseHeader, Xor, UnmaskedAt;
      HeaderShape(b);
      if msg.dataLen == 0 {
        assert recv == recv[..ofs] + b;
        NothingMasked(b);
        return;
      }
      ghost var was := recv;
      var p := ofs + msg.headerLen;
      var i := 0;
      MaskedSoFar(was, p, 0);
      while i < msg.dataLen
        invariant i <= msg.dataLen && recv == UnmaskedAt(was, p, i)
      {
        MaskedSoFar(was, p, i);
        recv := recv[p + i := Xor(recv[p + i], recv[p - 4 + i % 4])];
        i := i + 1;
      }
      UnmaskedWhole(was, ofs, b);
    }
  }

  lemma {:induction false} DrainStep(c: Conn, masks: nat -> Mask)
    requires FrameReady(c)
    ensures Drain(c, masks) == Drain(Turn(c, masks), masks)
  {
  }

  /** Without a complete frame the buffer is left as it is. */
  lemma {:induction false} NotReady(c: Conn, masks: nat -> Mask)
    requires c.ofs <= |c.recv| && FrameLen(Pending(c)) == 0
    ensures Drain(c, masks) == c
    ensures c.(recv := c.recv[..c.ofs] + Unmasked(Pending(c))) == c
  {
    assert c.recv == c.recv[..c.ofs] + c.recv[c.ofs..];
  }

  /** A turn is dispatch then strip, on the unmasked buffer. */
  lemma {:induction false} TurnSteps(c: Conn, masks: nat -> Mask, now: Conn, h: Header)
    requires FrameReady(c) && h == ParseHeader(Pending(c))
    requires now == c.(recv := c.recv[..c.ofs] + Unmasked(Pending(c)))
    ensures h.headerLen >= 2 && h.dataLen <= MAX_PAYLOAD && c.ofs + h.headerLen + h.dataLen <= |now.recv|
    ensures var data := now.recv[c.ofs + h.headerLen..c.ofs + h.headerLen + h.dataLen];
            Turn(c, masks) == Strip(Dispatch(now, masks, h.flags, data), h.flags, h.headerLen, h.dataLen)
  {
    hide ParseHeader, Unmasked, Dispatch, Strip, MaskLen;
    HeaderShape(Pending(c));
    var b := Unmasked(Pending(c));
    assert now.recv[c.ofs + h.headerLen..c.ofs + h.headerLen + h.dataLen]
           == b[h.headerLen..h.headerLen + h.dataLen];
  }

  lemma {:induction false} NothingMasked(b: seq<byte>)
    requires ParseHeader(b).dataLen == 0
    ensures Unmasked(b) == b
  {
  }

  lemma {:induction false} UnmaskedWhole(s: seq<byte>, ofs: nat, b: seq<byte>)
    requires ofs <= |s| && b == s[ofs..]
    requires var h := ParseHeader(b);
             MaskLen(b) > 0 && h.dataLen <= MAX_PAYLOAD && h.headerLen + h.dataLen <= |b| && h.headerLen >= 6
    ensures var h := ParseHeader(b);
            UnmaskedAt(s, ofs + h.headerLen, h.dataLen) == s[..ofs] + Unmasked(b)
  {
    hide ParseHeader, MaskLen, UnmaskedAt, Unmasked;
    var h := ParseHeader(b);
    UnmaskedIs(b);
    JoinFour(s, ofs, b, h.headerLen, h.dataLen);
  }

  lemma {:induction false} UnmaskedIs(b: seq<byte>)
    requires var h := ParseHeader(b);
             MaskLen(b) > 0 && h.dataLen <= MAX_PAYLOAD && h.headerLen + h.dataLen <= |b| && h.headerLen >= 6
    ensures var h := ParseHeader(b);
            Unmasked(b) == UnmaskedAt(b, h.headerLen, h.dataLen)
  {
    hide ParseHeader, MaskLen, UnmaskedAt;
  }

  lemma {:induction false} SliceOfTail(s: seq<byte>, ofs: nat, i: nat, j: nat)
    requires i <= j && ofs + j <= |s|
    ensures s[ofs + i..ofs + j] == s[ofs..][i..j]
  {
  }

  lemma {:induction false} JoinFour(s: seq<byte>, ofs: nat, b: seq<byte>, k: nat, n: nat)
    requires ofs <= |s| && b == s[ofs..] && 4 <= k && k + n <= |b|
    ensures UnmaskedAt(s, ofs + k, n) == s[..ofs] + UnmaskedAt(b, k, n)
  {
    hide Masked;
    SliceOfTail(s, ofs, k, k + n);
    SliceOfTail(s, ofs, k - 4, k);
    assert s[..ofs + k] == s[..ofs] + b[..k];
    assert s[ofs + k + n..] == b[k + n..];
  }

  /** Moving the payload back makes room for the header in front of it. */
  lemma {:induction false} Shifted(was: seq<byte>, fill: seq<byte>, header: seq<byte>, len: nat)
    requires len <= |was| && |fill| == |header|
    ensures var s := was + fill;
            var p := |s| - len;
            var moved := s[..p] + s[p - |header|..p - |header| + len];
            moved[..p - |header|] + header + moved[p..] == was[..|was| - len] + header + was[|was| - len..]
  {
    var s := was + fill;
    var p := |s| - len;
    var moved := s[..p] + s[p - |header|..p - |header| + len];
    assert moved[p..] == was[|was| - len..];
    assert moved[..p - |header|] == was[..|was| - len];
  }

  /** Masking the tail behind a built header completes the frame: the mask is the header's last four octets. */
  lemma {:induction false} HeaderTail(before: seq<byte>, header: seq<byte>, data: seq<byte>, flags: byte, mask: seq<byte>)
    requires |data| < 0x1_0000_0000_0000_0000 && (mask == [] || |mask| == 4)
    requires header == HeaderBytes(flags, |data|, mask)
    ensures |mask| <= |header|
    ensures MaskTail(before + header + data, |data|, mask != []) == before + FrameBytes(flags, data, mask)
  {
    hide Lengths, Masked;
    var s := before + header + data;
    var p := |before| + |header|;
    assert header[|header| - |mask|..] == mask;
    assert s[..p] == before + header && s[p..] == data;
    assert s[p - |mask|..p] == header[|header| - |mask|..];
  }
}
