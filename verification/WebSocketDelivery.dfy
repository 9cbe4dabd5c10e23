/**
 * What a WebSocket connection delivers: the same whatever the read boundaries,
 * and for a well-formed stream exactly its messages (section 5.4 of RFC 6455).
 */
module WebSocketDelivery {
  import opened Bytes
  import opened WebSocket
  import opened WebSocketConnection

  // ------------------------------------------------------------------
  // Read boundaries

  /**
   * The next frame is a final continuation without payload though nothing was
   * kept, and a nonzero byte has been read behind it: the handler is given that
   * byte as the flags, where it would be given zero had the read ended here.
   */
  predicate Exposed(c: Conn)
    requires FrameReady(c)
  {
    var h := ParseHeader(Pending(c));
    && c.ofs == 0 && h.flags >= 128 && h.flags % 16 == 0 && h.dataLen == 0
    && |c.recv| > h.headerLen && c.recv[h.headerLen] != 0
  }

  /** No turn of the loop is exposed. */
  predicate Unexposed(c: Conn, masks: nat -> Mask)
    requires c.ofs <= |c.recv|
    decreases |c.recv| - c.ofs
  {
    FrameReady(c) ==> !Exposed(c) && Unexposed(Turn(c, masks), masks)
  }

  function More(c: Conn, bytes: seq<byte>): Conn {
    c.(recv := c.recv + bytes)
  }

  /** The byte that stands where a frame of this length has been deleted is zero or absent. */
  predicate QuietAfter(s: seq<byte>, n: nat) {
    |s| > n ==> s[n] == 0
  }

  lemma {:induction false} StripMore(c: Conn, flags: byte, headerLen: nat, dataLen: nat, bytes: seq<byte>)
    requires headerLen >= 2 && c.ofs + headerLen + dataLen <= |c.recv|
    requires c.ofs == 0 && flags >= 128 && flags % 16 == 0 && dataLen == 0 ==> QuietAfter(c.recv + bytes, headerLen)
    ensures Strip(More(c, bytes), flags, headerLen, dataLen) == More(Strip(c, flags, headerLen, dataLen), bytes)
  {
    hide Delete, HandOver;
    var final, op := flags >= 128, flags % 16;
    if !final && op != 0 {
      DeleteMore(c.recv, c.ofs + 1, headerLen - 1, bytes);
    } else if final && op != 0 {
      DeleteMore(c.recv, c.ofs, headerLen + dataLen, bytes);
    } else {
      DeleteMore(c.recv, c.ofs, headerLen, bytes);
      var d := c.(recv := Delete(c.recv, c.ofs, headerLen), ofs := c.ofs + dataLen);
      if final {
        if d.ofs == 0 {
          DeleteFront(c.recv, headerLen);
          DeleteFront(c.recv + bytes, headerLen);
        }
        HandOverMore(d, bytes);
      }
    }
  }

  lemma {:induction false} DeleteMore(s: seq<byte>, at: nat, n: nat, bytes: seq<byte>)
    requires at + n <= |s|
    ensures Delete(s + bytes, at, n) == Delete(s, at, n) + bytes
  {
    assert (s + bytes)[..at] == s[..at] && (s + bytes)[at + n..] == s[at + n..] + bytes;
  }

  lemma {:induction false} HandOverMore(c: Conn, bytes: seq<byte>)
    requires c.ofs <= |c.recv|
    requires c.ofs == 0 ==> QuietAfter(c.recv + bytes, 0)
    ensures HandOver(More(c, bytes)) == More(HandOver(c), bytes)
  {
    assert (c.recv + bytes)[c.ofs..] == c.recv[c.ofs..] + bytes;
    if c.ofs > 0 {
      assert (c.recv + bytes)[1..c.ofs] == c.recv[1..c.ofs];
    } else if c.recv != [] {
      assert (c.recv + bytes)[0] == c.recv[0];
    }
  }

  lemma {:induction false} DispatchMore(c: Conn, masks: nat -> Mask, flags: byte, data: seq<byte>, bytes: seq<byte>)
    requires |data| <= MAX_PAYLOAD
    ensures Dispatch(More(c, bytes), masks, flags, data) == More(Dispatch(c, masks, flags, data), bytes)
  {
    hide FrameBytes;
  }

  lemma {:induction false} ReadyMore(c: Conn, bytes: seq<byte>)
    requires FrameReady(c)
    ensures FrameReady(More(c, bytes)) && Pending(More(c, bytes)) == Pending(c) + bytes
    ensures ParseHeader(Pending(More(c, bytes))) == ParseHeader(Pending(c))
  {
    hide ParseHeader, FrameLen;
    assert Pending(More(c, bytes)) == Pending(c) + bytes;
    FrameLenExtends(Pending(c), bytes);
  }

  /** Unmasking leaves what is behind the frame. */
  lemma {:induction false} UnmaskedBehind(b: seq<byte>)
    requires FrameLen(b) > 0
    ensures Unmasked(b)[FrameLen(b)..] == b[FrameLen(b)..]
  {
    hide ParseHeader, MaskLen, Masked;
    HeaderShape(b);
  }

  /** An unexposed orphan continuation has nothing but a zero behind it. */
  lemma {:induction false} QuietTurn(c: Conn, bytes: seq<byte>)
    requires FrameReady(c) && FrameReady(More(c, bytes)) && !Exposed(More(c, bytes))
    ensures var h := ParseHeader(Pending(c));
      c.ofs == 0 && h.flags >= 128 && h.flags % 16 == 0 && h.dataLen == 0 ==>
        QuietAfter(Unmasked(Pending(c)) + bytes, h.headerLen)
  {
    hide ParseHeader, Unmasked, FrameLen;
    var b, m := Pending(c), More(c, bytes);
    var h := ParseHeader(b);
    ReadyMore(c, bytes);
    if c.ofs == 0 && h.flags >= 128 && h.flags % 16 == 0 && h.dataLen == 0 {
      FrameLenExtends(b, bytes);
      ReadyLength(m);
      UnmaskedBehind(b + bytes);
      assert m.recv == b + bytes;
      QuietBehind(m.recv, Unmasked(b) + bytes, h.headerLen);
    }
  }

  lemma {:induction false} SliceFront(a: seq<byte>, b: seq<byte>, i: nat, j: nat)
    requires i <= j <= |a|
    ensures (a + b)[i..j] == a[i..j]
  {
  }

  lemma {:induction false} OnlyRecv(d: Conn, e: Conn, suffix: seq<byte>)
    requires More(d, suffix) == e
    ensures d == e.(recv := d.recv)
  {
  }

  lemma {:induction false} SamePrefix(a: seq<byte>, s: seq<byte>, b: seq<byte>, t: seq<byte>)
    requires a + s == b + t && |s| == |t|
    ensures a == b && s == t
  {
    assert a == (a + s)[..|a|] && b == (b + t)[..|b|];
    assert s == (a + s)[|a|..] && t == (b + t)[|b|..];
  }

  /** A complete frame is handled in the same way whether or not more bytes follow it. */
  lemma {:induction false} TurnMore(c: Conn, masks: nat -> Mask, bytes: seq<byte>)
    requires FrameReady(c) && (FrameReady(More(c, bytes)) ==> !Exposed(More(c, bytes)))
    ensures FrameReady(More(c, bytes)) && Turn(More(c, bytes), masks) == More(Turn(c, masks), bytes)
  {
    hide Turn, ParseHeader, Unmasked, Dispatch, Strip, MaskLen, FrameLen, Exposed, QuietAfter;
    var b, m := Pending(c), More(c, bytes);
    ReadyMore(c, bytes);
    FrameLenExtends(b, bytes);
    var h, u := ParseHeader(b), Unmasked(b);
    var c1 := c.(recv := c.recv[..c.ofs] + u);
    var m1 := m.(recv := m.recv[..m.ofs] + Unmasked(Pending(m)));
    assert m1 == More(c1, bytes);
    TurnSteps(c, masks, c1, h);
    TurnSteps(m, masks, m1, h);
    var at, end := c.ofs + h.headerLen, c.ofs + h.headerLen + h.dataLen;
    var data := c1.recv[at..end];
    SliceFront(c1.recv, bytes, at, end);
    DispatchMore(c1, masks, h.flags, data, bytes);
    QuietTurn(c, bytes);
    assert c.ofs == 0 ==> c1.recv == u;
    StripMore(Dispatch(c1, masks, h.flags, data), h.flags, h.headerLen, h.dataLen, bytes);
  }

  lemma {:induction false} ReadyLength(c: Conn)
    requires FrameReady(c)
    ensures var h := ParseHeader(Pending(c)); FrameLen(Pending(c)) == h.headerLen + h.dataLen
  {
  }

  lemma {:induction false} QuietBehind(s: seq<byte>, u: seq<byte>, k: nat)
    requires |s| == |u| && k <= |s| && s[k..] == u[k..] && QuietAfter(s, k)
    ensures QuietAfter(u, k)
  {
    if |u| > k {
      assert u[k] == u[k..][0];
    }
  }

  lemma {:induction false} TurnDecreases(c: Conn, masks: nat -> Mask)
    requires FrameReady(c)
    ensures c.ofs <= |c.recv|
    ensures var d := Turn(c, masks);
            d.ofs <= |d.recv| && |d.recv| - d.ofs == |c.recv| - c.ofs - FrameLen(Pending(c)) < |c.recv| - c.ofs
  {
  }

  lemma {:induction false} UnexposedStep(c: Conn, masks: nat -> Mask)
    requires FrameReady(c)
    ensures Unexposed(c, masks) <==> !Exposed(c) && Unexposed(Turn(c, masks), masks)
  {
  }

  /** Handling what is there first changes nothing of what comes out. */
  lemma {:induction false} DrainMore(c: Conn, masks: nat -> Mask, bytes: seq<byte>)
    requires c.ofs <= |c.recv| && Unexposed(More(c, bytes), masks)
    ensures Drain(More(Drain(c, masks), bytes), masks) == Drain(More(c, bytes), masks)
    ensures Unexposed(More(Drain(c, masks), bytes), masks)
    ensures !FrameReady(Drain(c, masks))
    decreases |c.recv| - c.ofs
  {
    hide Turn, Exposed, FrameReady, Unexposed, Pending;
    if FrameReady(c) {
      TurnDecreases(c, masks);
      ReadyMore(c, bytes);
      UnexposedStep(More(c, bytes), masks);
      TurnMore(c, masks, bytes);
      DrainMore(Turn(c, masks), masks, bytes);
      DrainStep(c, masks);
      DrainStep(More(c, bytes), masks);
    }
  }

  /** Several reads one after another. */
  function ReadAll(c: Conn, masks: nat -> Mask, pieces: seq<seq<byte>>): (d: Conn)
    requires c.ofs <= |c.recv|
    ensures d.ofs <= |d.recv|
    decreases pieces
  {
    if pieces == [] then c else ReadAll(Read(c, masks, pieces[0]), masks, pieces[1..])
  }

  /** Any cutting of an unexposed stream into reads gives what one read of it gives. */
  lemma {:induction false} CutsDoNotMatter(c: Conn, masks: nat -> Mask, pieces: seq<seq<byte>>)
    requires c.ofs <= |c.recv| && !FrameReady(c)
    requires Unexposed(More(c, Flatten(pieces)), masks)
    ensures ReadAll(c, masks, pieces) == Read(c, masks, Flatten(pieces))
    decreases pieces
  {
    hide Exposed, FrameReady, Unexposed, Turn;
    if pieces == [] {
      assert More(c, []) == c;
    } else {
      var first, rest := pieces[0], Flatten(pieces[1..]);
      var d := More(c, first);
      assert More(d, rest) == More(c, Flatten(pieces)) by {
        assert c.recv + (first + rest) == (c.recv + first) + rest;
      }
      DrainMore(d, masks, rest);
      CutsDoNotMatter(Drain(d, masks), masks, pieces[1..]);
    }
  }

  // ------------------------------------------------------------------
  // And only unexposed streams are safe to cut

  lemma {:induction false} EventsGrow(c: Conn, masks: nat -> Mask)
    requires c.ofs <= |c.recv|
    ensures c.events <= Drain(c, masks).events
    decreases |c.recv| - c.ofs
  {
    hide Turn, FrameReady;
    if FrameReady(c) {
      TurnDecreases(c, masks);
      TurnEvents(c, masks);
      EventsGrow(Turn(c, masks), masks);
    }
  }

  lemma {:induction false} TurnEvents(c: Conn, masks: nat -> Mask)
    requires FrameReady(c)
    ensures c.events <= Turn(c, masks).events
  {
    hide ParseHeader, Unmasked, MaskLen, FrameBytes, Delete;
    HeaderShape(Pending(c));
  }

  /** The next frame is a final continuation without payload, and nothing was kept. */
  predicate Orphan(c: Conn)
    requires FrameReady(c)
  {
    var h := ParseHeader(Pending(c));
    c.ofs == 0 && h.flags >= 128 && h.flags % 16 == 0 && h.dataLen == 0
  }

  /** An exposed turn reports the following byte, and zero when the buffer ends behind the frame. */
  lemma {:induction false} ExposedTurn(c: Conn, masks: nat -> Mask, cut: Conn)
    requires FrameReady(c) && Exposed(c)
    requires cut == c.(recv := c.recv[..FrameLen(Pending(c))])
    ensures FrameReady(cut) && FrameLen(Pending(cut)) == FrameLen(Pending(c))
    ensures |Turn(c, masks).events| == |Turn(cut, masks).events| == |c.events| + 2
    ensures Turn(c, masks).events[|c.events| + 1] != Turn(cut, masks).events[|c.events| + 1]
  {
    hide Turn, ParseHeader, MaskLen, FrameLen;
    var n := FrameLen(Pending(c));
    assert Pending(c) == c.recv && Pending(cut) == cut.recv;
    FrameLenPrefix(c.recv, n);
    ReadyLength(c);
    FrameLenExtends(cut.recv, c.recv[n..]);
    assert cut.recv + c.recv[n..] == c.recv;
    OrphanTurn(c, masks);
    OrphanTurn(cut, masks);
  }

  lemma {:induction false} OrphanTurn(c: Conn, masks: nat -> Mask)
    requires FrameReady(c) && Orphan(c)
    ensures var h := ParseHeader(Pending(c));
            Turn(c, masks).events == c.events + [Control(h.flags, [])]
                                     + [Garbled(if |c.recv| > h.headerLen then c.recv[h.headerLen] else 0)]
  {
    hide Turn, ParseHeader, MaskLen, Unmasked, Dispatch, Strip, FrameLen;
    var b := Pending(c);
    assert b == c.recv;
    ReadyLength(c);
    UnmaskedBehind(b);
    var u, h := Unmasked(b), ParseHeader(b);
    var c1 := c.(recv := c.recv[..c.ofs] + u);
    assert c1.recv == u;
    TurnSteps(c, masks, c1, h);
    assert c1.recv[c.ofs + h.headerLen..c.ofs + h.headerLen + h.dataLen] == [];
    OrphanSteps(c1, masks, h.flags, h.headerLen);
    if |b| > h.headerLen {
      assert u[h.headerLen..][0] == b[h.headerLen..][0];
    }
  }

  lemma {:induction false} OrphanSteps(c: Conn, masks: nat -> Mask, flags: byte, headerLen: nat)
    requires c.ofs == 0 && flags >= 128 && flags % 16 == 0 && 2 <= headerLen <= |c.recv|
    ensures Strip(Dispatch(c, masks, flags, []), flags, headerLen, 0).events
            == c.events + [Control(flags, [])] + [Garbled(FirstByte(c.recv[headerLen..]))]
  {
    DeleteFront(c.recv, headerLen);
  }

  /** From an exposed turn on, cutting behind its frame changes what is delivered. */
  lemma {:induction false} ExposedShows(c: Conn, masks: nat -> Mask) returns (pre: seq<byte>, rest: seq<byte>)
    requires c.ofs <= |c.recv| && !Unexposed(c, masks)
    ensures pre + rest == c.recv && c.ofs <= |pre|
    ensures FrameReady(c.(recv := pre))
    ensures Drain(More(Drain(c.(recv := pre), masks), rest), masks) != Drain(c, masks)
    decreases |c.recv| - c.ofs
  {
    hide Turn, Exposed;
    assert FrameReady(c);
    UnexposedStep(c, masks);
    var n := FrameLen(Pending(c));
    DrainStep(c, masks);
    if Exposed(c) {
      assert c.ofs == 0 by {
        ExposedAtStart(c);
      }
      pre, rest := c.recv[..n], c.recv[n..];
      var cut := c.(recv := pre);
      ExposedTurn(c, masks, cut);
      DrainStep(cut, masks);
      TurnDecreases(c, masks);
      TurnDecreases(cut, masks);
      EventsGrow(Turn(c, masks), masks);
      EventsGrow(Turn(cut, masks), masks);
      EventsGrow(More(Drain(cut, masks), rest), masks);
    } else {
      var d := Turn(c, masks);
      TurnDecreases(c, masks);
      var pre1;
      pre1, rest := ExposedShows(d, masks);
      pre := c.recv[..|c.recv| - |rest|];
      SuffixKept(c, masks, pre1, rest);
      var x := c.(recv := pre);
      DrainStep(x, masks);
    }
  }

  lemma {:induction false} ExposedAtStart(c: Conn)
    requires FrameReady(c) && Exposed(c)
    ensures c.ofs == 0
  {
  }

  /** A turn does not look at what follows its frame, so the same suffix can be left out before it. */
  lemma {:induction false} SuffixKept(c: Conn, masks: nat -> Mask, pre1: seq<byte>, rest: seq<byte>)
    requires FrameReady(c) && !Exposed(c)
    requires Turn(c, masks).recv == pre1 + rest && Turn(c, masks).ofs <= |pre1|
    ensures |rest| <= |c.recv|
    ensures var pre := c.recv[..|c.recv| - |rest|];
            var x := c.(recv := pre);
            && pre + rest == c.recv && c.ofs <= |pre| && FrameReady(x)
            && Turn(x, masks) == Turn(c, masks).(recv := pre1)
  {
    hide Turn, Exposed, ParseHeader;
    TurnDecreases(c, masks);
    var n := FrameLen(Pending(c));
    var m := |c.recv| - |rest|;
    assert c.ofs + n <= m;
    var pre := c.recv[..m];
    var x := c.(recv := pre);
    FrameLenPrefix(Pending(c), m - c.ofs);
    assert Pending(x) == Pending(c)[..m - c.ofs];
    var suffix := c.recv[m..];
    assert pre + suffix == c.recv;
    assert More(x, suffix) == c;
    TurnMore(x, masks, suffix);
    SamePrefix(Turn(x, masks).recv, suffix, pre1, rest);
    OnlyRecv(Turn(x, masks), Turn(c, masks), suffix);
  }

  /** A stream is safe to cut anywhere if and only if no turn of its processing is exposed. */
  lemma {:induction false} SafeToCutIff(c: Conn, masks: nat -> Mask, bytes: seq<byte>)
    requires c.ofs <= |c.recv| && !FrameReady(c)
    ensures Unexposed(More(c, bytes), masks) <==>
            forall n :: 0 <= n <= |bytes| ==>
              Read(Read(c, masks, bytes[..n]), masks, bytes[n..]) == Read(c, masks, bytes)
  {
    hide Exposed, Turn, Unexposed, Read;
    if Unexposed(More(c, bytes), masks) {
      forall n | 0 <= n <= |bytes|
        ensures Read(Read(c, masks, bytes[..n]), masks, bytes[n..]) == Read(c, masks, bytes)
      {
        UnexposedIsSafe(c, masks, bytes, n);
      }
    } else {
      var n := ExposedIsUnsafe(c, masks, bytes);
    }
  }

  lemma {:induction false} UnexposedIsSafe(c: Conn, masks: nat -> Mask, bytes: seq<byte>, n: nat)
    requires c.ofs <= |c.recv| && n <= |bytes| && Unexposed(More(c, bytes), masks)
    ensures Read(Read(c, masks, bytes[..n]), masks, bytes[n..]) == Read(c, masks, bytes)
  {
    hide Exposed, Turn, Drain, Unexposed;
    assert bytes == bytes[..n] + bytes[n..];
    assert More(More(c, bytes[..n]), bytes[n..]) == More(c, bytes);
    DrainMore(More(c, bytes[..n]), masks, bytes[n..]);
  }

  lemma {:induction false} ExposedIsUnsafe(c: Conn, masks: nat -> Mask, bytes: seq<byte>) returns (n: nat)
    requires c.ofs <= |c.recv| && !FrameReady(c) && !Unexposed(More(c, bytes), masks)
    ensures n <= |bytes|
    ensures Read(Read(c, masks, bytes[..n]), masks, bytes[n..]) != Read(c, masks, bytes)
  {
    hide Exposed, Turn, Drain, Unexposed;
    var d := More(c, bytes);
    var pre, rest := ExposedShows(d, masks);
    ReadyPrefixIsLong(c, pre, rest, bytes);
    n := |pre| - |c.recv|;
    assert pre == c.recv + bytes[..n] && rest == bytes[n..] by {
      CutAt(c.recv, bytes, pre, rest);
    }
    assert d.(recv := pre) == More(c, bytes[..n]);
  }

  lemma {:induction false} ReadyPrefixIsLong(c: Conn, pre: seq<byte>, rest: seq<byte>, bytes: seq<byte>)
    requires c.ofs <= |c.recv| && !FrameReady(c)
    requires pre + rest == c.recv + bytes && c.ofs <= |pre| && FrameReady(c.(recv := pre))
    ensures |pre| >= |c.recv|
  {
    hide FrameReady;
    if |pre| < |c.recv| {
      var tail := c.recv[|pre|..];
      assert c.recv[..|pre|] == (pre + rest)[..|pre|] == pre;
      assert c.recv == pre + tail;
      ReadyMore(c.(recv := pre), tail);
    }
  }

  lemma {:induction false} CutAt(a: seq<byte>, b: seq<byte>, pre: seq<byte>, rest: seq<byte>)
    requires pre + rest == a + b && |pre| >= |a|
    ensures var n := |pre| - |a|;
            n <= |b| && pre == a + b[..n] && rest == b[n..]
  {
    var n := |pre| - |a|;
    assert pre == (pre + rest)[..|pre|] == (a + b)[..|pre|];
    assert rest == (pre + rest)[|pre|..] == (a + b)[|pre|..];
  }

  /** The smallest case: an empty final continuation, then an empty text message. */
  lemma {:induction false} CutMatters(masks: nat -> Mask)
    ensures var c := Conn(false, [], 0, [], 0, false, []);
            && Read(Read(c, masks, [0x80, 0x00]), masks, [0x81, 0x00]).events
               != Read(c, masks, [0x80, 0x00, 0x81, 0x00]).events
  {
    hide Turn, Drain, Exposed, FrameReady, FrameLen;
    var c := Conn(false, [], 0, [], 0, false, []);
    var whole, cut := More(c, [0x80, 0x00, 0x81, 0x00]), More(c, [0x80, 0x00]);
    SmallestExposed(whole);
    assert whole.recv[..2] == cut.recv;
    assert whole.recv == [0x80, 0x00, 0x81, 0x00] && cut.recv == [0x80, 0x00];
    ExposedTurn(whole, masks, cut);
    DrainStep(whole, masks);
    DrainStep(cut, masks);
    TurnDecreases(whole, masks);
    TurnDecreases(cut, masks);
    EventsGrow(Turn(whole, masks), masks);
    EventsGrow(Turn(cut, masks), masks);
    EventsGrow(More(Drain(cut, masks), [0x81, 0x00]), masks);
  }

  lemma {:induction false} SmallestExposed(c: Conn)
    requires c.ofs == 0 && c.recv == [0x80, 0x00, 0x81, 0x00]
    ensures FrameReady(c) && FrameLen(Pending(c)) == 2 && Exposed(c)
  {
    assert Pending(c) == c.recv;
  }

  // ------------------------------------------------------------------
  // When a message of wrapped length is handed over

  predicate AnyGarbled(events: seq<Event>) {
    exists j :: 0 <= j < |events| && events[j].Garbled?
  }

  /** What the later state's handler was called with since the earlier one. */
  function Since(c: Conn, d: Conn): seq<Event>
    requires c.events <= d.events
  {
    d.events[|c.events|..]
  }

  lemma {:induction false} AnyGarbledConcat(a: seq<Event>, b: seq<Event>)
    ensures AnyGarbled(a + b) <==> AnyGarbled(a) || AnyGarbled(b)
  {
    if AnyGarbled(a) {
      var j :| 0 <= j < |a| && a[j].Garbled?;
      assert (a + b)[j].Garbled?;
    }
    if AnyGarbled(b) {
      var j :| 0 <= j < |b| && b[j].Garbled?;
      assert (a + b)[|a| + j].Garbled?;
    }
  }

  lemma {:induction false} SinceTrans(c: Conn, d: Conn, e: Conn)
    requires c.events <= d.events && d.events <= e.events
    ensures c.events <= e.events && Since(c, e) == Since(c, d) + Since(d, e)
  {
  }

  lemma {:induction false} DispatchNotGarbled(c: Conn, masks: nat -> Mask, flags: byte, data: seq<byte>)
    requires |data| <= MAX_PAYLOAD
    ensures c.events <= Dispatch(c, masks, flags, data).events
    ensures !AnyGarbled(Since(c, Dispatch(c, masks, flags, data)))
  {
    hide FrameBytes;
  }

  lemma {:induction false} StripGarbledIff(c: Conn, flags: byte, headerLen: nat, dataLen: nat)
    requires headerLen >= 2 && c.ofs + headerLen + dataLen <= |c.recv|
    ensures var d := Strip(c, flags, headerLen, dataLen);
      && c.events <= d.events
      && (AnyGarbled(Since(c, d)) <==> flags >= 128 && flags % 16 == 0 && c.ofs == 0 && dataLen == 0)
  {
    hide Delete;
    var d := Strip(c, flags, headerLen, dataLen);
    if flags >= 128 && flags % 16 == 0 {
      assert |Since(c, d)| == 1;
      assert Since(c, d)[0].Garbled? <==> c.ofs + dataLen == 0;
    } else {
      assert Since(c, d) == [];
    }
  }

  /** One turn hands over a message of wrapped length exactly if its frame is an orphan. */
  lemma {:induction false} TurnGarbledIff(c: Conn, masks: nat -> Mask)
    requires FrameReady(c)
    ensures c.events <= Turn(c, masks).events
    ensures AnyGarbled(Since(c, Turn(c, masks))) <==> Orphan(c)
  {
    hide ParseHeader, Unmasked, Turn, Dispatch, Strip, AnyGarbled, FrameLen;
    var h := ParseHeader(Pending(c));
    var now := c.(recv := c.recv[..c.ofs] + Unmasked(Pending(c)));
    TurnSteps(c, masks, now, h);
    var data := now.recv[c.ofs + h.headerLen..c.ofs + h.headerLen + h.dataLen];
    var mid := Dispatch(now, masks, h.flags, data);
    DispatchNotGarbled(now, masks, h.flags, data);
    StripGarbledIff(mid, h.flags, h.headerLen, h.dataLen);
    SinceTrans(now, mid, Turn(c, masks));
    AnyGarbledConcat(Since(now, mid), Since(mid, Turn(c, masks)));
  }

  /** Some turn over the buffer meets an orphan. */
  predicate SomeOrphan(c: Conn, masks: nat -> Mask)
    requires c.ofs <= |c.recv|
    decreases |c.recv| - c.ofs
  {
    hide Turn;
    FrameReady(c) && (TurnDecreases(c, masks); Orphan(c) || SomeOrphan(Turn(c, masks), masks))
  }

  /** A whole buffer gives such a message exactly if some turn meets an orphan. */
  lemma {:induction false} DrainGarbledIff(c: Conn, masks: nat -> Mask)
    requires c.ofs <= |c.recv|
    ensures c.events <= Drain(c, masks).events
    ensures AnyGarbled(Since(c, Drain(c, masks))) <==> SomeOrphan(c, masks)
    decreases |c.recv| - c.ofs
  {
    hide Turn, FrameReady, Orphan, AnyGarbled;
    if FrameReady(c) {
      var d := Turn(c, masks);
      TurnDecreases(c, masks);
      TurnGarbledIff(c, masks);
      DrainGarbledIff(d, masks);
      SinceTrans(c, d, Drain(d, masks));
      AnyGarbledConcat(Since(c, d), Since(d, Drain(d, masks)));
    } else {
      NoneGarbled(Since(c, c));
    }
  }

  lemma {:induction false} NoneGarbled(events: seq<Event>)
    requires events == []
    ensures !AnyGarbled(events)
  {
  }

  // ------------------------------------------------------------------
  // A connection that is closing is not read any more

  /** The reads the event loop makes: none once the connection is closing. */
  function ReadWhileOpen(c: Conn, masks: nat -> Mask, pieces: seq<seq<byte>>): (d: Conn)
    requires c.ofs <= |c.recv|
    decreases pieces
  {
    if pieces == [] || c.closing then c
    else ReadWhileOpen(Read(c, masks, pieces[0]), masks, pieces[1..])
  }

  lemma {:induction false} TurnStaysClosing(c: Conn, masks: nat -> Mask)
    requires FrameReady(c) && c.closing
    ensures Turn(c, masks).closing
  {
    hide ParseHeader, Unmasked, Turn, FrameBytes, Delete, FrameLen;
    TurnSteps(c, masks, c.(recv := c.recv[..c.ofs] + Unmasked(Pending(c))), ParseHeader(Pending(c)));
  }

  lemma {:induction false} DrainStaysClosing(c: Conn, masks: nat -> Mask)
    requires c.ofs <= |c.recv| && c.closing
    ensures Drain(c, masks).closing
    decreases |c.recv| - c.ofs
  {
    hide Turn, FrameReady;
    if FrameReady(c) {
      TurnDecreases(c, masks);
      TurnStaysClosing(c, masks);
      DrainStaysClosing(Turn(c, masks), masks);
    }
  }

  lemma {:induction false} ReadAllStaysClosing(c: Conn, masks: nat -> Mask, pieces: seq<seq<byte>>)
    requires c.ofs <= |c.recv| && c.closing
    ensures ReadAll(c, masks, pieces).closing
    decreases pieces
  {
    hide Drain;
    if pieces != [] {
      DrainStaysClosing(More(c, pieces[0]), masks);
      ReadAllStaysClosing(Read(c, masks, pieces[0]), masks, pieces[1..]);
    }
  }

  lemma {:induction false} OpenReadsAll(c: Conn, masks: nat -> Mask, pieces: seq<seq<byte>>)
    requires c.ofs <= |c.recv| && !ReadAll(c, masks, pieces).closing
    ensures ReadWhileOpen(c, masks, pieces) == ReadAll(c, masks, pieces)
    decreases pieces
  {
    hide Read;
    if c.closing {
      ReadAllStaysClosing(c, masks, pieces);
    } else if pieces != [] {
      OpenReadsAll(Read(c, masks, pieces[0]), masks, pieces[1..]);
    }
  }

  /** An unexposed stream that leaves the connection open comes through the event loop however it is cut. */
  lemma {:induction false} OpenCutsDoNotMatter(c: Conn, masks: nat -> Mask, pieces: seq<seq<byte>>)
    requires c.ofs <= |c.recv| && !FrameReady(c)
    requires Unexposed(More(c, Flatten(pieces)), masks) && !Read(c, masks, Flatten(pieces)).closing
    ensures ReadWhileOpen(c, masks, pieces) == Read(c, masks, Flatten(pieces))
  {
    hide Read, ReadAll, ReadWhileOpen, Unexposed;
    CutsDoNotMatter(c, masks, pieces);
    OpenReadsAll(c, masks, pieces);
  }

  /** The state in which the connection starts to close, or the end if it never does. */
  function AtClosing(c: Conn, masks: nat -> Mask): (d: Conn)
    requires c.ofs <= |c.recv|
    ensures d.ofs <= |d.recv|
    decreases |c.recv| - c.ofs
  {
    hide Turn;
    if c.closing || !FrameReady(c) then c
    else
      TurnDecreases(c, masks);
      AtClosing(Turn(c, masks), masks)
  }

  lemma {:induction false} ClosingWithin(c: Conn, masks: nat -> Mask)
    requires c.ofs <= |c.recv|
    ensures AtClosing(c, masks).events <= Drain(c, masks).events
    ensures !AtClosing(c, masks).closing ==> AtClosing(c, masks) == Drain(c, masks)
    decreases |c.recv| - c.ofs
  {
    hide Turn, FrameReady;
    EventsGrow(c, masks);
    if FrameReady(c) {
      TurnDecreases(c, masks);
      DrainStep(c, masks);
      ClosingWithin(Turn(c, masks), masks);
    }
  }

  /** Once it is closing, more bytes do not change when it started to. */
  lemma {:induction false} ClosingMore(c: Conn, masks: nat -> Mask, bytes: seq<byte>)
    requires c.ofs <= |c.recv| && Unexposed(More(c, bytes), masks) && Drain(c, masks).closing
    ensures AtClosing(More(c, bytes), masks) == More(AtClosing(c, masks), bytes)
    decreases |c.recv| - c.ofs
  {
    hide Turn, FrameReady, Exposed;
    if !c.closing {
      assert FrameReady(c);
      DrainStep(c, masks);
      TurnDecreases(c, masks);
      ReadyAndMore(c, bytes);
      TurnMore(c, masks, bytes);
      ClosingMore(Turn(c, masks), masks, bytes);
    }
  }

  lemma {:induction false} ReadyAndMore(c: Conn, bytes: seq<byte>)
    requires FrameReady(c)
    ensures FrameReady(More(c, bytes))
  {
    hide FrameReady;
    ReadyMore(c, bytes);
  }

  /** Cutting right behind the frame that starts the closing. */
  lemma {:induction false} ClosingCut(c: Conn, masks: nat -> Mask) returns (pre: seq<byte>, rest: seq<byte>)
    requires c.ofs <= |c.recv| && Unexposed(c, masks) && !c.closing && AtClosing(c, masks).closing
    ensures pre + rest == c.recv && c.ofs <= |pre| && FrameReady(c.(recv := pre))
    ensures var d := Drain(c.(recv := pre), masks); d.closing && d.events == AtClosing(c, masks).events
    decreases |c.recv| - c.ofs
  {
    hide Turn, FrameReady, Exposed, ParseHeader;
    assert FrameReady(c);
    TurnDecreases(c, masks);
    var t := Turn(c, masks);
    if t.closing {
      pre, rest := FrameAlone(c, masks);
    } else {
      var pre1;
      pre1, rest := ClosingCut(t, masks);
      SuffixKept(c, masks, pre1, rest);
      pre := c.recv[..|c.recv| - |rest|];
      DrainStep(c.(recv := pre), masks);
    }
  }

  /** The next frame without what stands behind it. */
  lemma {:induction false} FrameAlone(c: Conn, masks: nat -> Mask) returns (pre: seq<byte>, rest: seq<byte>)
    requires FrameReady(c) && !Exposed(c)
    ensures pre + rest == c.recv && c.ofs <= |pre| && FrameReady(c.(recv := pre))
    ensures var d, t := Drain(c.(recv := pre), masks), Turn(c, masks);
            d.closing == t.closing && d.events == t.events
  {
    hide Turn, Exposed, ParseHeader, FrameLen;
    TurnDecreases(c, masks);
    var n := FrameLen(Pending(c));
    var m := c.ofs + n;
    pre, rest := c.recv[..m], c.recv[m..];
    var x := c.(recv := pre);
    FrameLenPrefix(Pending(c), n);
    assert Pending(x) == Pending(c)[..n];
    assert More(x, rest) == c;
    TurnMore(x, masks, rest);
    TurnDecreases(x, masks);
    var y := Turn(x, masks);
    assert |Pending(y)| == 0;
    DrainStep(x, masks);
  }

  /**
   * Exactly when the event loop does not depend on the cut: nothing is delivered
   * by frames behind the one that starts the closing.
   */
  lemma {:induction false} OpenCutsIff(c: Conn, masks: nat -> Mask, bytes: seq<byte>)
    requires c.ofs <= |c.recv| && !FrameReady(c) && !c.closing && Unexposed(More(c, bytes), masks)
    ensures AtClosing(More(c, bytes), masks).events == Read(c, masks, bytes).events <==>
            forall n :: 0 <= n <= |bytes| ==>
              ReadWhileOpen(c, masks, [bytes[..n], bytes[n..]]).events == Read(c, masks, bytes).events
  {
    hide Turn, Exposed, Unexposed, FrameReady, ReadWhileOpen, Drain;
    if AtClosing(More(c, bytes), masks).events == Read(c, masks, bytes).events {
      forall n | 0 <= n <= |bytes|
        ensures ReadWhileOpen(c, masks, [bytes[..n], bytes[n..]]).events == Read(c, masks, bytes).events
      {
        QuietCut(c, masks, bytes, n);
      }
    } else {
      var d := More(c, bytes);
      ClosingWithin(d, masks);
      var pre, rest := ClosingCut(d, masks);
      ReadyPrefixIsLong(c, pre, rest, bytes);
      var n := |pre| - |c.recv|;
      assert pre == c.recv + bytes[..n] && rest == bytes[n..] by {
        CutAt(c.recv, bytes, pre, rest);
      }
      assert d.(recv := pre) == More(c, bytes[..n]);
      TwoReads(c, masks, bytes[..n], bytes[n..]);
      assert ReadWhileOpen(c, masks, [bytes[..n], bytes[n..]]).events != Read(c, masks, bytes).events;
    }
  }

  lemma {:induction false} TwoReads(c: Conn, masks: nat -> Mask, a: seq<byte>, b: seq<byte>)
    requires c.ofs <= |c.recv| && !c.closing
    ensures var d := Read(c, masks, a); ReadWhileOpen(c, masks, [a, b]) == if d.closing then d else Read(d, masks, b)
  {
    hide Read;
    assert [a, b][1..] == [b] && [b][1..] == [];
    var d := Read(c, masks, a);
    assert ReadWhileOpen(c, masks, [a, b]) == ReadWhileOpen(d, masks, [b]);
    if !d.closing {
      var e := Read(d, masks, b);
      assert ReadWhileOpen(d, masks, [b]) == ReadWhileOpen(e, masks, []) == e;
    }
  }

  lemma {:induction false} QuietCut(c: Conn, masks: nat -> Mask, bytes: seq<byte>, n: nat)
    requires c.ofs <= |c.recv| && !c.closing && n <= |bytes| && Unexposed(More(c, bytes), masks)
    requires AtClosing(More(c, bytes), masks).events == Read(c, masks, bytes).events
    ensures ReadWhileOpen(c, masks, [bytes[..n], bytes[n..]]).events == Read(c, masks, bytes).events
  {
    hide Turn, Exposed, Unexposed, ReadWhileOpen, Drain, AtClosing;
    var a, b := bytes[..n], bytes[n..];
    TwoReads(c, masks, a, b);
    UnexposedIsSafe(c, masks, bytes, n);
    assert More(More(c, a), b) == More(c, bytes) by {
      assert a + b == bytes;
      Associate(c.recv, a, b);
    }
    var d := Read(c, masks, a);
    if d.closing {
      ClosingMore(More(c, a), masks, b);
      ClosingWithin(More(c, a), masks);
      EventsGrow(More(d, b), masks);
    }
  }

  /** After a close frame it does matter: a message in the same read is handled, in a later one it is not. */
  lemma {:induction false} ClosingLosesReads(masks: nat -> Mask)
    ensures var c, close, text := Conn(false, [], 0, [], 0, false, []), [0x88, 0x00], [0x81, 0x00];
      && ReadWhileOpen(c, masks, [close, text]).events == [Control(0x88, [])]
      && ReadWhileOpen(c, masks, [close + text]).events == [Control(0x88, []), Message(0x81, [])]
  {
    hide Read;
    var c := Conn(false, [], 0, [], 0, false, []);
    var close: seq<byte> := [0x88, 0x00];
    var text: seq<byte> := [0x81, 0x00];
    CloseAlone(c, masks);
    CloseThenText(c, masks);
    TwoReads(c, masks, close, text);
    var one := [close + text];
    assert one[1..] == [];
    assert ReadWhileOpen(c, masks, one) == ReadWhileOpen(Read(c, masks, close + text), masks, []);
  }

  lemma {:induction false} EmptyFrame(flags: byte, rest: seq<byte>)
    ensures var b := [flags, 0x00] + rest;
      && ParseHeader(b) == Header(2, 0, flags) && FrameLen(b) == 2 && Unmasked(b) == b && b[2..] == rest
  {
    assert MaskLen([flags, 0x00] + rest) == 0;
  }

  /** An empty close frame or an empty text message at the front of the buffer. */
  lemma {:induction false} EmptyFrameTurn(c: Conn, masks: nat -> Mask, flags: byte, rest: seq<byte>)
    requires c.ofs == 0 && c.recv == [flags, 0x00] + rest && (flags == 0x88 || flags == 0x81)
    ensures FrameReady(c)
    ensures Turn(c, masks) == c.(recv := rest, closing := c.closing || flags == 0x88,
                                 events := c.events + [if flags == 0x88 then Control(flags, []) else Message(flags, [])])
  {
    hide ParseHeader, FrameLen, Unmasked, Turn, SendFrame;
    EmptyFrame(flags, rest);
    assert Pending(c) == c.recv;
    assert c.(recv := c.recv[..c.ofs] + Unmasked(Pending(c))) == c;
    TurnSteps(c, masks, c, Header(2, 0, flags));
    assert c.recv[2..2] == [];
    DeleteFront(c.recv, 2);
  }

  lemma {:induction false} NothingToDrain(c: Conn, masks: nat -> Mask)
    requires c.ofs == 0 && c.recv == []
    ensures Drain(c, masks) == c
  {
    assert Pending(c) == [];
  }

  lemma {:induction false} CloseAlone(c: Conn, masks: nat -> Mask)
    requires c == Conn(false, [], 0, [], 0, false, [])
    ensures Read(c, masks, [0x88, 0x00]).events == [Control(0x88, [])] && Read(c, masks, [0x88, 0x00]).closing
  {
    hide Turn, FrameReady, Drain;
    var d := c.(recv := c.recv + [0x88, 0x00]);
    assert d.recv == [0x88, 0x00] + [];
    EmptyFrameTurn(d, masks, 0x88, []);
    DrainStep(d, masks);
    NothingToDrain(Turn(d, masks), masks);
  }

  lemma {:induction false} CloseThenText(c: Conn, masks: nat -> Mask)
    requires c == Conn(false, [], 0, [], 0, false, [])
    ensures Read(c, masks, [0x88, 0x00] + [0x81, 0x00]).events == [Control(0x88, []), Message(0x81, [])]
  {
    hide Turn, FrameReady, Drain;
    var d := c.(recv := c.recv + ([0x88, 0x00] + [0x81, 0x00]));
    assert d.recv == [0x88, 0x00] + [0x81, 0x00];
    EmptyFrameTurn(d, masks, 0x88, [0x81, 0x00]);
    DrainStep(d, masks);
    var e := Turn(d, masks);
    assert e.recv == [0x81, 0x00] + [];
    EmptyFrameTurn(e, masks, 0x81, []);
    DrainStep(e, masks);
    NothingToDrain(Turn(e, masks), masks);
  }
}
