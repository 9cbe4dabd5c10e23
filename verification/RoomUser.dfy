/**
 * Gluing rebuilt NAL units into frames and handing them over on the marker, from
 * src/application/app_room_user.cpp.
 */
module RoomUser {
  import opened Bytes
  import opened RtpPacket
  import opened FrameAssembler

  const RTP_H264_RECV_BUFFER_SIZE: nat := 0x10_0000

  datatype Delivery = Delivery(data: seq<byte>, ssrc: uint32, timestamp: uint32)

  /** What the receiving side of one user keeps, and what its callback was given. */
  datatype Receiver = Receiver(held: seq<byte>, frame: seq<byte>, delivered: seq<Delivery>)

  /** Accumulate what the assembler holds; a frame that would not fit is started over. */
  function Accumulate(r: Receiver, marker: bool, ssrc: uint32, timestamp: uint32): Receiver {
    var kept := if |r.frame| + |r.held| >= RTP_H264_RECV_BUFFER_SIZE then [] else r.frame;
    if marker then
      r.(frame := [], delivered := r.delivered + [Delivery(kept + r.held, ssrc, timestamp)])
    else
      r.(frame := kept + r.held)
  }

  function ReceivePayload(
    r: Receiver, payload: seq<byte>, marker: bool, ssrc: uint32, timestamp: uint32, past: byte): Receiver
  {
    var p := Push(r.held, payload, past);
    var now := r.(held := p.held);
    if p.ok then Accumulate(now, marker, ssrc, timestamp) else now
  }

  function Receive(r: Receiver, v: View, past: byte): Receiver
    requires v.PayloadInside()
  {
    ReceivePayload(r, v.Payload(), v.marker, v.ssrc, v.timestamp, past)
  }

  /**
   * What is accumulated stays below 1048576 bytes: a part that would reach that
   * starts the frame over, and a marked part hands over the frame so far with it.
   */
  lemma {:induction false} FrameLimit(r: Receiver, marker: bool, ssrc: uint32, timestamp: uint32)
    ensures var now := Accumulate(r, marker, ssrc, timestamp);
            var all := if |r.frame| + |r.held| < 1048576 then r.frame + r.held else r.held;
            && now.held == r.held
            && now.frame == (if marker then [] else all)
            && now.delivered == (if marker then r.delivered + [Delivery(all, ssrc, timestamp)] else r.delivered)
            && (|r.frame| < 1048576 && |r.held| < 1048576 ==> |now.frame| < 1048576 && |all| < 1048576)
  {
    assert [] + r.held == r.held;
  }

  class RoomUser {
    const assembler: RTPH264FrameAssembler
    const buffer: array<byte>
    var usedLen: nat
    var delivered: seq<Delivery>  // the calls of the H.264 callback

    ghost predicate Valid()
      reads this, assembler, assembler.buffer, buffer
    {
      && assembler.buffer != buffer
      && assembler.Valid() && buffer.Length == RTP_H264_RECV_BUFFER_SIZE && usedLen < buffer.Length
    }

    ghost function State(): Receiver
      reads this, assembler, assembler.buffer, buffer
      requires Valid()
    {
      Receiver(assembler.Held(), buffer[..usedLen], delivered)
    }

    constructor ()
      ensures Valid() && fresh(assembler) && fresh(assembler.buffer) && fresh(buffer) && State() == Receiver([], [], [])
    {
      assembler := new RTPH264FrameAssembler();
      buffer := new byte[RTP_H264_RECV_BUFFER_SIZE];
      usedLen, delivered := 0, [];
    }

    /** One call, given what the session receiver returned. */
    method ReceiveVideo(rtp: RTPPacket?, past: byte)
      requires Valid()
      requires rtp != null ==> rtp.View().PayloadInside() && Room(State().held, rtp.View().Payload())
      modifies this, assembler, assembler.buffer, buffer
      ensures Valid()
      ensures State() == if rtp == null then old(State()) else Receive(old(State()), old(rtp.View()), past)
    {
      if rtp == null {
        return;
      }
      hide Room, ReceivePayload;
      ReceivePayloadBytes(rtp.packet[rtp.payloadStart..rtp.payloadStart + rtp.payloadLen],
                          rtp.marker, rtp.ssrc, rtp.timestamp, past);
    }

    method ReceivePayloadBytes(payload: seq<byte>, marker: bool, ssrc: uint32, ts: uint32, past: byte)
      requires Valid() && Room(State().held, payload)
      modifies this, assembler, assembler.buffer, buffer
      ensures Valid()
      ensures State() == ReceivePayload(old(State()), payload, marker, ssrc, ts, past)
    {
      hide Push, Room, Accumulate;
      ghost var was := State();
      var ok := assembler.PushPacket(payload, past);
      assert State() == was.(held := Push(was.held, payload, past).held);
      if ok {
        AccumulateHeld(marker, ssrc, ts);
      }
    }

    method AccumulateHeld(marker: bool, ssrc: uint32, ts: uint32)
      requires Valid()
      modifies this, buffer
      ensures Valid() && State() == Accumulate(old(State()), marker, ssrc, ts)
    {
      ghost var held := assembler.Held();
      ghost var kept := if usedLen + |held| >= RTP_H264_RECV_BUFFER_SIZE then [] else buffer[..usedLen];
      var len := assembler.usedLen;
      if usedLen + len >= RTP_H264_RECV_BUFFER_SIZE {
        usedLen := 0;
      }
      forall k | 0 <= k < len {
        buffer[usedLen + k] := assembler.buffer[k];
      }
      usedLen := usedLen + len;
      assert buffer[..usedLen] == kept + held;
      if marker {
        assert buffer[..0] == [];
        delivered := delivered + [Delivery(buffer[..usedLen], ssrc, ts)];
        usedLen := 0;
      }
    }
  }
}
