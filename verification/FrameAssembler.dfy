/**
 * Rebuilding start-code-prefixed NAL units from RTP payloads (RFC 6184 sections
 * 5.6, 5.7.1 and 5.8), from src/rtp/rtp_h264_frame_assembler.cpp.
 */
module FrameAssembler {
  import opened Bytes
  import AnnexB

  const ASSEMBLER_BUFFER_SIZE: nat := 0x4_0000
  const RTP_RECV_BUFFER_SIZE: nat := 2048

  /** The two bytes that select the three-byte start code. */
  predicate ShortCode(b0: byte, b1: byte) {
    b0 == 0x65 || ((b0 == 0x61 || b0 == 0x41) && b1 < 0x80)
  }

  /**
   * Reading a payload at `i`. The code looks at a second byte without asking for
   * one: behind a one-byte payload it finds whatever memory holds, `past`.
   */
  function ByteAt(s: seq<byte>, i: nat, past: byte): byte {
    if i < |s| then s[i] else past
  }

  /** The start code chosen by the bytes at `s`. */
  function CodeFor(s: seq<byte>, past: byte): seq<byte> {
    AnnexB.Code(!ShortCode(ByteAt(s, 0, past), ByteAt(s, 1, past)))
  }

  /** What a push returns, and what the buffer then holds. */
  datatype Pushed = Pushed(ok: bool, held: seq<byte>)

  function Single(payload: seq<byte>, past: byte): Pushed {
    var r := CodeFor(payload, past) + payload;
    if |r| > ASSEMBLER_BUFFER_SIZE then Pushed(false, []) else Pushed(true, r)
  }

  /** The aggregation units of `data`, each behind its own start code, after what is held. */
  function Unpack(held: seq<byte>, data: seq<byte>, past: byte): Pushed
    decreases |data|
  {
    if |data| <= 2 then
      if |held| > ASSEMBLER_BUFFER_SIZE then Pushed(false, []) else Pushed(true, held)
    else
      var n, rest := At16(data, 0), data[2..];
      if n > |rest| then Pushed(false, [])
      else Unpack(held + (CodeFor(rest, past) + rest[..n]), rest[n..], past)
  }

  function Fragment(held: seq<byte>, data: seq<byte>, past: byte): Pushed {
    if |data| < 3 || |data| > ASSEMBLER_BUFFER_SIZE then Pushed(false, [])
    else
      var nal, body := High3(data[0]) + Low5(data[1]), data[2..];
      if data[1] / 128 != 0 then Pushed(false, CodeFor(body, past) + [nal] + body)
      else Pushed(data[1] / 64 % 2 != 0, held + body)
  }

  function Push(held: seq<byte>, payload: seq<byte>, past: byte): Pushed {
    if payload == [] then Pushed(false, held)
    else
      var kind := Low5(payload[0]);
      if kind <= 23 then Single(payload, past)
      else if kind == 24 then Unpack([], payload[1..], past)
      else if kind == 28 then Fragment(held, payload, past)
      else Pushed(false, held)
  }

  /** Payloads come out of the receive buffer, and continued fragments must still have room. */
  predicate Room(held: seq<byte>, payload: seq<byte>) {
    && |payload| <= RTP_RECV_BUFFER_SIZE
    && (|payload| >= 3 && Low5(payload[0]) == 28 && payload[1] / 128 == 0 ==>
          |held| + |payload| - 2 <= ASSEMBLER_BUFFER_SIZE)
  }

  /** The choice of start code in numbers: three octets in front of 0x65, 0x61 or 0x41 as described. */
  lemma {:induction false} CodeChosen(s: seq<byte>, past: byte)
    requires s != []
    ensures var next := if |s| >= 2 then s[1] else past;
            CodeFor(s, past) ==
              if s[0] == 0x65 || (s[0] == 0x61 && next < 0x80) || (s[0] == 0x41 && next < 0x80)
              then [0, 0, 1] else [0, 0, 0, 1]
  {
  }

  /** The octet that opens a NAL unit whose first octet is split over a fragment's two headers. */
  lemma {:induction false} OpeningOctet(indicator: byte, header: byte)
    ensures High3(indicator) as int + Low5(header) as int == indicator as int / 32 * 32 + header as int % 32
  {
  }

  /**
   * What a push does, by the type in the low five bits of the first octet: types up
   * to 23 are whole units; fragments start over on the start bit, and are complete
   * on the end bit unless they also start; 25 to 27 and 29 to 31 are refused. What
   * does not fit 262144 bytes leaves nothing.
   */
  lemma {:induction false} PushByType(held: seq<byte>, p: seq<byte>, past: byte)
    requires p != []
    ensures var r, kind := Push(held, p, past), p[0] % 32;
            && (kind <= 23 ==>
                  r == if |CodeFor(p, past)| + |p| <= 262144 then Pushed(true, CodeFor(p, past) + p) else Pushed(false, []))
            && (kind == 24 ==> r == Unpack([], p[1..], past))
            && (kind == 28 && (|p| < 3 || |p| > 262144) ==> r == Pushed(false, []))
            && (kind == 28 && 3 <= |p| <= 262144 && p[1] >= 128 ==>
                  r == Pushed(false, CodeFor(p[2..], past) + [p[0] / 32 * 32 + p[1] % 32] + p[2..]))
            && (kind == 28 && 3 <= |p| <= 262144 && p[1] < 128 ==> r == Pushed(p[1] >= 64, held + p[2..]))
            && (kind > 24 && kind != 28 ==> r == Pushed(false, held))
    ensures Push(held, [], past) == Pushed(false, held)
  {
    hide CodeFor, Unpack;
  }

  /** The units of an aggregation: a last octet or two are ignored, a length past the end leaves nothing. */
  lemma {:induction false} UnpackByOctets(held: seq<byte>, d: seq<byte>, past: byte)
    requires |held| <= 262144
    ensures |d| <= 2 ==> Unpack(held, d, past) == Pushed(true, held)
    ensures |d| > 2 ==>
              var n := d[0] as nat * 256 + d[1] as nat;
              Unpack(held, d, past)
              == if n > |d| - 2 then Pushed(false, [])
                 else Unpack(held + (CodeFor(d[2..], past) + d[2..2 + n]), d[2 + n..], past)
  {
    hide CodeFor;
    if |d| > 2 {
      var n := At16(d, 0);
      if n <= |d| - 2 {
        assert d[2..][..n] == d[2..2 + n] && d[2..][n..] == d[2 + n..];
      }
    }
  }

  /** What the receiver must see to, in numbers. */
  lemma {:induction false} RoomIff(held: seq<byte>, p: seq<byte>)
    ensures Room(held, p) <==>
            && |p| <= 2048
            && (|p| >= 3 && p[0] % 32 == 28 && p[1] < 128 ==> |held| + |p| - 2 <= 262144)
  {
  }

  class RTPH264FrameAssembler {
    const buffer: array<byte>
    var usedLen: nat

    ghost predicate Valid()
      reads this
    {
      buffer.Length == ASSEMBLER_BUFFER_SIZE && usedLen <= buffer.Length
    }

    ghost function Held(): seq<byte>
      reads this, buffer
      requires Valid()
    {
      buffer[..usedLen]
    }

    constructor ()
      ensures Valid() && fresh(buffer) && Held() == []
    {
      buffer := new byte[ASSEMBLER_BUFFER_SIZE];
      usedLen := 0;
    }

    /** `memcpy(m_buffer + m_buffer_used_len, data, len); m_buffer_used_len += len`. */
    method Append(data: seq<byte>)
      requires Valid() && usedLen + |data| <= buffer.Length
      modifies this, buffer
      ensures Valid() && Held() == old(Held()) + data
    {
      forall k | 0 <= k < |data| {
        buffer[usedLen + k] := data[k];
      }
      usedLen := usedLen + |data|;
    }

    method PushPacket(payload: seq<byte>, past: byte) returns (ok: bool)
      requires Valid() && Room(Held(), payload)
      modifies this, buffer
      ensures Valid()
      ensures Pushed(ok, Held()) == Push(old(Held()), payload, past)
    {
      if |payload| == 0 {
        return false;
      }
      var nal := payload[0];
      var kind := Low5(nal);
      if 1 <= kind <= 23 {
        kind := 1;
      }
      if kind == 0 || kind == 1 {
        if nal == 0x65 || ((nal == 0x61 || nal == 0x41) && ByteAt(payload, 1, past) / 128 == 0) {
          usedLen := 0;
          if |payload| + 3 > ASSEMBLER_BUFFER_SIZE {
            return false;
          }
          Append([0, 0, 1]);
          Append(payload);
        } else {
          usedLen := 0;
          if |payload| + 4 > ASSEMBLER_BUFFER_SIZE {
            return false;
          }
          Append([0, 0, 0, 1]);
          Append(payload);
        }
        return true;
      } else if kind == 24 {
        ok := GetStapaFrame(payload[1..], past);
      } else if kind == 28 {
        ok := GetFuaFrame(payload, past);
      } else {
        return false;
      }
    }

    method GetStapaFrame(data: seq<byte>, past: byte) returns (ok: bool)
      requires Valid() && |data| <= RTP_RECV_BUFFER_SIZE
      modifies this, buffer
      ensures Valid()
      ensures Pushed(ok, Held()) == Unpack([], data, past)
    {
      var src := data;
      usedLen := 0;
      while |src| > 2
        invariant Valid() && |src| <= |data| && usedLen <= 2 * (|data| - |src|)
        invariant Unpack(Held(), src, past) == Unpack([], data, past)
        decreases |src|
      {
        ghost var held := Held();
        var nalSize := At16(src, 0);
        src := src[2..];
        if nalSize <= |src| {
          if ShortCode(src[0], ByteAt(src, 1, past)) {
            Append([0, 0, 1]);
            Append(src[..nalSize]);
          } else {
            Append([0, 0, 0, 1]);
            Append(src[..nalSize]);
          }
          assert Held() == held + (CodeFor(src, past) + src[..nalSize]);
        } else {
          usedLen := 0;
          return false;
        }
        src := src[nalSize..];
      }
      // The source tests the size only here; it cannot have been exceeded.
      assert usedLen <= ASSEMBLER_BUFFER_SIZE;
      return true;
    }

    method GetFuaFrame(data: seq<byte>, past: byte) returns (ok: bool)
      requires Valid() && data != [] && Low5(data[0]) == 28 && Room(Held(), data)
      modifies this, buffer
      ensures Valid()
      ensures Pushed(ok, Held()) == Fragment(old(Held()), data, past)
    {
      if |data| < 3 || |data| > ASSEMBLER_BUFFER_SIZE {
        usedLen := 0;
        return false;
      }
      var startbit := data[1] / 128;
      var endbit := data[1] / 64 % 2;
      var nal := High3(data[0]) + Low5(data[1]);
      var body := data[2..];
      if startbit != 0 {
        usedLen := 0;
        if ShortCode(body[0], ByteAt(body, 1, past)) {
          Append([0, 0, 1]);
        } else {
          Append([0, 0, 0, 1]);
        }
        Append([nal]);
        Append(body);
        return false;
      } else if endbit != 0 {
        Append(body);
        return true;
      } else {
        Append(body);
        return false;
      }
    }
  }
}
