/**
 * Sending one H.264 frame: split, packetise, patch the headers in place and hand
 * every packet to the transmitter, from src/rtp/rtp_session_video.cpp.
 */
module VideoSession {
  import opened Bytes
  import opened RtpPacket
  import opened PacketBuilder
  import AnnexB

  /** What the session changes of a built packet. */
  function PatchFields(f: Fields, last: bool, num: uint16, now: uint32): Fields {
    f.(marker := f.marker || last, timestamp := now, reserved := num, sequenceHigh := 0)
  }

  function Patch(p: Rtp, last: bool, num: uint16, now: uint32): Rtp {
    p.(fields := PatchFields(p.fields, last, num, now))
  }

  /** The packets of one frame as sent: only the last carries the marker. */
  function PatchAll(packets: seq<Rtp>, num: uint16, now: uint32): (r: seq<Rtp>)
    ensures |r| == |packets|
  {
    if packets == [] then []
    else [Patch(packets[0], |packets| == 1, num, now)] + PatchAll(packets[1..], num, now)
  }

  lemma {:induction false} PatchAllAt(packets: seq<Rtp>, num: uint16, now: uint32, i: nat)
    requires i < |packets|
    ensures PatchAll(packets, num, now)[i] == Patch(packets[i], i == |packets| - 1, num, now)
  {
    if i > 0 {
      PatchAllAt(packets[1..], num, now, i - 1);
    }
  }

  function EachWire(packets: seq<Rtp>): (r: seq<seq<byte>>)
    ensures |r| == |packets|
  {
    if packets == [] then [] else [Wire(packets[0])] + EachWire(packets[1..])
  }

  lemma {:induction false} EachWireSnoc(packets: seq<Rtp>, p: Rtp)
    ensures EachWire(packets + [p]) == EachWire(packets) + [Wire(p)]
  {
    hide Wire;
    if packets == [] {
      assert [p][1..] == [];
    } else {
      assert (packets + [p])[1..] == packets[1..] + [p];
      EachWireSnoc(packets[1..], p);
    }
  }

  lemma {:induction false} EachWireAt(packets: seq<Rtp>, i: nat)
    requires i < |packets|
    ensures EachWire(packets)[i] == Wire(packets[i])
  {
    hide Wire;
    if i > 0 {
      EachWireAt(packets[1..], i - 1);
    }
  }

  lemma {:induction false} LogStart(log: seq<seq<byte>>, d: seq<Rtp>)
    ensures log + EachWire(d[..0]) == log
  {
  }

  lemma {:induction false} LogStep(log: seq<seq<byte>>, d: seq<Rtp>, it: nat)
    requires it < |d|
    ensures log + EachWire(d[..it]) + [Wire(d[it])] == log + EachWire(d[..it + 1])
    ensures |log + EachWire(d[..it])| == |log| + it
  {
    hide Wire;
    EachWireSnoc(d[..it], d[it]);
    assert d[..it + 1] == d[..it] + [d[it]];
  }

  /** How many of the next packets the transmitter takes before it first fails. */
  function Accepted(up: nat -> bool, from: nat, n: nat): (k: nat)
    ensures k <= n
    decreases n
  {
    if n == 0 || !up(from) then 0 else 1 + Accepted(up, from + 1, n - 1)
  }

  /** Those before the first refusal: all of them are taken, and the next, if there is one, is not. */
  lemma {:induction false} AcceptedIff(up: nat -> bool, from: nat, n: nat, k: nat)
    requires k <= n
    ensures Accepted(up, from, n) == k <==> (forall j :: from <= j < from + k ==> up(j)) && (k < n ==> !up(from + k))
    decreases n
  {
    if n > 0 && k > 0 {
      AcceptedIff(up, from + 1, n - 1, k - 1);
    }
  }

  lemma {:induction false} AcceptedNone(up: nat -> bool, from: nat)
    ensures Accepted(up, from, 0) == 0
  {
  }

  lemma {:induction false} AcceptedStep(up: nat -> bool, from: nat, it: nat, n: nat)
    requires it < n
    ensures Accepted(up, from + it, n - it) == if up(from + it) then 1 + Accepted(up, from + it + 1, n - it - 1) else 0
  {
  }

  /** Packets handed over: those accepted and the first refused. */
  function Attempted(up: nat -> bool, from: nat, n: nat): (k: nat)
    ensures k <= n
  {
    var k := Accepted(up, from, n);
    if k < n then k + 1 else n
  }

  /** The packets the builder makes of a frame in its current state. */
  function FramePackets(data: seq<byte>, sequence: uint32, o: Origin): seq<Rtp> {
    ItemsWellformed(AnnexB.NalUnits(data), []);
    Packets(sequence, o, AllPayloads(Items(AnnexB.NalUnits(data), [])))
  }

  predicate FrameFits(data: seq<byte>) {
    ItemsWellformed(AnnexB.NalUnits(data), []);
    AllFit(0, Items(AnnexB.NalUnits(data), []))
  }

  /** The datagrams of a frame: built, then patched with the count modulo 256 and the time. */
  function FrameDatagrams(data: seq<byte>, sequence: uint32, o: Origin, now: uint32): seq<Rtp> {
    var packets := FramePackets(data, sequence, o);
    PatchAll(packets, |packets| % 256, now)
  }

  /** Overwriting the patched octets of a header yields exactly the patched header. */
  lemma {:induction false} PatchedHeader(h: seq<byte>, g: seq<byte>, f: Fields, last: bool, num: uint16, now: uint32)
    requires h == HeaderBytes(f) && |g| == PREFIX_SIZE
    requires g[0] == h[0] && g[1] == (if last then h[1] % 128 + 128 else h[1])
    requires g[2] == h[2] && g[3] == h[3]
    requires g[4] == Be32(now)[0] && g[5] == Be32(now)[1] && g[6] == Be32(now)[2] && g[7] == Be32(now)[3]
    requires forall k :: 8 <= k < 16 ==> g[k] == h[k]
    requires g[16] == Be16(num)[0] && g[17] == Be16(num)[1] && g[18] == 0 && g[19] == 0
    requires forall k :: 20 <= k < 28 ==> g[k] == h[k]
    ensures g == HeaderBytes(PatchFields(f, last, num, now))
  {
    hide Be32;
    var e := PatchFields(f, last, num, now);
    HeaderAt(f);
    HeaderAt(e);
    hide HeaderBytes;
    assert Be16(e.sequenceHigh) == [0, 0];
    var w := HeaderBytes(e);
    assert forall k :: 0 <= k < 8 ==> g[k] == w[k];
    assert forall k :: 8 <= k < 16 ==> g[k] == w[k];
    assert forall k :: 16 <= k < 28 ==> g[k] == w[k];
  }

  /** The next slice is the next packet's, at its position in the buffer. */
  lemma {:induction false} FirstSlice(slices: seq<Slice>, pkts: seq<Rtp>, it: nat, pos: nat, buffer: seq<byte>)
    requires it < |pkts| && it <= |slices| && slices[it..] == Tiling(pos, pkts[it..])
    requires pos <= |buffer| && Wires(pkts[it..]) <= buffer[pos..]
    ensures var p := pkts[it];
            var len := PREFIX_SIZE + |p.payload|;
            && it < |slices| && slices[it] == Slice(pos, len) && pos + len <= |buffer|
            && slices[it + 1..] == Tiling(pos + len, pkts[it + 1..])
            && buffer[pos..pos + PREFIX_SIZE] == HeaderBytes(p.fields)
            && buffer[pos + PREFIX_SIZE..pos + len] == p.payload
            && Wires(pkts[it + 1..]) <= buffer[pos + len..]
  {
    hide HeaderBytes;
    var p, rest := pkts[it], pkts[it + 1..];
    var len := PREFIX_SIZE + |p.payload|;
    assert pkts[it..][0] == p && pkts[it..][1..] == rest;
    TailSplit(slices, it, Slice(pos, len), Tiling(pos + len, rest));
    PrefixCut(buffer, pos, Wire(p), Wires(rest));
    assert buffer[pos..pos + PREFIX_SIZE] == buffer[pos..pos + len][..PREFIX_SIZE];
    assert buffer[pos + PREFIX_SIZE..pos + len] == buffer[pos..pos + len][PREFIX_SIZE..];
  }

  /** A patched header in front of the untouched payload is the patched packet. */
  lemma {:induction false} PatchedWire(
      before: seq<byte>, after: seq<byte>, pos: nat, p: Rtp, last: bool, num: uint16, now: uint32)
    requires |before| == |after| && pos + PREFIX_SIZE + |p.payload| <= |before|
    requires after[pos..pos + PREFIX_SIZE] == HeaderBytes(PatchFields(p.fields, last, num, now))
    requires after[pos + PREFIX_SIZE..] == before[pos + PREFIX_SIZE..]
    requires before[pos + PREFIX_SIZE..pos + PREFIX_SIZE + |p.payload|] == p.payload
    ensures after[pos..pos + PREFIX_SIZE + |p.payload|] == Wire(Patch(p, last, num, now))
    ensures after[pos + PREFIX_SIZE + |p.payload|..] == before[pos + PREFIX_SIZE + |p.payload|..]
  {
    hide HeaderBytes, PatchFields;
    var n, len := pos + PREFIX_SIZE, |p.payload|;
    assert after[n..n + len] == after[n..][..len] == before[n..][..len] == before[n..n + len];
    assert after[pos..n + len] == after[pos..n] + after[n..n + len];
    assert after[n + len..] == after[n..][len..];
    assert before[n + len..] == before[n..][len..];
  }

  class RTPSessionVideo {
    const builder: RTPH264PacketBuilder
    var sent: seq<seq<byte>>  // handed to the transmitter, in order

    ghost predicate Valid()
      reads this, builder
    {
      builder.Valid()
    }

    constructor (sequenceStart: uint16, timestampStart: uint32, ssrc: uint32)
      ensures Valid() && fresh(builder) && fresh(builder.buffer) && sent == []
      ensures builder.sequence == sequenceStart && builder.timestamp == timestampStart && builder.ssrc == ssrc
    {
      builder := new RTPH264PacketBuilder(sequenceStart, timestampStart, ssrc);
      sent := [];
    }

    /** The header writes of one packet at `start`. */
    method PatchHeader(start: nat, last: bool, num: uint16, now: uint32, ghost f: Fields)
      requires start + PREFIX_SIZE <= builder.buffer.Length
      requires builder.buffer[start..start + PREFIX_SIZE] == HeaderBytes(f)
      modifies builder.buffer
      ensures builder.buffer[start..start + PREFIX_SIZE] == HeaderBytes(PatchFields(f, last, num, now))
      ensures builder.buffer[start + PREFIX_SIZE..] == old(builder.buffer[start + PREFIX_SIZE..])
    {
      hide HeaderBytes, PatchFields, Be32, Be16;
      var b := builder.buffer;
      ghost var before := b[..];
      ghost var h := b[start..start + PREFIX_SIZE];
      Poke(start + 16, Be16(num));
      Poke(start + 18, [0, 0]);
      if last {
        Poke(start + 1, [b[start + 1] % 128 + 128]);
      }
      Poke(start + 4, Be32(now));
      ghost var g := b[start..start + PREFIX_SIZE];
      assert forall k :: 0 <= k < PREFIX_SIZE ==> g[k] == b[start + k] && h[k] == before[start + k];
      PatchedHeader(h, g, f, last, num, now);
      assert b[start + PREFIX_SIZE..] == before[start + PREFIX_SIZE..];
    }

    /** A field write: these octets and no others. */
    method Poke(at: nat, octets: seq<byte>)
      requires at + |octets| <= builder.buffer.Length
      modifies builder.buffer
      ensures forall k :: 0 <= k < builder.buffer.Length ==>
                builder.buffer[k] == if at <= k < at + |octets| then octets[k - at] else old(builder.buffer[k])
    {
      forall i | 0 <= i < |octets| {
        builder.buffer[at + i] := octets[i];
      }
    }

    /**
     * One frame. `up(i)` says whether the transmitter takes the i-th datagram it
     * is ever given.
     */
    method SendH264Data(data: seq<byte>, base: nat, nowMs: uint32, up: nat -> bool) returns (ok: bool)
      requires Valid()
      modifies this, builder, builder.buffer
      ensures Valid() && builder.Sender() == old(builder.Sender())
      ensures !FrameFits(data) ==> !ok && sent == old(sent)
      ensures FrameFits(data) ==>
                var d := FrameDatagrams(data, old(builder.sequence), old(builder.Sender()), nowMs);
                && builder.sequence == Next(old(builder.sequence), |d|)
                && ok == (Accepted(up, |old(sent)|, |d|) == |d|)
                && sent == old(sent) + EachWire(d[..Attempted(up, |old(sent)|, |d|)])
    {
      hide Wires, Tiling, Packets, PatchAll, Wire, AllPayloads, Items, AllFit, EachWire, Next;
      builder.SendData(data, base);
      AnnexB.NonEmptyOnly(AnnexB.AllUnits(data));
      ghost var seq0 := builder.sequence;
      var packets;
      ghost var count;
      ok, packets, count := builder.ReceiveRtpPackets();
      if !ok {
        return false;
      }
      ghost var pkts := FramePackets(data, seq0, builder.Sender());
      PacketsLength(seq0, builder.Sender(), AllPayloads(Items(AnnexB.NalUnits(data), [])));
      TilingLength(0, pkts);
      var num := |packets| % 256;
      ok := Transmit(packets, num, nowMs, up, pkts);
    }

    /** Patches one packet in place; the datagram is then its slice of the buffer. */
    method PatchPacket(slice: Slice, last: bool, num: uint16, nowMs: uint32, ghost p: Rtp)
      requires slice.len == PREFIX_SIZE + |p.payload| && slice.start + slice.len <= builder.buffer.Length
      requires builder.buffer[slice.start..slice.start + PREFIX_SIZE] == HeaderBytes(p.fields)
      requires builder.buffer[slice.start + PREFIX_SIZE..slice.start + slice.len] == p.payload
      modifies builder.buffer
      ensures builder.buffer[slice.start..slice.start + slice.len] == Wire(Patch(p, last, num, nowMs))
      ensures builder.buffer[slice.start + slice.len..] == old(builder.buffer[slice.start + slice.len..])
    {
      hide HeaderBytes, PatchFields, Wire, Patch;
      ghost var before := builder.buffer[..];
      PatchHeader(slice.start, last, num, nowMs, p.fields);
      PatchedWire(before, builder.buffer[..], slice.start, p, last, num, nowMs);
    }

    /** The loop over the packets. */
    method Transmit(packets: seq<Slice>, num: uint16, nowMs: uint32, up: nat -> bool, ghost pkts: seq<Rtp>)
      returns (ok: bool)
      requires packets == Tiling(0, pkts) && Wires(pkts) <= builder.buffer[..]
      modifies this`sent, builder.buffer
      ensures var d := PatchAll(pkts, num, nowMs);
              && ok == (Accepted(up, |old(sent)|, |d|) == |d|)
              && sent == old(sent) + EachWire(d[..Attempted(up, |old(sent)|, |d|)])
    {
      hide Wires, Tiling, PatchAll, Wire, EachWire, Patch, HeaderBytes, PatchFields, Accepted;
      ghost var n0 := |sent|;
      ghost var d := PatchAll(pkts, num, nowMs);
      ghost var pos: nat := 0;
      TilingLength(0, pkts);
      assert pkts[0..] == pkts && packets[0..] == packets && d[..|d|] == d;
      LogStart(sent, d);
      AcceptedNone(up, n0 + |d|);
      var it := 0;
      while it < |packets|
        invariant it <= |packets| == |pkts|
        invariant pos <= builder.buffer.Length && packets[it..] == Tiling(pos, pkts[it..])
        invariant Wires(pkts[it..]) <= builder.buffer[pos..]
        invariant sent == old(sent) + EachWire(d[..it])
        invariant Accepted(up, n0, |d|) == it + Accepted(up, n0 + it, |d| - it)
      {
        var slice := packets[it];
        FirstSlice(packets, pkts, it, pos, builder.buffer[..]);
        PatchPacket(slice, it == |packets| - 1, num, nowMs, pkts[it]);
        PatchAllAt(pkts, num, nowMs, it);
        pos := pos + slice.len;
        sent := sent + [builder.buffer[slice.start..slice.start + slice.len]];
        LogStep(old(sent), d, it);
        AcceptedStep(up, n0, it, |d|);
        if !up(|sent| - 1) {
          return false;
        }
        it := it + 1;
      }
      return true;
    }
  }
}
