/**
 * WebSocket framing (sections 5.2 and 5.3 of RFC 6455): header parsing and
 * building and masking, from src/websocket/mongoose.cpp.
 */
module WebSocket {
  import opened Bytes

  /** The largest payload a frame may announce. */
  const MAX_PAYLOAD: nat := 0x4000_0000

  // ------------------------------------------------------------------
  // Masking

  /** Exclusive or of the low `n` binary digits. */
  function XorDigits(a: nat, b: nat, n: nat): nat {
    if n == 0 then 0 else 2 * XorDigits(a / 2, b / 2, n - 1) + if a % 2 == b % 2 then 0 else 1
  }

  lemma {:induction false} XorFits(a: nat, b: nat, n: nat)
    ensures XorDigits(a, b, n) < Pow2(n)
  {
    if n > 0 {
      XorFits(a / 2, b / 2, n - 1);
    }
  }

  lemma {:induction false} DigitsTwice(a: nat, b: nat, n: nat)
    requires a < Pow2(n)
    ensures XorDigits(XorDigits(a, b, n), b, n) == a
  {
    if n > 0 {
      var x := XorDigits(a / 2, b / 2, n - 1);
      DigitsTwice(a / 2, b / 2, n - 1);
      assert XorDigits(a, b, n) / 2 == x && XorDigits(a, b, n) % 2 == if a % 2 == b % 2 then 0 else 1;
    }
  }

  lemma {:induction false} EightDigits()
    ensures Pow2(8) == 256
  {
    assert Pow2(4) == 16;
  }

  /** `a ^ b`. */
  function Xor(a: byte, b: byte): byte {
    XorFits(a as nat, b as nat, 8);
    EightDigits();
    XorDigits(a as nat, b as nat, 8) as byte
  }

  lemma {:induction false} XorTwice(a: byte, b: byte)
    ensures Xor(Xor(a, b), b) == a
  {
    hide XorDigits;
    EightDigits();
    DigitsTwice(a as nat, b as nat, 8);
  }

  /** `a >> i`, one place at a time. */
  function Right(a: nat, i: nat): nat {
    if i == 0 then a else Right(a / 2, i - 1)
  }

  lemma {:induction false} DigitOfXor(a: nat, b: nat, n: nat, i: nat)
    requires i < n
    ensures Right(XorDigits(a, b, n), i) % 2 == 1 <==> Right(a, i) % 2 != Right(b, i) % 2
  {
    var x := XorDigits(a / 2, b / 2, n - 1);
    assert XorDigits(a, b, n) / 2 == x && XorDigits(a, b, n) % 2 == if a % 2 == b % 2 then 0 else 1;
    if i > 0 {
      DigitOfXor(a / 2, b / 2, n - 1, i - 1);
    }
  }

  lemma {:induction false} RightTwice(a: nat, i: nat)
    ensures Right(a, 0) == a && Right(a, 1) == a / 2
    ensures Right(a, i + 2) == Right(a / 4, i)
  {
    assert a / 2 / 2 == a / 4;
    assert Right(a / 2, 0) == a / 2;
  }

  lemma {:induction false} RightBy(a: nat, i: nat, p: nat)
    requires (i == 0 && p == 1) || (i == 1 && p == 2) || (i == 2 && p == 4) || (i == 3 && p == 8)
             || (i == 4 && p == 16) || (i == 5 && p == 32) || (i == 6 && p == 64) || (i == 7 && p == 128)
    ensures Right(a, i) == a / p
    decreases i
  {
    hide Right;
    RightTwice(a, i);
    if i >= 2 {
      RightTwice(a, i - 2);
      RightBy(a / 4, i - 2, p / 4);
    }
  }

  /** Exclusive or: each of the eight binary digits is 1 exactly when the two digits differ. */
  lemma {:induction false} XorDigit(a: byte, b: byte, p: nat)
    requires p == 1 || p == 2 || p == 4 || p == 8 || p == 16 || p == 32 || p == 64 || p == 128
    ensures Xor(a, b) as nat / p % 2 == 1 <==> a as nat / p % 2 != b as nat / p % 2
  {
    hide XorDigits, Right;
    EightDigits();
    var i: nat := if p == 1 then 0 else if p == 2 then 1 else if p == 4 then 2 else if p == 8 then 3
                  else if p == 16 then 4 else if p == 32 then 5 else if p == 64 then 6 else 7;
    DigitOfXor(a as nat, b as nat, 8, i);
    RightBy(a as nat, i, p);
    RightBy(b as nat, i, p);
    RightBy(Xor(a, b) as nat, i, p);
  }

  datatype Mask = Mask(m0: byte, m1: byte, m2: byte, m3: byte)
  {
    function Bytes(): (s: seq<byte>)
      ensures |s| == 4
    {
      [m0, m1, m2, m3]
    }
  }

  /** `p[i] ^= mask[i & 3]` over a whole payload. */
  function Masked(data: seq<byte>, mask: seq<byte>): (r: seq<byte>)
    requires |mask| == 4
    ensures |r| == |data|
    ensures forall i :: 0 <= i < |data| ==> r[i] == Xor(data[i], mask[i % 4])
  {
    seq(|data|, i requires 0 <= i < |data| => Xor(data[i], mask[i % 4]))
  }

  /** Octet `i` of a masked payload: its digits differ from the payload's where the mask's octet `i % 4` has a 1. */
  lemma {:induction false} MaskedDigit(data: seq<byte>, mask: seq<byte>, i: nat, p: nat)
    requires |mask| == 4 && i < |data|
    requires p == 1 || p == 2 || p == 4 || p == 8 || p == 16 || p == 32 || p == 64 || p == 128
    ensures |Masked(data, mask)| == |data|
    ensures Masked(data, mask)[i] as nat / p % 2 == 1 <==> data[i] as nat / p % 2 != mask[i % 4] as nat / p % 2
  {
    hide Xor;
    XorDigit(data[i], mask[i % 4], p);
  }

  /** Masking is its own inverse. */
  lemma {:induction false} MaskedTwice(data: seq<byte>, mask: seq<byte>)
    requires |mask| == 4
    ensures Masked(Masked(data, mask), mask) == data
  {
    forall i | 0 <= i < |data|
      ensures Masked(Masked(data, mask), mask)[i] == data[i]
    {
      XorTwice(data[i], mask[i % 4]);
    }
  }

  // ------------------------------------------------------------------
  // Parsing

  datatype Header = Header(headerLen: nat, dataLen: nat, flags: byte)

  function MaskLen(b: seq<byte>): nat {
    if |b| >= 2 && b[1] >= 128 then 4 else 0
  }

  /** The header fields; both lengths stay zero while the header is incomplete. */
  function ParseHeader(b: seq<byte>): Header {
    var m := MaskLen(b);
    if |b| < 2 then Header(0, 0, 0)
    else
      var n := (b[1] % 128) as int;
      if n < 126 && |b| >= m then Header(2 + m, n, b[0])
      else if n == 126 && |b| >= 4 + m then Header(4 + m, At16(b, 2), b[0])
      else if |b| >= 10 + m then Header(10 + m, At32(b, 2) * 0x1_0000_0000 + At32(b, 6), b[0])
      else Header(0, 0, b[0])
  }

  /** The length of the frame at the start of `b`, zero unless it is all there. */
  function FrameLen(b: seq<byte>): (n: nat)
    ensures n <= |b|
  {
    var h := ParseHeader(b);
    if h.dataLen > MAX_PAYLOAD || h.headerLen + h.dataLen > |b| then 0 else h.headerLen + h.dataLen
  }

  /** The buffer after a complete frame was unmasked in place. */
  function Unmasked(b: seq<byte>): (r: seq<byte>)
    ensures |r| == |b|
  {
    var h := ParseHeader(b);
    var k := h.headerLen;
    if FrameLen(b) == 0 || MaskLen(b) == 0 then b
    else UnmaskedAt(b, k, h.dataLen)
  }

  /** The `n` bytes at `k` masked, or unmasked, with the four bytes before them. */
  function UnmaskedAt(b: seq<byte>, k: nat, n: nat): (r: seq<byte>)
    requires 4 <= k && k + n <= |b|
    ensures |r| == |b|
  {
    b[..k] + Masked(b[k..k + n], b[k - 4..k]) + b[k + n..]
  }

  lemma {:induction false} HeaderShape(b: seq<byte>)
    ensures var h := ParseHeader(b);
            && (h.headerLen > 0 ==> h.headerLen >= 2 + MaskLen(b) && |b| >= 2 && h.flags == b[0])
            && (h.headerLen == 0 ==> h.dataLen == 0)
            && (MaskLen(b) == 0 || MaskLen(b) == 4)
            && (FrameLen(b) > 0 ==> FrameLen(b) == h.headerLen + h.dataLen && h.headerLen >= 2 && h.headerLen > 0)
  {
  }

  /** More bytes behind a complete frame change nothing of it. */
  lemma {:induction false} FrameLenExtends(b: seq<byte>, more: seq<byte>)
    requires FrameLen(b) > 0
    ensures ParseHeader(b + more) == ParseHeader(b) && FrameLen(b + more) == FrameLen(b)
    ensures Unmasked(b + more) == Unmasked(b) + more
  {
    hide ParseHeader, MaskLen, Unmasked;
    HeaderShape(b);
    ParseExtends(b, more);
    UnmaskedExtends(b, more);
  }

  lemma {:induction false} UnmaskedExtends(b: seq<byte>, more: seq<byte>)
    requires FrameLen(b) > 0 && FrameLen(b + more) == FrameLen(b)
    requires ParseHeader(b + more) == ParseHeader(b) && MaskLen(b + more) == MaskLen(b)
    ensures Unmasked(b + more) == Unmasked(b) + more
  {
    hide ParseHeader, MaskLen, FrameLen, UnmaskedAt;
    HeaderShape(b);
    var h := ParseHeader(b);
    if MaskLen(b) > 0 {
      UnmaskExtends(b, more, h.headerLen, h.dataLen);
    }
  }

  lemma {:induction false} UnmaskExtends(b: seq<byte>, more: seq<byte>, k: nat, n: nat)
    requires 4 <= k && k + n <= |b|
    ensures UnmaskedAt(b + more, k, n) == UnmaskedAt(b, k, n) + more
  {
    hide Masked;
    var c := b + more;
    assert c[k..k + n] == b[k..k + n] && c[k - 4..k] == b[k - 4..k] && c[..k] == b[..k];
    assert c[k + n..] == b[k + n..] + more;
  }

  lemma {:induction false} ParseExtends(b: seq<byte>, more: seq<byte>)
    requires ParseHeader(b).headerLen > 0
    ensures ParseHeader(b + more) == ParseHeader(b) && MaskLen(b + more) == MaskLen(b)
  {
    var c := b + more;
    assert c[0] == b[0] && c[1] == b[1];
    if |b| >= 4 {
      assert c[2] == b[2] && c[3] == b[3];
    }
    if |b| >= 10 {
      assert forall i :: 2 <= i < 10 ==> c[i] == b[i];
    }
  }

  /** A frame is recognised as soon as all its bytes are there. */
  lemma {:induction false} FrameLenPrefix(b: seq<byte>, m: nat)
    requires FrameLen(b) > 0 && FrameLen(b) <= m <= |b|
    ensures FrameLen(b[..m]) == FrameLen(b)
  {
    hide FromBe16, FromBe32;
    var p := b[..m];
    HeaderShape(b);
    var h := ParseHeader(b);
    assert p[0] == b[0] && p[1] == b[1];
    if h.headerLen >= 4 {
      assert p[2] == b[2] && p[3] == b[3];
    }
    if h.headerLen >= 10 {
      assert forall i :: 2 <= i < 10 ==> p[i] == b[i];
    }
  }

  // ------------------------------------------------------------------
  // Building

  /** A frame header: shortest length form, the mask behind it if there is one. */
  function HeaderBytes(flags: byte, len: nat, mask: seq<byte>): seq<byte>
    requires len < 0x1_0000_0000_0000_0000
  {
    Lengths(flags, len, if mask == [] then 0 else 128) + mask
  }

  /** The flags and length octets; `bit` is the mask flag. */
  function Lengths(flags: byte, len: nat, bit: byte): seq<byte>
    requires len < 0x1_0000_0000_0000_0000 && (bit == 0 || bit == 128)
  {
    if len < 126 then [flags, len as byte + bit]
    else if len < 0x1_0000 then [flags, 126 + bit] + Be16(len)
    else [flags, 127 + bit] + (Be32(len / 0x1_0000_0000) + Be32(len % 0x1_0000_0000))
  }

  /** A whole frame; an absent mask leaves the payload as it is. */
  function FrameBytes(flags: byte, data: seq<byte>, mask: seq<byte>): seq<byte>
    requires |data| < 0x1_0000_0000_0000_0000 && (mask == [] || |mask| == 4)
  {
    HeaderBytes(flags, |data|, mask) + if mask == [] then data else Masked(data, mask)
  }

  lemma {:induction false} LengthsParse(flags: byte, len: nat, bit: byte, rest: seq<byte>)
    requires len <= MAX_PAYLOAD && (bit == 0 || bit == 128) && |rest| >= if bit == 128 then 4 else 0
    ensures var b := Lengths(flags, len, bit) + rest;
            var m := if bit == 128 then 4 else 0;
            ParseHeader(b) == Header(|Lengths(flags, len, bit)| + m, len, flags) && MaskLen(b) == m
  {
    hide Be16, Be32, FromBe16, FromBe32;
    var b := Lengths(flags, len, bit) + rest;
    assert b[0] == flags && b[1] == Lengths(flags, len, bit)[1];
    if 126 <= len < 0x1_0000 {
      Be16RoundTrip(len);
      assert b[2] == Be16(len)[0] && b[3] == Be16(len)[1];
    } else if len >= 0x1_0000 {
      LongLengths(flags, len, bit, rest);
    }
  }

  lemma {:induction false} LongLengths(flags: byte, len: uint32, bit: byte, rest: seq<byte>)
    requires len >= 0x1_0000 && (bit == 0 || bit == 128)
    ensures var b := Lengths(flags, len, bit) + rest;
            |Lengths(flags, len, bit)| == 10 && At32(b, 2) == 0 && At32(b, 6) == len
  {
    hide Be32, FromBe32;
    var b := Lengths(flags, len, bit) + rest;
    assert len / 0x1_0000_0000 == 0 && len % 0x1_0000_0000 == len;
    Be32RoundTrip(0);
    Be32RoundTrip(len);
    assert forall i :: 0 <= i < 4 ==> b[2 + i] == Be32(0)[i];
    assert forall i :: 0 <= i < 4 ==> b[6 + i] == Be32(len)[i];
  }

  lemma {:induction false} HeaderParses(flags: byte, len: nat, mask: seq<byte>, rest: seq<byte>)
    requires len <= MAX_PAYLOAD && (mask == [] || |mask| == 4)
    ensures var h := HeaderBytes(flags, len, mask);
            && ParseHeader(h + rest) == Header(|h|, len, flags)
            && MaskLen(h + rest) == |mask|
            && 2 + |mask| <= |h| && h[|h| - |mask|..] == mask
  {
    hide Lengths, ParseHeader, MaskLen;
    var bit: byte := if mask == [] then 0 else 128;
    LengthsParse(flags, len, bit, mask + rest);
    LengthsShort(flags, len, bit);
    assert HeaderBytes(flags, len, mask) + rest == Lengths(flags, len, bit) + (mask + rest);
  }

  lemma {:induction false} LengthsShort(flags: byte, len: nat, bit: byte)
    requires len < 0x1_0000_0000_0000_0000 && (bit == 0 || bit == 128)
    ensures 2 <= |Lengths(flags, len, bit)| <= 10
    ensures len < 126 <==> |Lengths(flags, len, bit)| == 2
    ensures 126 <= len < 0x1_0000 <==> |Lengths(flags, len, bit)| == 4
  {
  }

  /**
   * The frame codec: whatever follows it, a built frame is recognised with its
   * exact length and flags, and unmasking restores the payload.
   */
  lemma {:induction false} FrameRoundTrip(flags: byte, data: seq<byte>, mask: seq<byte>, rest: seq<byte>)
    requires |data| <= 0x4000_0000 && (mask == [] || |mask| == 4)
    ensures var h := HeaderBytes(flags, |data|, mask);
            var b := FrameBytes(flags, data, mask) + rest;
            && FrameLen(b) == |h| + |data|
            && ParseHeader(b) == Header(|h|, |data|, flags)
            && Unmasked(b) == h + data + rest
  {
    hide HeaderBytes, ParseHeader, MaskLen, Masked;
    var h := HeaderBytes(flags, |data|, mask);
    var body := if mask == [] then data else Masked(data, mask);
    var b := FrameBytes(flags, data, mask) + rest;
    assert b == h + (body + rest);
    HeaderParses(flags, |data|, mask, body + rest);
    if mask != [] {
      var k := |h|;
      assert b[k..k + |data|] == body && b[k - 4..k] == h[k - 4..] == mask && b[..k] == h && b[k + |data|..] == rest;
      MaskedTwice(data, mask);
    }
  }

  /** On any proper prefix of a frame nothing is recognised, and so nothing is changed. */
  lemma {:induction false} FramePrefix(flags: byte, data: seq<byte>, mask: seq<byte>, n: nat)
    requires |data| <= 0x4000_0000 && (mask == [] || |mask| == 4)
    requires n < |FrameBytes(flags, data, mask)|
    ensures var b := FrameBytes(flags, data, mask)[..n];
            FrameLen(b) == 0 && Unmasked(b) == b
  {
    var whole := FrameBytes(flags, data, mask);
    var b, rest := whole[..n], whole[n..];
    FrameRoundTrip(flags, data, mask, []);
    assert whole + [] == whole == b + rest;
    if FrameLen(b) > 0 {
      FrameLenExtends(b, rest);
    }
  }

  // ------------------------------------------------------------------
  // The layout in numbers

  /**
   * Section 5.2 of RFC 6455: the flags octet; the mask bit 128 over 7 bits of
   * length, or over 126 before a 16-bit length, or over 127 before a 64-bit length,
   * the shortest that fits; then the mask.
   */
  lemma {:induction false} HeaderLayout(flags: byte, len: nat, mask: seq<byte>)
    requires len < 0x1_0000_0000_0000_0000 && (mask == [] || |mask| == 4)
    ensures var h, bit: byte := HeaderBytes(flags, len, mask), if mask == [] then 0 else 128;
            && |h| == |mask| + (if len < 126 then 2 else if len < 65536 then 4 else 10)
            && h[0] == flags && h[|h| - |mask|..] == mask
            && (len < 126 ==> h[1] as nat == bit as nat + len)
            && (126 <= len < 65536 ==> h[1] == bit + 126 && Number(h[2..4]) == len)
            && (65536 <= len ==> h[1] == bit + 127 && Number(h[2..6]) * 0x1_0000_0000 + Number(h[6..10]) == len)
  {
    hide Be16, Be32, Number;
    var h := HeaderBytes(flags, len, mask);
    var l := Lengths(flags, len, if mask == [] then 0 else 128);
    assert h == l + mask;
    if 126 <= len < 65536 {
      NetworkOrder16(len);
      assert h[2..4] == Be16(len);
    } else if 65536 <= len {
      var high, low := len / 0x1_0000_0000, len % 0x1_0000_0000;
      NetworkOrder32(high);
      NetworkOrder32(low);
      assert h[2..6] == Be32(high) && h[6..10] == Be32(low);
    }
  }

  /** A frame that announces more than 2^30 bytes is never complete, whatever follows. */
  lemma {:induction false} HugeRefused(flags: byte, len: nat, mask: seq<byte>, rest: seq<byte>)
    requires 0x4000_0000 < len < 0x1_0000_0000_0000_0000 && (mask == [] || |mask| == 4)
    ensures FrameLen(HeaderBytes(flags, len, mask) + rest) == 0
  {
    hide HeaderBytes, Number, At16, At32;
    var h := HeaderBytes(flags, len, mask);
    var b := h + rest;
    HeaderLayout(flags, len, mask);
    assert b[0] == flags && b[1] == h[1] && b[2..6] == h[2..6] && b[6..10] == h[6..10];
    WordsSpelled(b, 2);
    WordsSpelled(b, 6);
    assert b[1] % 128 == 127;
    assert ParseHeader(b).dataLen == len;
  }
}
