/**
 * Streaming SHA-1 of src/websocket/mongoose.cpp against the one-shot definition:
 * the block transform folded over the message padded by section 5.1.1 of
 * FIPS 180-4. The transform itself is a parameter.
 */
module Sha1 {
  import opened Bytes

  datatype Words = Words(a: uint32, b: uint32, c: uint32, d: uint32, e: uint32)

  const INITIAL: Words := Words(0x67452301, 0xEFCDAB89, 0x98BADCFE, 0x10325476, 0xC3D2E1F0)

  /** The transform of one 64-byte block. */
  type Transform = (Words, seq<byte>) -> Words

  // ------------------------------------------------------------------
  // The definition

  function Fold(f: Transform, state: Words, m: seq<byte>): Words
    decreases |m|
  {
    if |m| < 64 then state else Fold(f, f(state, m[..64]), m[64..])
  }

  /** How many zero bytes bring the padded length to 56 modulo 64. */
  function ZeroCount(n: nat): (k: nat)
    ensures k < 64 && (n + 1 + k) % 64 == 56
  {
    (119 - n % 64) % 64
  }

  function Be64(n: nat): (s: seq<byte>)
    requires n < 0x1_0000_0000_0000_0000
    ensures |s| == 8
  {
    Be32(n / 0x1_0000_0000) + Be32(n % 0x1_0000_0000)
  }

  /** The padded message: a one bit, zeros, and the length in bits. */
  function Pad(m: seq<byte>): seq<byte>
    requires 8 * |m| < 0x1_0000_0000_0000_0000
  {
    m + [0x80] + Zeros(ZeroCount(|m|)) + Be64(8 * |m|)
  }

  function Digest(w: Words): seq<byte> {
    Be32(w.a) + Be32(w.b) + Be32(w.c) + Be32(w.d) + Be32(w.e)
  }

  function Hash(f: Transform, m: seq<byte>): seq<byte>
    requires 8 * |m| < 0x1_0000_0000_0000_0000
  {
    Digest(Fold(f, INITIAL, Pad(m)))
  }

  /** Folding more blocks goes on from the state reached. */
  lemma {:induction false} FoldConcat(f: Transform, state: Words, a: seq<byte>, b: seq<byte>)
    requires |a| % 64 == 0
    ensures Fold(f, state, a + b) == Fold(f, Fold(f, state, a), b)
    decreases |a|
  {
    if a == [] {
      assert a + b == b;
    } else {
      assert |a| >= 64;
      assert (a + b)[..64] == a[..64] && (a + b)[64..] == a[64..] + b;
      FoldConcat(f, f(state, a[..64]), a[64..], b);
    }
  }

  lemma {:induction false} FoldBlock(f: Transform, state: Words, a: seq<byte>, block: seq<byte>)
    requires |a| % 64 == 0 && |block| == 64
    ensures Fold(f, state, a + block) == f(Fold(f, state, a), block)
  {
    FoldConcat(f, state, a, block);
    var s := Fold(f, state, a);
    assert block[..64] == block && block[64..] == [];
    assert Fold(f, f(s, block), []) == f(s, block);
  }

  /** The whole blocks of a message. */
  function Whole(m: seq<byte>): seq<byte> {
    m[..|m| - |m| % 64]
  }

  function Rest(m: seq<byte>): seq<byte> {
    m[|m| - |m| % 64..]
  }

  lemma {:induction false} FoldWhole(f: Transform, state: Words, m: seq<byte>)
    requires |m| % 64 == 0
    ensures Fold(f, state, Whole(m)) == Fold(f, state, m)
  {
    assert Whole(m) == m;
  }

  /** The padding is a whole number of blocks and starts with the message. */
  lemma {:induction false} PadShape(m: seq<byte>)
    requires 8 * |m| < 0x1_0000_0000_0000_0000
    ensures |Pad(m)| % 64 == 0 && m <= Pad(m)
    ensures |m| + 9 <= |Pad(m)| < |m| + 73
  {
    hide Be64, ZeroCount;
    var k := ZeroCount(|m|);
    assert |Pad(m)| == |m| + 1 + k + 8;
    AddEight(|m| + 1 + k);
    assert Pad(m)[..|m|] == m;
  }

  lemma {:induction false} AddEight(n: nat)
    requires n % 64 == 56
    ensures (n + 8) % 64 == 0
  {
  }

  lemma {:induction false} Be64Injective(a: nat, b: nat)
    requires a < 0x1_0000_0000_0000_0000 && b < 0x1_0000_0000_0000_0000
    requires Be64(a) == Be64(b)
    ensures a == b
  {
    hide Be32;
    var ah, al, bh, bl := a / 0x1_0000_0000, a % 0x1_0000_0000, b / 0x1_0000_0000, b % 0x1_0000_0000;
    assert Be32(ah) == Be64(a)[..4] == Be64(b)[..4] == Be32(bh);
    assert Be32(al) == Be64(a)[4..] == Be64(b)[4..] == Be32(bl);
    Be32RoundTrip(ah);
    Be32RoundTrip(bh);
    Be32RoundTrip(al);
    Be32RoundTrip(bl);
  }

  /** No two messages have the same padding. */
  lemma {:induction false} PadInjective(a: seq<byte>, b: seq<byte>)
    requires 8 * |a| < 0x1_0000_0000_0000_0000 && 8 * |b| < 0x1_0000_0000_0000_0000
    requires Pad(a) == Pad(b)
    ensures a == b
  {
    hide Be64, ZeroCount;
    LastEight(a);
    LastEight(b);
    Be64Injective(8 * |a|, 8 * |b|);
    assert a == Pad(a)[..|a|] && b == Pad(b)[..|b|];
  }

  lemma {:induction false} LastEight(m: seq<byte>)
    requires 8 * |m| < 0x1_0000_0000_0000_0000
    ensures |Pad(m)| >= 8 && Pad(m)[|Pad(m)| - 8..] == Be64(8 * |m|)
  {
    hide ZeroCount, Be32;
  }

  // ------------------------------------------------------------------
  // The bit counter

  lemma {:induction false} Words64(h: nat, low: nat)
    requires low < 0x1_0000_0000
    ensures (h * 0x1_0000_0000 + low) % 0x1_0000_0000_0000_0000 == h % 0x1_0000_0000 * 0x1_0000_0000 + low
  {
    var k, r := h / 0x1_0000_0000, h % 0x1_0000_0000;
    assert h * 0x1_0000_0000 + low == k * 0x1_0000_0000_0000_0000 + (r * 0x1_0000_0000 + low);
    Mod64(h * 0x1_0000_0000 + low, k, r * 0x1_0000_0000 + low);
  }

  /** `(uint32_t) len << 3` keeps the low bits of the bit count. */
  lemma {:induction false} ShiftedLength(len: nat)
    ensures (len % 0x1_0000_0000 * 8) % 0x1_0000_0000 == 8 * (len % 0x2000_0000)
  {
    var q, r := len / 0x2000_0000, len % 0x2000_0000;
    var a, b := q / 8, q % 8;
    Mod32(len, a, b * 0x2000_0000 + r);
    Mod32((b * 0x2000_0000 + r) * 8, b, 8 * r);
  }

  lemma {:induction false} SumMod32(a: nat, b: nat, c: nat)
    ensures ((a + b) % 0x1_0000_0000 + c % 0x1_0000_0000) % 0x1_0000_0000 == (a + b + c) % 0x1_0000_0000
  {
    var d := a + b;
    var p, x := d / 0x1_0000_0000, d % 0x1_0000_0000;
    var q, y := c / 0x1_0000_0000, c % 0x1_0000_0000;
    var k, r := (x + y) / 0x1_0000_0000, (x + y) % 0x1_0000_0000;
    assert d + c == (p + q + k) * 0x1_0000_0000 + r;
    Mod32(d + c, p + q + k, r);
  }

  /** Adding the bits of `len` more bytes to the two words, with the code's carry. */
  lemma {:induction false} CounterStep(c0: uint32, c1: uint32, len: nat, bits: uint32, top: uint32)
    requires bits == (len % 0x1_0000_0000 * 8) % 0x1_0000_0000
    requires top == (len / 0x2000_0000) % 0x1_0000_0000
    ensures var low := (c0 + bits) % 0x1_0000_0000;
            var carry := if low < c0 then 1 else 0;
            var high := ((c1 + carry) % 0x1_0000_0000 + top) % 0x1_0000_0000;
            high * 0x1_0000_0000 + low
            == (c1 * 0x1_0000_0000 + c0 + 8 * len) % 0x1_0000_0000_0000_0000
  {
    var q, r := len / 0x2000_0000, len % 0x2000_0000;
    ShiftedLength(len);
    var carry := if c0 + 8 * r >= 0x1_0000_0000 then 1 else 0;
    var low := c0 + 8 * r - carry * 0x1_0000_0000;
    Mod32(c0 + 8 * r, carry, low);
    SumMod32(c1, carry, q);
    Words64(c1 + carry + q, low);
    assert 8 * len == q * 0x1_0000_0000 + 8 * r;
  }

  /** What the two words of the counter hold after `n` bytes. */
  function BitCount(n: nat): nat {
    8 * n % 0x1_0000_0000_0000_0000
  }

  /** The low word gives the fill of the block buffer. */
  lemma {:induction false} FillOfCount(c0: uint32, c1: uint32, n: nat)
    requires c1 * 0x1_0000_0000 + c0 == BitCount(n)
    ensures c0 / 8 % 64 == n % 64
  {
    var k := 8 * n / 0x1_0000_0000_0000_0000;
    assert 8 * n == k * 0x1_0000_0000_0000_0000 + c1 * 0x1_0000_0000 + c0;
    var e, f := c0 / 8, c0 % 8;
    assert c0 == 8 * e + f;
    assert f == 0 && n == k * 0x2000_0000_0000_0000 + c1 * 0x2000_0000 + e by {
      EighthIs(n, k * 0x2000_0000_0000_0000 + c1 * 0x2000_0000 + e, f);
    }
    var g, h := e / 64, e % 64;
    SixtyFour(n, k * 0x80_0000_0000_0000 + c1 * 0x80_0000 + g, h);
  }

  lemma {:induction false} EighthIs(n: nat, m: nat, f: nat)
    requires 8 * n == 8 * m + f && f < 8
    ensures f == 0 && n == m
  {
  }

  lemma {:induction false} SixtyFour(n: nat, q: nat, h: nat)
    requires n == 64 * q + h && h < 64
    ensures n % 64 == h
  {
  }

  /** Less than a block more stays in the buffer. */
  lemma {:induction false} StaysBuffered(m: seq<byte>, data: seq<byte>)
    requires |m| % 64 + |data| < 64
    ensures |m + data| % 64 == |m| % 64 + |data|
    ensures Whole(m + data) == Whole(m) && Rest(m + data) == Rest(m) + data
  {
    var m1 := m + data;
    var k := |m| - |m| % 64;
    SmallMod(|m|, |data|);
    assert m1[..k] == m[..k] && m1[k..] == m[k..] + data;
  }

  lemma {:induction false} SmallMod(n: nat, d: nat)
    requires n % 64 + d < 64
    ensures (n + d) % 64 == n % 64 + d
  {
  }

  /** Up to the last whole block the bytes are absorbed, the rest is buffered. */
  lemma {:induction false} BlocksThenRest(m: seq<byte>, data: seq<byte>, i: nat)
    requires i <= |data| < i + 64 && (|m| + i) % 64 == 0
    ensures |m + data| % 64 == |data| - i
    ensures Whole(m + data) == m + data[..i] && Rest(m + data) == data[i..]
  {
    var m1 := m + data;
    SmallMod(|m| + i, |data| - i);
    assert m1[..|m| + i] == m + data[..i] && m1[|m| + i..] == data[i..];
  }

  /** The first block is what was buffered and what completes it. */
  lemma {:induction false} FirstBlock(f: Transform, m: seq<byte>, data: seq<byte>, i: nat)
    requires i <= |data| && |m| % 64 + i == 64
    ensures (|m| + i) % 64 == 0
    ensures Fold(f, INITIAL, m + data[..i]) == f(Fold(f, INITIAL, Whole(m)), Rest(m) + data[..i])
  {
    hide Fold;
    var k := |m| - |m| % 64;
    assert (|m| + i) % 64 == (k + 64) % 64;
    WholeAligned(m);
    assert m + data[..i] == Whole(m) + (Rest(m) + data[..i]);
    FoldBlock(f, INITIAL, Whole(m), Rest(m) + data[..i]);
  }

  lemma {:induction false} WholeAligned(m: seq<byte>)
    ensures |Whole(m)| % 64 == 0 && |Rest(m)| == |m| % 64 && Whole(m) + Rest(m) == m
  {
  }

  lemma {:induction false} NextBlock(f: Transform, m: seq<byte>, data: seq<byte>, i: nat)
    requires i + 64 <= |data| && (|m| + i) % 64 == 0
    ensures (|m| + i + 64) % 64 == 0
    ensures Fold(f, INITIAL, m + data[..i + 64]) == f(Fold(f, INITIAL, m + data[..i]), data[i..i + 64])
  {
    hide Fold;
    assert m + data[..i + 64] == (m + data[..i]) + data[i..i + 64];
    FoldBlock(f, INITIAL, m + data[..i], data[i..i + 64]);
  }

  class Sha1Context {
    const transform: Transform
    const buffer: array<byte>
    var state: Words
    var count0: uint32
    var count1: uint32
    ghost var message: seq<byte>  // all bytes taken so far

    ghost predicate Valid()
      reads this, buffer
    {
      && buffer.Length == 64
      && count1 * 0x1_0000_0000 + count0 == BitCount(|message|)
      && state == Fold(transform, INITIAL, Whole(message))
      && buffer[..|message| % 64] == Rest(message)
    }

    constructor (f: Transform)
      ensures Valid() && message == [] && transform == f && fresh(buffer)
    {
      transform := f;
      buffer := new byte[64];
      state, count0, count1, message := INITIAL, 0, 0, [];
    }

    /** `memcpy(&buffer[at], data, len)`. */
    method Copy(at: nat, data: seq<byte>)
      requires at + |data| <= buffer.Length
      modifies buffer
      ensures buffer[..at] == old(buffer[..at]) && buffer[at..at + |data|] == data
    {
      forall k | 0 <= k < |data| {
        buffer[at + k] := data[k];
      }
    }

    method Count(len: nat)
      requires count1 * 0x1_0000_0000 + count0 == BitCount(|message|)
      modifies this`count0, this`count1
      ensures count1 * 0x1_0000_0000 + count0 == BitCount(|message| + len)
    {
      hide BitCount;
      var j := count0;
      var bits := (len % 0x1_0000_0000 * 8) % 0x1_0000_0000;
      var top := (len / 0x2000_0000) % 0x1_0000_0000;
      CounterStep(count0, count1, len, bits, top);
      CountBits(count1 * 0x1_0000_0000 + count0, |message|, len);
      Mod32(count1, 0, count1);
      count0 := (count0 + bits) % 0x1_0000_0000;
      if count0 < j {
        count1 := (count1 + 1) % 0x1_0000_0000;
      }
      count1 := (count1 + top) % 0x1_0000_0000;
    }

    method Update(data: seq<byte>)
      requires Valid() && |data| < 0x1_0000_0000_0000_0000
      modifies this, buffer
      ensures Valid() && message == old(message) + data
    {
      hide Fold, Whole, Rest, BitCount;
      var len := |data|;
      ghost var m := message;
      FillOfCount(count0, count1, |m|);
      WholeAligned(m);
      var j := count0 / 8 % 64;
      Count(len);
      var i := 0;
      message := m + data;
      if j + len > 63 {
        i := 64 - j;
        Copy(j, data[..i]);
        FirstBlock(transform, m, data, i);
        assert buffer[..] == buffer[..j] + buffer[j..j + i];
        state := transform(state, buffer[..]);
        while i + 63 < len
          invariant i <= len && (|m| + i) % 64 == 0
          invariant state == Fold(transform, INITIAL, m + data[..i])
          invariant message == m + data
          invariant count1 * 0x1_0000_0000 + count0 == BitCount(|message|)
        {
          NextBlock(transform, m, data, i);
          state := transform(state, data[i..i + 64]);
          i := i + 64;
        }
        BlocksThenRest(m, data, i);
        j := 0;
      } else {
        StaysBuffered(m, data);
      }
      Copy(j, data[i..]);
      assert buffer[..j + len - i] == buffer[..j] + buffer[j..j + len - i];
    }

    /** Padding by updates, then the digest of the state; the code also clears the context. */
    method Final() returns (digest: seq<byte>)
      requires Valid() && 8 * |message| < 0x1_0000_0000_0000_0000
      modifies this, buffer
      ensures digest == Hash(transform, old(message))
    {
      hide Fold, Whole, Rest, Be32, Be64, BitCount;
      ghost var m := message;
      var finalcount := Be32(count1) + Be32(count0);
      CountOctets(count0, count1, |m|);
      Update([0x80]);
      ghost var k: nat := 0;
      assert m + [0x80] + Zeros(0) == m + [0x80];
      FillOfCount(count0, count1, |message|);
      while count0 / 8 % 64 * 8 != 448
        invariant Valid() && k <= ZeroCount(|m|)
        invariant message == m + [0x80] + Zeros(k)
        invariant count0 / 8 % 64 == (|m| + 1 + k) % 64
        decreases ZeroCount(|m|) - k
      {
        NotYetPadded(|m|, k);
        Update([0x00]);
        assert Zeros(k) + [0x00] == Zeros(k + 1);
        Associate(m + [0x80], Zeros(k), [0x00]);
        k := k + 1;
        FillOfCount(count0, count1, |message|);
      }
      ZerosSuffice(|m|, k);
      Update(finalcount);
      PadShape(m);
      FoldWhole(transform, INITIAL, message);
      digest := Digest(state);
    }
  }

  lemma {:induction false} CountBits(total: nat, n: nat, len: nat)
    requires total == BitCount(n)
    ensures (total + 8 * len) % 0x1_0000_0000_0000_0000 == BitCount(n + len)
  {
    var k, y := 8 * n / 0x1_0000_0000_0000_0000, 8 * (n + len);
    var q, r := y / 0x1_0000_0000_0000_0000, y % 0x1_0000_0000_0000_0000;
    assert total + 8 * len == (q - k) * 0x1_0000_0000_0000_0000 + r;
    Mod64(total + 8 * len, q - k, r);
  }

  lemma {:induction false} CountOctets(c0: uint32, c1: uint32, n: nat)
    requires 8 * n < 0x1_0000_0000_0000_0000 && c1 * 0x1_0000_0000 + c0 == BitCount(n)
    ensures Be32(c1) + Be32(c0) == Be64(8 * n)
  {
    hide Be32;
    Mod64(8 * n, 0, 8 * n);
    Mod32(8 * n, c1, c0);
  }

  /** The padding loop stops at the least sufficient number of zeros. */
  lemma {:induction false} NotYetPadded(n: nat, k: nat)
    requires (n + 1 + k) % 64 != 56 && k <= ZeroCount(n)
    ensures k < ZeroCount(n)
  {
  }

  lemma {:induction false} ZerosSuffice(n: nat, k: nat)
    requires (n + 1 + k) % 64 == 56 && k <= ZeroCount(n)
    ensures k == ZeroCount(n)
  {
  }

  // ------------------------------------------------------------------
  // The octets

  /** Behind the message come 0x80, zeros, and the length in bits as a 64-bit number in network order. */
  lemma {:induction false} PadOctets(m: seq<byte>)
    requires 8 * |m| < 0x1_0000_0000_0000_0000
    ensures var p, n := Pad(m), |Pad(m)|;
            && |m| + 9 <= n && p[|m|] == 0x80
            && (forall i :: |m| < i < n - 8 ==> p[i] == 0)
            && Number(p[n - 8..n - 4]) * 0x1_0000_0000 + Number(p[n - 4..]) == 8 * |m|
  {
    hide Be32, Number, ZeroCount;
    var p, n, bits := Pad(m), |Pad(m)|, 8 * |m|;
    var high, low := bits / 0x1_0000_0000, bits % 0x1_0000_0000;
    LastEight(m);
    assert p[n - 8..n - 4] == p[n - 8..][..4] == Be32(high) && p[n - 4..] == p[n - 8..][4..] == Be32(low);
    NetworkOrder32(high);
    NetworkOrder32(low);
  }

  /** The digest is the five words one after another, each in network order. */
  lemma {:induction false} DigestOctets(w: Words)
    ensures var d := Digest(w);
            && |d| == 20
            && Number(d[..4]) == w.a && Number(d[4..8]) == w.b && Number(d[8..12]) == w.c
            && Number(d[12..16]) == w.d && Number(d[16..]) == w.e
  {
    hide Be32, Number;
    var d := Digest(w);
    assert d[..4] == Be32(w.a) && d[4..8] == Be32(w.b) && d[8..12] == Be32(w.c);
    assert d[12..16] == Be32(w.d) && d[16..] == Be32(w.e);
    NetworkOrder32(w.a);
    NetworkOrder32(w.b);
    NetworkOrder32(w.c);
    NetworkOrder32(w.d);
    NetworkOrder32(w.e);
  }

  /** A message of at most 55 bytes takes one transform, from the initial words of FIPS 180-4, section 5.3.1. */
  lemma {:induction false} OneBlock(f: Transform, m: seq<byte>)
    requires |m| <= 55
    ensures |Pad(m)| == 64
    ensures Hash(f, m) == Digest(f(Words(0x67452301, 0xEFCDAB89, 0x98BADCFE, 0x10325476, 0xC3D2E1F0), Pad(m)))
  {
    hide Digest, Pad;
    PadShape(m);
    var p := Pad(m);
    assert |p| == 64 by { Multiple(|p|); }
    assert p[..64] == p && p[64..] == [];
    assert Fold(f, f(INITIAL, p), []) == f(INITIAL, p);
  }

  lemma {:induction false} Multiple(n: nat)
    requires n % 64 == 0 && 9 <= n < 128
    ensures n == 64
  {
  }
}
