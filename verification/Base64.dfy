/**
 * The incremental base64 encoder and the decoder of src/websocket/mongoose.cpp
 * (section 4 of RFC 4648).
 */
module Base64 {
  import opened Bytes

  const PADDING: byte := 61  // '='

  /** The character of a six-bit value. */
  function Index(c: byte): (r: byte)
    requires c < 64
  {
    if c < 26 then c + 65
    else if c < 52 then c - 26 + 97
    else if c < 62 then c - 52 + 48
    else if c == 62 then 43 else 47
  }

  /** The value of a character: 64 for the padding, -1 for anything else. */
  function Reverse(c: byte): (r: int)
    ensures -1 <= r <= 64 && (r == 64 <==> c == PADDING)
  {
    if 65 <= c <= 90 then c as int - 65
    else if 97 <= c <= 122 then c as int + 26 - 97
    else if 48 <= c <= 57 then c as int + 52 - 48
    else if c == 43 then 62
    else if c == 47 then 63
    else if c == 61 then 64
    else -1
  }

  lemma {:induction false} ReverseIndex(c: byte)
    requires c < 64
    ensures Reverse(Index(c)) == c as int && Index(c) != PADDING
  {
  }

  // ------------------------------------------------------------------
  // The definition

  /** Four characters for three bytes. */
  function Quad(a: byte, b: byte, c: byte): (q: seq<byte>)
    ensures |q| == 4
  {
    [Index(a / 4), Index(a % 4 * 16 + b / 16), Index(b % 16 * 4 + c / 64), Index(c % 64)]
  }

  function Encode(d: seq<byte>): (s: seq<byte>)
    decreases |d|
  {
    if |d| == 0 then []
    else if |d| == 1 then [Index(d[0] / 4), Index(d[0] % 4 * 16), PADDING, PADDING]
    else if |d| == 2 then
      [Index(d[0] / 4), Index(d[0] % 4 * 16 + d[1] / 16), Index(d[1] % 16 * 4), PADDING]
    else Quad(d[0], d[1], d[2]) + Encode(d[3..])
  }

  /** The length after padding: whole groups of four. */
  function Padded(n: nat): (r: nat) {
    4 * ((n + 2) / 3)
  }

  /** Three bytes give four characters, and an incomplete group is padded to four. */
  lemma {:induction false} EncodeLength(d: seq<byte>)
    ensures |Encode(d)| == Padded(|d|)
    decreases |d|
  {
    if |d| >= 3 {
      EncodeLength(d[3..]);
    }
  }

  /**
   * What the encoder has in its buffer after some bytes: whole characters and,
   * unless a group is complete, a last position holding bare leftover bits.
   */
  function Open(d: seq<byte>): (s: seq<byte>)
    decreases |d|
  {
    if |d| == 0 then []
    else if |d| == 1 then [Index(d[0] / 4), d[0] % 4 * 16]
    else if |d| == 2 then [Index(d[0] / 4), Index(d[0] % 4 * 16 + d[1] / 16), d[1] % 16 * 4]
    else Quad(d[0], d[1], d[2]) + Open(d[3..])
  }

  /** The position the encoder returns. */
  function Position(n: nat): nat {
    n / 3 * 4 + n % 3
  }

  lemma {:induction false} OpenLength(d: seq<byte>)
    ensures |Open(d)| == Position(|d|) + if |d| % 3 == 0 then 0 else 1
    decreases |d|
  {
    if |d| >= 3 {
      OpenLength(d[3..]);
    }
  }

  /** The bare bits at the end of an open group: the high two or the high four of six. */
  predicate Leftover(s: seq<byte>, fill: nat) {
    && fill < 3
    && (fill == 1 ==> s != [] && s[|s| - 1] <= 48 && s[|s| - 1] % 16 == 0)
    && (fill == 2 ==> s != [] && s[|s| - 1] <= 60 && s[|s| - 1] % 4 == 0)
  }

  /** One more byte, by the fill of the last group. */
  function Extend(s: seq<byte>, fill: nat, ch: byte): seq<byte>
    requires Leftover(s, fill)
  {
    var n := |s| - 1;
    if fill == 0 then s + [Index(ch / 4), ch % 4 * 16]
    else if fill == 1 then s[..n] + [Index(s[n] + ch / 16), ch % 16 * 4]
    else s[..n] + [Index(s[n] + ch / 64), Index(ch % 64)]
  }

  lemma {:induction false} OpenLeftover(d: seq<byte>)
    ensures Leftover(Open(d), |d| % 3)
    decreases |d|
  {
    hide Quad, Index;
    if |d| >= 3 {
      var q, s := Quad(d[0], d[1], d[2]), Open(d[3..]);
      OpenLeftover(d[3..]);
      assert s != [] ==> (q + s)[|q + s| - 1] == s[|s| - 1];
    }
  }

  lemma {:induction false} OpenSnocShort(d: seq<byte>, ch: byte)
    requires |d| < 3
    ensures Leftover(Open(d), |d| % 3)
    ensures Extend(Open(d), |d| % 3, ch) == Open(d + [ch])
  {
    OpenLeftover(d);
    hide Index;
    if |d| == 2 {
      assert (d + [ch])[3..] == [];
    }
  }

  /** The incremental step is what the definition asks for. */
  lemma {:induction false} OpenSnoc(d: seq<byte>, ch: byte)
    ensures Leftover(Open(d), |d| % 3)
    ensures Extend(Open(d), |d| % 3, ch) == Open(d + [ch])
    decreases |d|
  {
    hide Quad, Extend, Leftover;
    if |d| >= 3 {
      OpenSnoc(d[3..], ch);
      assert (d + [ch])[3..] == d[3..] + [ch];
      ExtendBehind(Quad(d[0], d[1], d[2]), Open(d[3..]), |d| % 3, ch);
    } else {
      OpenSnocShort(d, ch);
    }
  }

  lemma {:induction false} ExtendBehind(q: seq<byte>, s: seq<byte>, fill: nat, ch: byte)
    requires Leftover(s, fill)
    ensures Leftover(q + s, fill)
    ensures Extend(q + s, fill, ch) == q + Extend(s, fill, ch)
  {
    hide Index, Extend, Leftover;
    LeftoverBehind(q, s, fill);
    ExtendIs(s, fill, ch);
    ExtendIs(q + s, fill, ch);
    if fill == 0 {
      Associate(q, s, [Index(ch / 4), ch % 4 * 16]);
    } else {
      var l, init := s[|s| - 1], s[..|s| - 1];
      assert (q + s)[..|q + s| - 1] == q + init && (q + s)[|q + s| - 1] == l;
      if fill == 1 {
        Associate(q, init, [Index(l + ch / 16), ch % 16 * 4]);
      } else {
        Associate(q, init, [Index(l + ch / 64), Index(ch % 64)]);
      }
    }
  }

  lemma {:induction false} LeftoverBehind(q: seq<byte>, s: seq<byte>, fill: nat)
    requires Leftover(s, fill)
    ensures Leftover(q + s, fill) && fill < 3 && (fill > 0 ==> s != [])
  {
    assert s != [] ==> (q + s)[|q + s| - 1] == s[|s| - 1];
  }

  /** Closing: the leftover bits become a character, and padding fills the group. */
  function Close(s: seq<byte>, fill: nat): seq<byte>
    requires Leftover(s, fill)
  {
    var n := |s| - 1;
    if fill == 0 then s
    else if fill == 1 then s[..n] + [Index(s[n]), PADDING, PADDING]
    else s[..n] + [Index(s[n]), PADDING]
  }

  lemma {:induction false} CloseIsEncode(d: seq<byte>)
    ensures Leftover(Open(d), |d| % 3)
    ensures Close(Open(d), |d| % 3) == Encode(d)
    decreases |d|
  {
    hide Quad, Leftover, Index;
    OpenLeftover(d);
    if |d| >= 3 {
      CloseIsEncode(d[3..]);
      CloseBehind(Quad(d[0], d[1], d[2]), Open(d[3..]), |d| % 3);
    }
  }

  lemma {:induction false} CloseBehind(q: seq<byte>, s: seq<byte>, fill: nat)
    requires Leftover(s, fill)
    ensures Leftover(q + s, fill)
    ensures Close(q + s, fill) == q + Close(s, fill)
  {
    hide Index;
    if fill > 0 {
      assert (q + s)[..|q + s| - 1] == q + s[..|s| - 1];
    }
  }

  // ------------------------------------------------------------------
  // The encoder on its buffer

  lemma {:induction false} FillIs(n: nat)
    ensures Position(n) % 4 % 3 == n % 3 && Position(n) % 4 == n % 3
    ensures Position(n + 1) == Position(n) + if n % 3 == 2 then 2 else 1
  {
    var q, r := n / 3, n % 3;
    assert Position(n) == 4 * q + r;
    assert (n + 1) / 3 == if r == 2 then q + 1 else q;
  }

  /** The buffer after the bytes `d`: the open form, up to the returned position. */
  ghost predicate Holds(to: array<byte>, n: nat, d: seq<byte>)
    reads to
  {
    n == Position(|d|) && |Open(d)| <= to.Length && to[..|Open(d)|] == Open(d)
  }

  /** `mg_base64_update`; `d` are the bytes taken before. */
  method Update(ch: byte, to: array<byte>, n: nat, ghost d: seq<byte>) returns (r: nat)
    requires Holds(to, n, d) && n + 1 < to.Length
    modifies to
    ensures Holds(to, r, d + [ch])
  {
    hide Open, Index, Extend, Leftover, Position;
    FillIs(|d|);
    OpenLength(d);
    OpenLength(d + [ch]);
    OpenSnoc(d, ch);
    ghost var s := Open(d);
    ExtendIs(s, |d| % 3, ch);
    var rem := n % 4 % 3;
    r := n;
    if rem == 0 {
      to[r] := Index(ch / 4);
      r := r + 1;
      to[r] := ch % 4 * 16;
      assert to[..r + 1] == s + [Index(ch / 4), ch % 4 * 16];
    } else if rem == 1 {
      LastOf(to[..], s, n);
      to[r] := Index(to[r] + ch / 16);
      r := r + 1;
      to[r] := ch % 16 * 4;
      assert to[..r + 1] == s[..n] + [Index(s[n] + ch / 16), ch % 16 * 4];
    } else {
      LastOf(to[..], s, n);
      to[r] := Index(to[r] + ch / 64);
      r := r + 1;
      to[r] := Index(ch % 64);
      r := r + 1;
      assert to[..r] == s[..n] + [Index(s[n] + ch / 64), Index(ch % 64)];
    }
  }

  lemma {:induction false} ExtendIs(s: seq<byte>, fill: nat, ch: byte)
    requires Leftover(s, fill)
    ensures fill == 0 ==> Extend(s, fill, ch) == s + [Index(ch / 4), ch % 4 * 16]
    ensures fill == 1 ==>
      && s != [] && s[|s| - 1] + ch / 16 < 64
      && Extend(s, fill, ch) == s[..|s| - 1] + [Index(s[|s| - 1] + ch / 16), ch % 16 * 4]
    ensures fill == 2 ==>
      && s != [] && s[|s| - 1] + ch / 64 < 64
      && Extend(s, fill, ch) == s[..|s| - 1] + [Index(s[|s| - 1] + ch / 64), Index(ch % 64)]
  {
    hide Index;
  }

  lemma {:induction false} LastOf(t: seq<byte>, s: seq<byte>, n: nat)
    requires |s| == n + 1 <= |t| && t[..|s|] == s
    ensures t[n] == s[n] && t[..n] == s[..n]
  {
    assert t[..n] == t[..|s|][..n];
  }

  /** Where `mg_base64_final` stands when it starts to pad, by the fill of the last group. */
  ghost predicate Ready(t: seq<byte>, n: nat, s: seq<byte>, fill: nat) {
    && Leftover(s, fill)
    && n <= |t| && t[..n] == Close(s, fill)[..|Close(s, fill)| - if fill == 0 then 0 else 3 - fill]
  }

  /** The last group is flushed by feeding a zero byte and giving up what it adds. */
  method Flush(to: array<byte>, n: nat, ghost d: seq<byte>) returns (r: nat)
    requires Holds(to, n, d) && Padded(|d|) < to.Length
    modifies to
    ensures Ready(to[..], r, Open(d), |d| % 3)
    ensures r == Padded(|d|) - (if |d| % 3 == 0 then 0 else 3 - |d| % 3)
  {
    hide Open, Index, Extend, Leftover, Position, Close, Ready;
    FillIs(|d|);
    OpenLength(d);
    OpenLength(d + [0]);
    OpenSnoc(d, 0);
    ghost var s, fill := Open(d), |d| % 3;
    PositionIs(|d|);
    r := n;
    if n % 4 != 0 {
      r := Update(0, to, r, d);
      PositionIs(|d| + 1);
    } else {
      assert to[..n] == s;
    }
    if n % 4 == 2 {
      r := r - 1;
    }
    assert r == if fill == 0 then n else n + 1;
    FlushReady(to[..], r, s, fill);
  }

  lemma {:induction false} PositionIs(n: nat)
    ensures Position(n) == Padded(n) - if n % 3 == 0 then 0 else 4 - n % 3
  {
    var q, f := n / 3, n % 3;
    assert n == 3 * q + f;
    assert (n + 2) / 3 == if f == 0 then q else q + 1;
  }

  /** What feeding a zero leaves, up to where the padding starts. */
  lemma {:induction false} FlushReady(t: seq<byte>, r: nat, s: seq<byte>, fill: nat)
    requires Leftover(s, fill) && r == |s|
    requires fill == 0 ==> r <= |t| && t[..r] == s
    requires fill > 0 ==> |Extend(s, fill, 0)| <= |t| && t[..|Extend(s, fill, 0)|] == Extend(s, fill, 0)
    ensures Ready(t, r, s, fill)
  {
    if fill > 0 {
      LastZero(s, fill);
      Cut(t, Extend(s, fill, 0), r);
    }
  }

  lemma {:induction false} Cut(t: seq<byte>, s: seq<byte>, n: nat)
    ensures n <= |s| <= |t| && t[..|s|] == s ==> t[..n] == s[..n]
  {
    if n <= |s| <= |t| && t[..|s|] == s {
      assert t[..n] == t[..|s|][..n];
    }
  }

  /** Extending by a zero byte keeps the leftover bits as the last character of the group. */
  lemma {:induction false} LastZero(s: seq<byte>, fill: nat)
    requires Leftover(s, fill) && fill > 0
    ensures var e := Extend(s, fill, 0);
            |e| >= |s| && e[..|s|] == s[..|s| - 1] + [Index(s[|s| - 1])] == Close(s, fill)[..|s|]
  {
    hide Index;
  }

  lemma {:induction false} ReadyPrefix(t: seq<byte>, n: nat, s: seq<byte>, fill: nat)
    requires Leftover(s, fill) && Ready(t, n, s, fill)
    ensures n <= |t| && n <= |Close(s, fill)| && t[..n] == Close(s, fill)[..n]
  {
    hide Index;
    assert |t[..n]| == n;
  }

  lemma {:induction false} PaddedWhole(n: nat)
    ensures Padded(n) % 4 == 0
  {
  }

  /** `mg_base64_final`. */
  method Final(to: array<byte>, n: nat, ghost d: seq<byte>) returns (r: nat)
    requires Holds(to, n, d) && Padded(|d|) < to.Length
    modifies to
    ensures r == Padded(|d|) && to[..r] == Encode(d) && to[r] == 0
  {
    hide Open, Encode, Index, Leftover, Close, Ready, Padded;
    PaddedWhole(|d|);
    ghost var c := Encode(d);
    CloseIsEncode(d);
    EncodeLength(d);
    r := Flush(to, n, d);
    PaddingAtEnd(Open(d), |d| % 3);
    ReadyPrefix(to[..], r, Open(d), |d| % 3);
    assert to[..r] == c[..r];
    while r % 4 != 0
      invariant r <= Padded(|d|) < r + 3 && to[..r] == c[..r]
      invariant forall k :: r <= k < |c| ==> c[k] == PADDING
      decreases Padded(|d|) - r
    {
      assert r < Padded(|d|);
      to[r] := PADDING;
      assert to[..r + 1] == c[..r] + [c[r]] == c[..r + 1];
      r := r + 1;
    }
    assert r == Padded(|d|) && c[..r] == c;
    to[r] := 0;
    assert to[..r] == c;
  }

  lemma {:induction false} PaddingAtEnd(s: seq<byte>, fill: nat)
    requires Leftover(s, fill)
    ensures var c := Close(s, fill);
            forall k :: 0 <= |c| - (if fill == 0 then 0 else 3 - fill) <= k < |c| ==> c[k] == PADDING
  {
    hide Index;
  }

  /** `mg_base64_encode`: the buffer holds the encoding and a terminating zero. */
  method EncodeBytes(p: seq<byte>, to: array<byte>) returns (len: nat)
    requires Padded(|p|) < to.Length
    modifies to
    ensures len == Padded(|p|) && to[..len] == Encode(p) && to[len] == 0
  {
    hide Open, Encode, Index;
    len := 0;
    OpenLength([]);
    for i := 0 to |p|
      invariant Holds(to, len, p[..i])
    {
      Fits(i, |p|);
      len := Update(p[i], to, len, p[..i]);
      assert p[..i] + [p[i]] == p[..i + 1];
    }
    assert p[..|p|] == p;
    len := Final(to, len, p);
  }

  lemma {:induction false} Fits(i: nat, n: nat)
    requires i < n
    ensures Position(i) + 1 < Padded(n) + 1
  {
  }

  // ------------------------------------------------------------------
  // Decoding

  datatype Decoded = Bad | Good(bytes: seq<byte>)

  /** One group of four characters: three bytes, two before one padding, one before two. */
  function Group(w: byte, x: byte, y: byte, z: byte): (g: Decoded)
  {
    var a, b, c, d := Reverse(w), Reverse(x), Reverse(y), Reverse(z);
    if a == 64 || a < 0 || b == 64 || b < 0 || c < 0 || d < 0 then Bad
    else
      var first := (a * 4 + b / 16) as byte;
      if y == PADDING then Good([first])
      else
        var second := (b % 16 * 16 + c / 4) as byte;
        if z == PADDING then Good([first, second])
        else Good([first, second, (c % 4 * 64 + d) as byte])
  }

  /** Groups until fewer than four characters are left; those are ignored. */
  function Decode(s: seq<byte>): Decoded
    decreases |s|
  {
    if |s| < 4 then Good([])
    else
      var g, rest := Group(s[0], s[1], s[2], s[3]), Decode(s[4..]);
      if g.Bad? || rest.Bad? then Bad else Good(g.bytes + rest.bytes)
  }

  lemma {:induction false} GroupUndoesQuad(a: byte, b: byte, c: byte)
    ensures var q := Quad(a, b, c); Group(q[0], q[1], q[2], q[3]) == Good([a, b, c])
  {
    hide Index, Reverse;
    ReverseIndex(a / 4);
    ReverseIndex(a % 4 * 16 + b / 16);
    ReverseIndex(b % 16 * 4 + c / 64);
    ReverseIndex(c % 64);
  }

  lemma {:induction false} GroupUndoesShort(a: byte, b: byte)
    ensures Group(Index(a / 4), Index(a % 4 * 16), PADDING, PADDING) == Good([a])
    ensures Group(Index(a / 4), Index(a % 4 * 16 + b / 16), Index(b % 16 * 4), PADDING) == Good([a, b])
  {
    hide Index, Reverse;
    ReverseIndex(a / 4);
    ReverseIndex(a % 4 * 16);
    ReverseIndex(a % 4 * 16 + b / 16);
    ReverseIndex(b % 16 * 4);
    assert Reverse(PADDING) == 64 by { ReversePadding(); }
  }

  lemma {:induction false} ReversePadding()
    ensures Reverse(PADDING) == 64
  {
  }

  /** Decoding the encoder's output gives back every byte string. */
  lemma {:induction false} RoundTrip(d: seq<byte>)
    ensures Decode(Encode(d)) == Good(d)
    decreases |d|
  {
    hide Group, Index, Quad;
    if |d| >= 3 {
      GroupUndoesQuad(d[0], d[1], d[2]);
      RoundTrip(d[3..]);
      var q := Quad(d[0], d[1], d[2]);
      assert (q + Encode(d[3..]))[4..] == Encode(d[3..]);
      assert [d[0], d[1], d[2]] + d[3..] == d;
    } else if |d| > 0 {
      GroupUndoesShort(d[0], d[|d| - 1]);
      assert Encode(d)[4..] == [];
    }
  }

  /** What the rest of the input adds to the bytes decoded so far. */
  ghost function After(done: seq<byte>, s: seq<byte>): Decoded {
    var rest := Decode(s);
    if rest.Bad? then Bad else Good(done + rest.bytes)
  }

  lemma {:induction false} AfterGroup(done: seq<byte>, s: seq<byte>)
    requires |s| >= 4
    ensures var g := Group(s[0], s[1], s[2], s[3]);
            After(done, s) == if g.Bad? then Bad else After(done + g.bytes, s[4..])
  {
    hide Group;
    var g, rest := Group(s[0], s[1], s[2], s[3]), Decode(s[4..]);
    if g.Good? && rest.Good? {
      Associate(done, g.bytes, rest.bytes);
    }
  }

  /** One turn of the decoding loop: the group's bytes go to the output, or it is refused. */
  method StoreGroup(src: seq<byte>, dst: array<byte>, n: nat) returns (ok: bool, len: nat)
    requires |src| == 4 && n + 3 < dst.Length
    modifies dst
    ensures var g := Group(src[0], src[1], src[2], src[3]);
      && ok == g.Good?
      && (ok ==> n <= len <= n + 3 && dst[..len] == old(dst[..n]) + g.bytes)
  {
    hide Reverse;
    var a, b, c, d := Reverse(src[0]), Reverse(src[1]), Reverse(src[2]), Reverse(src[3]);
    if a == 64 || a < 0 || b == 64 || b < 0 || c < 0 || d < 0 {
      return false, 0;
    }
    len := n;
    dst[len] := (a * 4 + b / 16) as byte;
    len := len + 1;
    if src[2] != PADDING {
      dst[len] := (b % 16 * 16 + c / 4) as byte;
      len := len + 1;
      if src[3] != PADDING {
        dst[len] := (c % 4 * 64 + d) as byte;
        len := len + 1;
      }
    }
    ok := true;
  }

  /** `mg_base64_decode`: the decoded bytes and a terminating zero, or the result 0. */
  method DecodeChars(src: seq<byte>, dst: array<byte>) returns (len: nat)
    requires |src| / 4 * 3 < dst.Length
    modifies dst
    ensures Decode(src) == Bad ==> len == 0
    ensures Decode(src).Good? ==>
      len < dst.Length && dst[..len] == Decode(src).bytes && dst[len] == 0
  {
    hide Decode, Group, After;
    len := 0;
    AfterNone(src);
    assert src[0..] == src;
    var i := 0;
    while i + 3 < |src|
      invariant i <= |src| && i % 4 == 0 && len <= i / 4 * 3
      invariant After(dst[..len], src[i..]) == Decode(src)
    {
      ghost var done, s := dst[..len], src[i..];
      AfterGroup(done, s);
      assert s[4..] == src[i + 4..];
      DecodeRoom(i, |src|);
      var ok;
      ok, len := StoreGroup(src[i..i + 4], dst, len);
      if !ok {
        return 0;
      }
      i := i + 4;
    }
    AfterShort(dst[..len], src[i..]);
    dst[len] := 0;
  }

  lemma {:induction false} AfterNone(s: seq<byte>)
    ensures After([], s) == Decode(s)
  {
  }

  lemma {:induction false} AfterShort(done: seq<byte>, s: seq<byte>)
    requires |s| < 4
    ensures After(done, s) == Good(done)
  {
  }

  lemma {:induction false} DecodeRoom(i: nat, n: nat)
    requires i + 3 < n && i % 4 == 0
    ensures i / 4 * 3 + 3 <= n / 4 * 3 && (i + 4) / 4 * 3 == i / 4 * 3 + 3
  {
  }

  // ------------------------------------------------------------------
  // The alphabet and the digits

  /** The alphabet of table 1 of RFC 4648. */
  lemma {:induction false} Alphabet(c: byte)
    requires c < 64
    ensures c < 26 ==> Index(c) as int == 'A' as int + c as int <= 'Z' as int
    ensures 26 <= c < 52 ==> Index(c) as int == 'a' as int + (c as int - 26) <= 'z' as int
    ensures 52 <= c < 62 ==> Index(c) as int == '0' as int + (c as int - 52) <= '9' as int
    ensures c == 62 ==> Index(c) as int == '+' as int
    ensures c == 63 ==> Index(c) as int == '/' as int
  {
  }

  /** A character has the value of its place there, the padding has 64, and nothing else has a value. */
  lemma {:induction false} ReverseIff(x: byte, c: byte)
    requires c < 64
    ensures Reverse(x) == c as int <==> x == Index(c)
    ensures Reverse(x) == 64 <==> x == 61
  {
  }

  /** Four characters are the digits, to the base 64, of the number that three bytes spell. */
  lemma {:induction false} Digits64(a: byte, b: byte, c: byte, rest: seq<byte>)
    ensures var s := Encode([a, b, c] + rest);
            && |s| >= 4 && s[4..] == Encode(rest)
            && (forall k :: 0 <= k < 4 ==> 0 <= Reverse(s[k]) < 64)
            && ((Reverse(s[0]) * 64 + Reverse(s[1])) * 64 + Reverse(s[2])) * 64 + Reverse(s[3])
               == (a as int * 256 + b as int) * 256 + c as int
  {
    hide Index, Reverse;
    var d := [a, b, c] + rest;
    assert d[3..] == rest;
    ReverseIndex(a / 4);
    ReverseIndex(a % 4 * 16 + b / 16);
    ReverseIndex(b % 16 * 4 + c / 64);
    ReverseIndex(c % 64);
  }

  /** The last bytes of an incomplete group, with zero bits and padding behind them. */
  lemma {:induction false} LastDigits(a: byte, b: byte)
    ensures var s := Encode([a]);
            && |s| == 4 && s[2..] == [61, 61]
            && Reverse(s[0]) * 64 + Reverse(s[1]) == a as int * 16
    ensures var s := Encode([a, b]);
            && |s| == 4 && s[3] == 61
            && (Reverse(s[0]) * 64 + Reverse(s[1])) * 64 + Reverse(s[2]) == (a as int * 256 + b as int) * 4
  {
    hide Index, Reverse;
    ReverseIndex(a / 4);
    ReverseIndex(a % 4 * 16);
    ReverseIndex(a % 4 * 16 + b / 16);
    ReverseIndex(b % 16 * 4);
  }

  /**
   * One group of the decoder in numbers: the first two characters must have values,
   * the others values or padding; padding in third place leaves one byte, in fourth
   * place two, and what the digits have to spare is dropped.
   */
  lemma {:induction false} GroupDigits(w: byte, x: byte, y: byte, z: byte)
    ensures var g, a, b, c, d := Group(w, x, y, z), Reverse(w), Reverse(x), Reverse(y), Reverse(z);
            && (g.Good? <==> 0 <= a < 64 && 0 <= b < 64 && 0 <= c && 0 <= d)
            && (g.Good? && y == 61 ==> |g.bytes| == 1 && g.bytes[0] as int == (a * 64 + b) / 16)
            && (g.Good? && y != 61 && z == 61 ==>
                  |g.bytes| == 2 && g.bytes[0] as int * 256 + g.bytes[1] as int == ((a * 64 + b) * 64 + c) / 4)
            && (g.Good? && y != 61 && z != 61 ==>
                  |g.bytes| == 3
                  && (g.bytes[0] as int * 256 + g.bytes[1] as int) * 256 + g.bytes[2] as int
                     == ((a * 64 + b) * 64 + c) * 64 + d)
  {
    hide Reverse;
  }
}
