/**
 * The two UTF-8 checks of src/common/common_utf8.cpp, against the syntax of
 * byte sequences in section 4 of RFC 3629 and the encoder of its section 3.
 *
 * Masks with a power of two are written as remainders and digits.
 */
module Utf8 {
  import opened Bytes

  // ------------------------------------------------------------------
  // The standard

  predicate Tail(c: byte) {
    0x80 <= c <= 0xBF
  }

  /** The octets of the character at the head, by the productions of section 4; 0 if none fits. */
  function CharLength(t: seq<byte>): (n: nat)
    ensures n <= 4 && n <= |t|
  {
    if |t| >= 1 && t[0] <= 0x7F then 1
    else if |t| >= 2 && 0xC2 <= t[0] <= 0xDF && Tail(t[1]) then 2
    else if |t| >= 3 && Three(t[0], t[1]) && Tail(t[2]) then 3
    else if |t| >= 4 && Four(t[0], t[1]) && Tail(t[2]) && Tail(t[3]) then 4
    else 0
  }

  /** The first two octets of a three-octet character: no overlong form, no surrogate. */
  predicate Three(a: byte, b: byte) {
    || (a == 0xE0 && 0xA0 <= b <= 0xBF)
    || (0xE1 <= a <= 0xEC && Tail(b))
    || (a == 0xED && 0x80 <= b <= 0x9F)
    || (0xEE <= a <= 0xEF && Tail(b))
  }

  /** The first two octets of a four-octet character: no overlong form, nothing past U+10FFFF. */
  predicate Four(a: byte, b: byte) {
    || (a == 0xF0 && 0x90 <= b <= 0xBF)
    || (0xF1 <= a <= 0xF3 && Tail(b))
    || (a == 0xF4 && 0x80 <= b <= 0x8F)
  }

  /** U+FFFE at the head. */
  predicate SwappedMark(t: seq<byte>) {
    |t| >= 3 && t[0] == 0xEF && t[1] == 0xBF && t[2] == 0xBE
  }

  /** Well-formed text without U+FFFE. */
  predicate WellFormed(t: seq<byte>)
    decreases |t|
  {
    t == [] ||
    (CharLength(t) > 0 && !SwappedMark(t) && WellFormed(t[CharLength(t)..]))
  }

  predicate Scalar(cp: nat) {
    cp < 0x11_0000 && !(0xD800 <= cp <= 0xDFFF) && cp != 0xFFFE
  }

  /** The encoder of section 3. */
  function Utf8(cp: nat): (s: seq<byte>)
    requires Scalar(cp)
    ensures 1 <= |s| <= 4
  {
    if cp < 0x80 then [cp as byte]
    else if cp < 0x800 then [(0xC0 + cp / 64) as byte, (0x80 + cp % 64) as byte]
    else if cp < 0x1_0000 then
      [(0xE0 + cp / 4096) as byte, (0x80 + cp / 64 % 64) as byte, (0x80 + cp % 64) as byte]
    else
      [(0xF0 + cp / 0x4_0000) as byte, (0x80 + cp / 4096 % 64) as byte,
       (0x80 + cp / 64 % 64) as byte, (0x80 + cp % 64) as byte]
  }

  predicate AllScalars(cps: seq<nat>) {
    forall k :: 0 <= k < |cps| ==> Scalar(cps[k])
  }

  function Text(cps: seq<nat>): seq<byte>
    requires AllScalars(cps)
  {
    if cps == [] then [] else Utf8(cps[0]) + Text(cps[1..])
  }

  /** The character number the head stands for. */
  function CodePoint(t: seq<byte>): (cp: nat)
    requires CharLength(t) > 0
  {
    var n := CharLength(t);
    if n == 1 then t[0] as nat
    else if n == 2 then (t[0] as nat - 0xC0) * 64 + (t[1] as nat - 0x80)
    else if n == 3 then
      (t[0] as nat - 0xE0) * 4096 + (t[1] as nat - 0x80) * 64 + (t[2] as nat - 0x80)
    else
      (t[0] as nat - 0xF0) * 0x4_0000 + (t[1] as nat - 0x80) * 4096
      + (t[2] as nat - 0x80) * 64 + (t[3] as nat - 0x80)
  }

  lemma {:induction false} ThreeEncodes(a: nat, b: nat, c: nat, cp: nat)
    requires b < 64 && c < 64 && cp == a * 4096 + b * 64 + c
    ensures cp / 4096 == a && cp / 64 % 64 == b && cp % 64 == c
  {
    assert cp / 64 == a * 64 + b;
  }

  lemma {:induction false} FourEncodes(a: nat, b: nat, c: nat, d: nat, cp: nat)
    requires b < 64 && c < 64 && d < 64 && cp == a * 0x4_0000 + b * 4096 + c * 64 + d
    ensures cp / 0x4_0000 == a && cp / 4096 % 64 == b && cp / 64 % 64 == c && cp % 64 == d
  {
    ThreeEncodes(a, b, c, cp / 64);
    assert cp / 4096 == a * 64 + b;
  }

  lemma {:induction false} CodePointEncodes(t: seq<byte>)
    requires CharLength(t) > 0 && !SwappedMark(t)
    ensures Scalar(CodePoint(t)) && Utf8(CodePoint(t)) == t[..CharLength(t)]
  {
    var cp, n := CodePoint(t), CharLength(t);
    if n == 3 {
      CodePointThree(t);
    } else if n == 4 {
      CodePointFour(t);
    }
  }

  lemma {:induction false} CodePointThree(t: seq<byte>)
    requires CharLength(t) == 3 && !SwappedMark(t)
    ensures Scalar(CodePoint(t)) && Utf8(CodePoint(t)) == t[..3]
  {
    var a, b, c := t[0] as nat - 0xE0, t[1] as nat - 0x80, t[2] as nat - 0x80;
    ThreeEncodes(a, b, c, CodePoint(t));
    assert CodePoint(t) == a * 4096 + b * 64 + c;
    assert t[..3] == [t[0], t[1], t[2]];
  }

  lemma {:induction false} CodePointFour(t: seq<byte>)
    requires CharLength(t) == 4 && !SwappedMark(t)
    ensures Scalar(CodePoint(t)) && Utf8(CodePoint(t)) == t[..4]
  {
    var a, b, c, d := t[0] as nat - 0xF0, t[1] as nat - 0x80, t[2] as nat - 0x80, t[3] as nat - 0x80;
    FourEncodes(a, b, c, d, CodePoint(t));
    assert t[..4] == [t[0], t[1], t[2], t[3]];
  }

  lemma {:induction false} EncodedIsChar(cp: nat, rest: seq<byte>)
    requires Scalar(cp)
    ensures CharLength(Utf8(cp) + rest) == |Utf8(cp)| && !SwappedMark(Utf8(cp) + rest)
  {
    if 0x800 <= cp < 0x1_0000 {
      EncodedIsThree(cp, rest);
    } else if cp >= 0x1_0000 {
      EncodedIsFour(cp, rest);
    }
  }

  lemma {:induction false} EncodedIsThree(cp: nat, rest: seq<byte>)
    requires Scalar(cp) && 0x800 <= cp < 0x1_0000
    ensures CharLength(Utf8(cp) + rest) == 3 && !SwappedMark(Utf8(cp) + rest)
  {
    var a, b, c := cp / 4096, cp / 64 % 64, cp % 64;
    assert cp == a * 4096 + b * 64 + c by { assert cp / 64 == a * 64 + b; }
    var t := Utf8(cp) + rest;
    assert t[0] as nat == 0xE0 + a && t[1] as nat == 0x80 + b && t[2] as nat == 0x80 + c;
  }

  lemma {:induction false} EncodedIsFour(cp: nat, rest: seq<byte>)
    requires Scalar(cp) && 0x1_0000 <= cp
    ensures CharLength(Utf8(cp) + rest) == 4 && !SwappedMark(Utf8(cp) + rest)
  {
    var a, b := cp / 0x4_0000, cp / 4096 % 64;
    assert cp / 4096 == a * 64 + b;
    var t := Utf8(cp) + rest;
    assert t[0] as nat == 0xF0 + a && t[1] as nat == 0x80 + b;
  }

  lemma {:induction false} TextIsWellFormed(cps: seq<nat>)
    requires AllScalars(cps)
    ensures WellFormed(Text(cps))
    decreases |cps|
  {
    hide CharLength, SwappedMark, Utf8;
    if cps != [] {
      EncodedIsChar(cps[0], Text(cps[1..]));
      TextIsWellFormed(cps[1..]);
      assert (Utf8(cps[0]) + Text(cps[1..]))[|Utf8(cps[0])|..] == Text(cps[1..]);
    }
  }

  lemma {:induction false} WellFormedIsText(t: seq<byte>) returns (cps: seq<nat>)
    requires WellFormed(t)
    ensures AllScalars(cps) && Text(cps) == t
    decreases |t|
  {
    hide CharLength, SwappedMark, Utf8, CodePoint;
    if t == [] {
      cps := [];
    } else {
      var n := CharLength(t);
      CodePointEncodes(t);
      var rest := WellFormedIsText(t[n..]);
      cps := [CodePoint(t)] + rest;
      assert cps[1..] == rest;
      assert t[..n] + t[n..] == t;
    }
  }

  /** The syntax of section 4 describes exactly what the encoder of section 3 writes. */
  lemma {:induction false} WellFormedIff(t: seq<byte>)
    ensures WellFormed(t) <==> exists cps :: AllScalars(cps) && Text(cps) == t
  {
    if WellFormed(t) {
      var cps := WellFormedIsText(t);
    }
    forall cps | AllScalars(cps) && Text(cps) == t
      ensures WellFormed(t)
    {
      TextIsWellFormed(cps);
    }
  }

  // ------------------------------------------------------------------
  // The sliding top bit

  /** The length the high bits of a first octet announce; 0 if it cannot come first. */
  function Octets(lead: byte): nat {
    if lead < 0x80 then 1
    else if lead < 0xC0 then 0
    else if lead < 0xE0 then 2
    else if lead < 0xF0 then 3
    else if lead < 0xF8 then 4
    else if lead < 0xFC then 5
    else if lead < 0xFE then 6
    else 0
  }

  predicate Tails(t: seq<byte>, k: nat)
    requires k <= |t|
  {
    forall j :: 1 <= j < k ==> Tail(t[j])
  }

  /** The octets run together: six bits for each after the first. */
  function Accumulated(t: seq<byte>, k: nat): (r: nat)
    requires 1 <= k <= |t| && Tails(t, k)
  {
    if k == 1 then t[0] as nat else Accumulated(t, k - 1) * 64 + (t[k - 1] as nat - 128)
  }

  /** The top bit after `k` octets: 0x40 shifted by five for every further one. */
  function Top(k: nat): nat
    requires 1 <= k <= 6
  {
    if k == 1 then 0x40
    else if k == 2 then 0x800
    else if k == 3 then 0x1_0000
    else if k == 4 then 0x20_0000
    else if k == 5 then 0x400_0000
    else 0x8000_0000
  }

  /** `x & top` is not zero, for one bit or none in `top`. */
  predicate Bit(x: nat, top: nat) {
    top > 0 && x / top % 2 == 1
  }

  /** `x & ((top << 1) - 1)` in 32 bits. */
  function Below(x: nat, top: nat): nat {
    if top == 0 || top * 2 >= 0x1_0000_0000 then x else x % (top * 2)
  }

  /** The least number that needs `n` octets: `1 << (5 * n - 4)` from three on. */
  function Least(n: nat): nat {
    if n == 1 then 0
    else if n == 2 then 0x80
    else if n == 3 then 0x800
    else if n == 4 then 0x1_0000
    else if n == 5 then 0x20_0000
    else 0x400_0000
  }

  predicate Accepted(cp: nat, n: nat) {
    !(cp < Least(n) || cp >= 0x11_0000 || cp == 0xFFFE || (cp >= 0xD800 && cp <= 0xDFFF))
  }

  lemma {:induction false} AccumulatedIs(t: seq<byte>, k: nat)
    requires 1 <= k <= 6 && k <= |t| && Tails(t, k)
    ensures var a := Accumulated(t, k);
      && (k == 1 ==> a == t[0] as nat)
      && (k == 2 ==> t[0] as nat * 64 <= a < t[0] as nat * 64 + 64)
      && (k == 3 ==> t[0] as nat * 0x1000 <= a < t[0] as nat * 0x1000 + 0x1000)
      && (k == 4 ==> t[0] as nat * 0x4_0000 <= a < t[0] as nat * 0x4_0000 + 0x4_0000)
      && (k == 5 ==> t[0] as nat * 0x100_0000 <= a < t[0] as nat * 0x100_0000 + 0x100_0000)
      && (k == 6 ==> t[0] as nat * 0x4000_0000 <= a < t[0] as nat * 0x4000_0000 + 0x4000_0000)
    decreases k
  {
    if k > 1 {
      AccumulatedIs(t, k - 1);
    }
  }

  /** The bit under the top bit is the next high bit of the first octet. */
  lemma {:induction false} TopBit(t: seq<byte>, k: nat)
    requires 1 <= k <= 6 && k <= |t| && Tails(t, k)
    requires 0xC0 <= t[0] < 0xFE && k <= Octets(t[0])
    ensures Bit(Accumulated(t, k) % 0x1_0000_0000, Top(k)) <==> k < Octets(t[0])
  {
    hide Accumulated, Tails, Bit;
    AccumulatedIs(t, k);
    if k <= 3 {
      ShortTopBit(t[0] as nat, Accumulated(t, k), k);
    } else {
      LongTopBit(t[0] as nat, Accumulated(t, k), k);
    }
  }

  lemma {:induction false} ShortTopBit(lead: nat, a: nat, k: nat)
    requires 1 <= k <= 3 && lead < 256
    requires k == 1 ==> a == lead
    requires k == 2 ==> lead * 64 <= a < lead * 64 + 64
    requires k == 3 ==> lead * 0x1000 <= a < lead * 0x1000 + 0x1000
    ensures Bit(a % 0x1_0000_0000, Top(k))
      <==> (if k == 1 then lead / 64 else if k == 2 then lead / 32 else lead / 16) % 2 == 1
  {
    if k == 2 {
      assert a / 0x800 == lead / 32;
    } else if k == 3 {
      assert a / 0x1_0000 == lead / 16;
    }
  }

  lemma {:induction false} LongTopBit(lead: nat, a: nat, k: nat)
    requires 4 <= k <= 6 && lead < 256
    requires k == 4 ==> lead * 0x4_0000 <= a < lead * 0x4_0000 + 0x4_0000
    requires k == 5 ==> lead * 0x100_0000 <= a < lead * 0x100_0000 + 0x100_0000
    requires k == 6 ==> lead * 0x4000_0000 <= a < lead * 0x4000_0000 + 0x4000_0000
    ensures Bit(a % 0x1_0000_0000, Top(k))
      <==> (if k == 4 then lead / 8 else if k == 5 then lead / 4 else lead / 2) % 2 == 1
  {
    if k == 4 {
      assert a / 0x20_0000 == lead / 8;
    } else if k == 5 {
      assert a / 0x400_0000 == lead / 4;
    } else {
      LastTopBit(lead, a);
    }
  }

  lemma {:induction false} LastTopBit(lead: nat, a: nat)
    requires lead * 0x4000_0000 <= a < lead * 0x4000_0000 + 0x4000_0000
    ensures a % 0x1_0000_0000 / 0x8000_0000 == lead / 2 % 2
  {
    var q, s, low := lead / 4, lead % 4, a - lead * 0x4000_0000;
    assert lead == 4 * q + s;
    var r := s * 0x4000_0000 + low;
    Mod32(a, q, r);
    HalfWord(s, low);
  }

  lemma {:induction false} HalfWord(s: nat, low: nat)
    requires s < 4 && low < 0x4000_0000
    ensures (s * 0x4000_0000 + low) / 0x8000_0000 == s / 2
  {
  }

  /** The final range test accepts exactly the characters of section 4. */
  lemma {:induction false} Verdict(t: seq<byte>, k: nat)
    requires 1 <= k <= 6 && k <= |t| && Tails(t, k) && k == Octets(t[0])
    ensures Accepted(Below(Accumulated(t, k) % 0x1_0000_0000, if k == 1 then 0 else Top(k)), k)
            <==> CharLength(t) > 0 && !SwappedMark(t)
    ensures CharLength(t) == 0 || CharLength(t) == k
  {
    if k == 1 || k == 2 {
      ShortVerdict(t, k);
    } else if k == 3 {
      ThreeVerdict(t);
    } else if k == 4 {
      FourVerdict(t);
    } else {
      hide Accumulated;
      assert CharLength(t) == 0;
    }
  }

  lemma {:induction false} ShortVerdict(t: seq<byte>, k: nat)
    requires 1 <= k <= 2 && k <= |t| && Tails(t, k) && k == Octets(t[0])
    ensures Accepted(Below(Accumulated(t, k) % 0x1_0000_0000, if k == 1 then 0 else Top(k)), k)
            <==> CharLength(t) > 0 && !SwappedMark(t)
    ensures CharLength(t) == 0 || CharLength(t) == k
  {
    if k == 2 {
      assert Accumulated(t, 1) == t[0] as nat;
      assert Accumulated(t, 2) == 0x3000 + (t[0] as nat - 0xC0) * 64 + (t[1] as nat - 128);
    }
  }

  lemma {:induction false} ThreeVerdict(t: seq<byte>)
    requires 3 <= |t| && Tails(t, 3) && 3 == Octets(t[0])
    ensures Accepted(Below(Accumulated(t, 3) % 0x1_0000_0000, 0x1_0000), 3)
            <==> CharLength(t) > 0 && !SwappedMark(t)
    ensures CharLength(t) == 0 || CharLength(t) == 3
  {
    hide Accumulated, Tails, Below;
    AccumulatedThree(t);
    var cp := (t[0] as nat - 0xE0) * 4096 + (t[1] as nat - 128) * 64 + (t[2] as nat - 128);
    BelowIs(Accumulated(t, 3), 7, cp, 0x1_0000);
  }

  lemma {:induction false} FourVerdict(t: seq<byte>)
    requires 4 <= |t| && Tails(t, 4) && 4 == Octets(t[0])
    ensures Accepted(Below(Accumulated(t, 4) % 0x1_0000_0000, 0x20_0000), 4)
            <==> CharLength(t) > 0 && !SwappedMark(t)
    ensures CharLength(t) == 0 || CharLength(t) == 4
  {
    hide Four, Accumulated, Tails, Below;
    AccumulatedFour(t);
    var cp := (t[0] as nat - 0xF0) * 0x4_0000 + (t[1] as nat - 128) * 4096
              + (t[2] as nat - 128) * 64 + (t[3] as nat - 128);
    BelowIs(Accumulated(t, 4), 15, cp, 0x20_0000);
    FourRange(t, cp);
  }

  lemma {:induction false} AccumulatedFour(t: seq<byte>)
    requires 4 <= |t| && Tails(t, 4)
    ensures Tail(t[1]) && Tail(t[2]) && Tail(t[3])
    ensures Accumulated(t, 4) == t[0] as nat * 0x4_0000 + (t[1] as nat - 128) * 4096
                                 + (t[2] as nat - 128) * 64 + (t[3] as nat - 128)
  {
    AccumulatedThree(t);
    assert Accumulated(t, 4) == Accumulated(t, 3) * 64 + (t[3] as nat - 128);
  }

  lemma {:induction false} AccumulatedThree(t: seq<byte>)
    requires 3 <= |t| && Tails(t, 3)
    ensures Tail(t[1]) && Tail(t[2])
    ensures Accumulated(t, 3) == t[0] as nat * 0x1000 + (t[1] as nat - 128) * 64 + (t[2] as nat - 128)
  {
    assert Accumulated(t, 2) == Accumulated(t, 1) * 64 + (t[1] as nat - 128);
  }

  /** Cutting off the length bits in front of the number. */
  lemma {:induction false} BelowIs(a: nat, k: nat, cp: nat, top: nat)
    requires top == 0x1_0000 || top == 0x20_0000
    requires k < 16 && cp < 2 * top && a == k * (2 * top) + cp
    ensures Below(a % 0x1_0000_0000, top) == cp
  {
    Mod32(a, 0, a);
    if top == 0x1_0000 {
      assert a == k * 0x2_0000 + cp;
      assert a % 0x2_0000 == cp;
    } else {
      assert a == k * 0x40_0000 + cp;
      assert a % 0x40_0000 == cp;
    }
  }

  lemma {:induction false} FourRange(t: seq<byte>, cp: nat)
    requires |t| >= 4 && 0xF0 <= t[0] < 0xF8 && Tail(t[1]) && Tail(t[2]) && Tail(t[3])
    requires cp == (t[0] as nat - 0xF0) * 0x4_0000 + (t[1] as nat - 128) * 4096
                   + (t[2] as nat - 128) * 64 + (t[3] as nat - 128)
    ensures 0x1_0000 <= cp < 0x11_0000 <==> Four(t[0], t[1])
  {
  }

  /** An octet that is no continuation ends every hope of a character here. */
  lemma {:induction false} Broken(t: seq<byte>, k: nat)
    requires t != [] && 1 <= k < Octets(t[0]) && k <= |t|
    requires k < |t| ==> !Tail(t[k])
    ensures CharLength(t) == 0
  {
  }

  /** The memory of a C string: one zero, at the end. */
  predicate Terminated(str: seq<byte>) {
    && str != [] && str[|str| - 1] == 0
    && forall k :: 0 <= k < |str| - 1 ==> str[k] != 0
  }

  /** The loop body: one character from `i`, and where the next one starts. */
  method ReadChar(str: seq<byte>, i: nat) returns (ok: bool, next: nat)
    requires Terminated(str) && i < |str| - 1
    ensures var t := str[i..|str| - 1];
      && ok == (CharLength(t) > 0 && !SwappedMark(t))
      && (ok ==> next == i + CharLength(t) < |str|)
  {
    hide CharLength, SwappedMark, Accumulated, Bit, Below, Accepted, Top;
    ghost var t := str[i..|str| - 1];
    next := i;
    var codepoint: nat := str[next] as nat;
    next := next + 1;
    var top := if codepoint >= 0x80 then 0x40 else 0;
    if codepoint / 64 == 2 || codepoint >= 0xFE {
      LeadRefused(t);
      return false, next;
    }
    FirstStep(t);
    while Bit(codepoint, top)
      invariant 1 <= next - i <= Octets(t[0]) && next - i <= |t| && Tails(t, next - i)
      invariant codepoint == Accumulated(t, next - i) % 0x1_0000_0000
      invariant top == if t[0] < 0x80 then 0 else Top(next - i)
      invariant Bit(codepoint, top) <==> next - i < Octets(t[0])
      decreases |str| - next
    {
      ghost var k := next - i;
      var tmp := str[next] as int - 128;
      next := next + 1;
      if tmp < 0 || tmp >= 64 {
        Broken(t, k);
        return false, next;
      }
      NextStep(t, k, codepoint);
      codepoint := (codepoint * 64 + tmp) % 0x1_0000_0000;
      top := top * 32 % 0x1_0000_0000;
    }
    codepoint := Below(codepoint, top);
    Verdict(t, next - i);
    ok := Accepted(codepoint, next - i);
  }

  lemma {:induction false} LeadRefused(t: seq<byte>)
    requires t != [] && (0x80 <= t[0] < 0xC0 || t[0] >= 0xFE)
    ensures CharLength(t) == 0
  {
  }

  lemma {:induction false} FirstStep(t: seq<byte>)
    requires t != [] && (t[0] < 0x80 || 0xC0 <= t[0] < 0xFE)
    ensures Accumulated(t, 1) % 0x1_0000_0000 == t[0] as nat && Top(1) == 0x40
    ensures Bit(t[0] as nat, if t[0] < 0x80 then 0 else 0x40) <==> 1 < Octets(t[0])
  {
    if t[0] >= 0xC0 {
      TopBit(t, 1);
    }
  }

  lemma {:induction false} NextStep(t: seq<byte>, k: nat, cp: nat)
    requires 1 <= k < |t| && k < Octets(t[0]) && Tails(t, k) && Tail(t[k])
    requires cp == Accumulated(t, k) % 0x1_0000_0000
    ensures Tails(t, k + 1) && t[0] >= 0xC0
    ensures (cp * 64 + (t[k] as int - 128)) % 0x1_0000_0000 == Accumulated(t, k + 1) % 0x1_0000_0000
    ensures Top(k) * 32 % 0x1_0000_0000 == Top(k + 1)
    ensures Bit(Accumulated(t, k + 1) % 0x1_0000_0000, Top(k + 1)) <==> k + 1 < Octets(t[0])
  {
    hide Bit, Top;
    TopBit(t, k + 1);
    WrapStep(Accumulated(t, k), cp, t[k] as int - 128);
    TopStep(k);
  }

  lemma {:induction false} WrapStep(a: nat, cp: nat, x: nat)
    requires cp == a % 0x1_0000_0000
    ensures (cp * 64 + x) % 0x1_0000_0000 == (a * 64 + x) % 0x1_0000_0000
  {
    var q, y := a / 0x1_0000_0000, cp * 64 + x;
    var k, r := y / 0x1_0000_0000, y % 0x1_0000_0000;
    assert a == q * 0x1_0000_0000 + cp;
    assert a * 64 + x == (64 * q + k) * 0x1_0000_0000 + r;
    Mod32(a * 64 + x, 64 * q + k, r);
  }

  lemma {:induction false} TopStep(k: nat)
    requires 1 <= k <= 5
    ensures Top(k) * 32 % 0x1_0000_0000 == Top(k + 1)
  {
  }

  /**
   * `is_utf8_chars`: true exactly when the bytes before the zero are well-formed
   * without U+FFFE. All its reads are inside `str`, so none is past the zero.
   */
  method IsUtf8Chars(str: seq<byte>) returns (r: bool)
    requires Terminated(str)
    ensures r == WellFormed(str[..|str| - 1])
  {
    hide CharLength, SwappedMark;
    var i := 0;
    assert str[0..|str| - 1] == str[..|str| - 1];
    while str[i] != 0
      invariant i < |str|
      invariant WellFormed(str[..|str| - 1]) == WellFormed(str[i..|str| - 1])
      decreases |str| - i
    {
      var ok, next := ReadChar(str, i);
      if !ok {
        return false;
      }
      assert str[i..|str| - 1][next - i..] == str[next..|str| - 1];
      i := next;
    }
    assert str[i..|str| - 1] == [];
    r := true;
  }

  // ------------------------------------------------------------------
  // The second check

  /** The length `is_utf8_str` reads off a first byte; 0 if it refuses it. */
  function Announced(c: byte): nat {
    if c < 0x80 then 1
    else if c >= 0xFC && c <= 0xFD then 6
    else if c >= 0xF8 then 5
    else if c >= 0xF0 then 4
    else if c >= 0xE0 then 3
    else if c >= 0xC0 then 2
    else 0
  }

  /** First bytes each followed by as many continuation bytes as announced. */
  predicate Grouped(t: seq<byte>)
    decreases |t|
  {
    t == [] ||
    (1 <= Announced(t[0]) <= |t| && Tails(t, Announced(t[0])) && Grouped(t[Announced(t[0])..]))
  }

  /** With some continuation bytes still owed. */
  predicate Owing(t: seq<byte>, owed: nat) {
    && owed <= |t|
    && (forall j :: 0 <= j < owed ==> Tail(t[j]))
    && Grouped(t[owed..])
  }

  lemma {:induction false} OwingStep(t: seq<byte>, owed: nat)
    requires t != []
    ensures owed > 0 ==> (Owing(t, owed) <==> Tail(t[0]) && Owing(t[1..], owed - 1))
    ensures owed == 0 && Announced(t[0]) > 0 ==> (Owing(t, 0) <==> Owing(t[1..], Announced(t[0]) - 1))
    ensures owed == 0 && Announced(t[0]) == 0 ==> !Owing(t, 0)
  {
    hide Announced;
    assert t[0..] == t;
    if owed > 0 {
      if owed <= |t| {
        assert t[1..][owed - 1..] == t[owed..];
        assert Owing(t[1..], owed - 1) && Tail(t[0]) ==>
          forall j :: 0 <= j < owed ==> j == 0 || t[j] == t[1..][j - 1];
        assert Owing(t, owed) ==> forall j :: 0 <= j < owed - 1 ==> t[1..][j] == t[j + 1];
      }
    } else if 0 < Announced(t[0]) <= |t| {
      var n := Announced(t[0]);
      assert t[1..][n - 1..] == t[n..];
      assert Owing(t[1..], n - 1) ==> forall j :: 1 <= j < n ==> t[j] == t[1..][j - 1];
      assert Tails(t, n) ==> forall j :: 0 <= j < n - 1 ==> t[1..][j] == t[j + 1];
    }
  }

  /** `is_utf8_str`. */
  method IsUtf8Str(str: seq<byte>) returns (r: bool)
    ensures r == Grouped(str)
  {
    hide Grouped, Owing;
    var bytesCount := 0;
    assert str[0..] == str;
    OwingNone(str);
    for i := 0 to |str|
      invariant bytesCount <= 5
      invariant Grouped(str) == Owing(str[i..], bytesCount)
    {
      var chr := str[i];
      OwingStep(str[i..], bytesCount);
      assert str[i..][1..] == str[i + 1..];
      if bytesCount == 0 {
        if chr >= 0x80 {
          if chr >= 0xFC && chr <= 0xFD {
            bytesCount := 6;
          } else if chr >= 0xF8 {
            bytesCount := 5;
          } else if chr >= 0xF0 {
            bytesCount := 4;
          } else if chr >= 0xE0 {
            bytesCount := 3;
          } else if chr >= 0xC0 {
            bytesCount := 2;
          } else {
            return false;
          }
          bytesCount := bytesCount - 1;
        }
      } else {
        if !Tail(chr) {
          return false;
        }
        bytesCount := bytesCount - 1;
      }
    }
    OwingEnd(str[|str|..], bytesCount);
    r := bytesCount == 0;
  }

  lemma {:induction false} OwingNone(t: seq<byte>)
    ensures Owing(t, 0) == Grouped(t)
  {
    assert t[0..] == t;
  }

  lemma {:induction false} OwingEnd(t: seq<byte>, owed: nat)
    requires t == []
    ensures Owing(t, owed) <==> owed == 0
  {
  }

  /** The second check accepts whatever the first does ... */
  lemma {:induction false} WellFormedIsGrouped(t: seq<byte>)
    requires WellFormed(t)
    ensures Grouped(t)
    decreases |t|
  {
    if t != [] {
      CharIsGroup(t);
      WellFormedIsGrouped(t[CharLength(t)..]);
    }
  }

  lemma {:induction false} CharIsGroup(t: seq<byte>)
    requires CharLength(t) > 0
    ensures Announced(t[0]) == CharLength(t) && Tails(t, CharLength(t))
  {
  }

  /** ... and more: it accepts byte 255 as the first of five. */
  lemma {:induction false} GroupedIsLax()
    ensures var t := [0xFF, 0x80, 0x80, 0x80, 0x80]; Grouped(t) && !WellFormed(t)
  {
    var t: seq<byte> := [0xFF, 0x80, 0x80, 0x80, 0x80];
    assert t[5..] == [];
    assert CharLength(t) == 0;
  }

  /** Two bytes that never stand next to each other: overlong forms, surrogates, numbers past U+10FFFF. */
  predicate BadPair(a: byte, b: byte) {
    || (a == 0xE0 && 0x80 <= b <= 0x9F)
    || (a == 0xED && 0xA0 <= b <= 0xBF)
    || (a == 0xF0 && 0x80 <= b <= 0x8F)
    || (a == 0xF4 && 0x90 <= b <= 0xBF)
  }

  predicate BadByte(c: byte) {
    c == 0xC0 || c == 0xC1 || c >= 0xF5
  }

  /** The mark EF BF BE at position `i`. */
  predicate MarkAt(t: seq<byte>, i: nat) {
    i + 2 < |t| && t[i] == 0xEF && t[i + 1] == 0xBF && t[i + 2] == 0xBE
  }

  /** What the second check overlooks is nowhere in the text. */
  predicate Unremarkable(t: seq<byte>) {
    && (forall i :: 0 <= i < |t| ==> !BadByte(t[i]))
    && (forall i :: 0 < i < |t| ==> !BadPair(t[i - 1], t[i]))
    && (forall i :: 0 <= i < |t| ==> !MarkAt(t, i))
  }

  /** Nothing remarkable starts inside a group, so it is looked for in the first group and behind. */
  lemma {:induction false} UnremarkableSplit(t: seq<byte>, n: nat)
    requires 1 <= n <= |t| && Tails(t, n)
    ensures Unremarkable(t) <==>
      && !BadByte(t[0]) && (|t| > 1 ==> !BadPair(t[0], t[1])) && !MarkAt(t, 0)
      && Unremarkable(t[n..])
  {
    hide BadByte, BadPair, MarkAt;
    forall i: nat | i < |t| - n
      ensures MarkAt(t[n..], i) == MarkAt(t, n + i)
    {
      MarkShifts(t, n, i);
    }
    forall i | 1 <= i < n
      ensures !BadByte(t[i]) && !MarkAt(t, i) && (i + 1 < |t| ==> !BadPair(t[i], t[i + 1]))
    {
      TailHarmless(t, i);
    }
    if Unremarkable(t) {
      forall i | 0 <= i < |t[n..]|
        ensures !BadByte(t[n..][i]) && !MarkAt(t[n..], i) && (i > 0 ==> !BadPair(t[n..][i - 1], t[n..][i]))
      {
        assert t[n..][i] == t[n + i] && (i > 0 ==> t[n..][i - 1] == t[n + i - 1]);
        assert !BadByte(t[n + i]) && !MarkAt(t, n + i);
      }
    }
    if !BadByte(t[0]) && (|t| > 1 ==> !BadPair(t[0], t[1])) && !MarkAt(t, 0) && Unremarkable(t[n..]) {
      forall i | 0 <= i < |t|
        ensures !BadByte(t[i]) && !MarkAt(t, i) && (i > 0 ==> !BadPair(t[i - 1], t[i]))
      {
        if i >= n {
          assert t[n..][i - n] == t[i] && !MarkAt(t[n..], i - n);
        }
        if i > n {
          assert t[n..][i - n - 1] == t[i - 1];
        }
      }
    }
  }

  lemma {:induction false} MarkShifts(t: seq<byte>, n: nat, i: nat)
    requires n + i < |t|
    ensures MarkAt(t[n..], i) == MarkAt(t, n + i)
  {
  }

  lemma {:induction false} TailHarmless(t: seq<byte>, i: nat)
    requires i < |t| && Tail(t[i])
    ensures !BadByte(t[i]) && !MarkAt(t, i) && (i + 1 < |t| ==> !BadPair(t[i], t[i + 1]))
  {
  }

  /** A group is a character exactly if its head is unremarkable. */
  lemma {:induction false} GroupIsCharIff(t: seq<byte>)
    requires t != [] && 1 <= Announced(t[0]) <= |t| && Tails(t, Announced(t[0]))
    ensures CharLength(t) > 0 && !SwappedMark(t) <==>
            !BadByte(t[0]) && (|t| > 1 ==> !BadPair(t[0], t[1])) && !MarkAt(t, 0)
    ensures CharLength(t) > 0 ==> CharLength(t) == Announced(t[0])
  {
    var n := Announced(t[0]);
    assert n > 1 ==> Tail(t[1]);
    assert n > 2 ==> Tail(t[2]);
    assert n > 3 ==> Tail(t[3]);
  }

  /** What the second check accepts is well-formed exactly if a scan finds nothing it overlooks. */
  lemma {:induction false} SecondCheckIff(t: seq<byte>)
    requires Grouped(t)
    ensures WellFormed(t) <==> Unremarkable(t)
    decreases |t|
  {
    hide CharLength, SwappedMark, BadByte, BadPair, MarkAt, Unremarkable, Announced, Tails;
    if t == [] {
      NothingRemarkable();
    } else {
      var n := Announced(t[0]);
      GroupIsCharIff(t);
      UnremarkableSplit(t, n);
      SecondCheckIff(t[n..]);
    }
  }

  lemma {:induction false} NothingRemarkable()
    ensures Unremarkable([])
  {
  }

  // ------------------------------------------------------------------
  // Numbers

  /** The characters: up to U+10FFFF, no surrogates, and not the one number the check refuses. */
  lemma {:induction false} ScalarIff(cp: nat)
    ensures Scalar(cp) <==> cp <= 0xD7FF || (0xE000 <= cp <= 0xFFFD) || cp == 0xFFFF || (0x1_0000 <= cp <= 0x10_FFFF)
  {
  }

  /** The examples of section 7 of RFC 3629. */
  lemma {:induction false} Rfc3629Examples()
    ensures Text([0x41, 0x2262, 0x391, 0x2E]) == [0x41, 0xE2, 0x89, 0xA2, 0xCE, 0x91, 0x2E]
    ensures Utf8(0xD55C) == [0xED, 0x95, 0x9C] && Utf8(0x233B4) == [0xF0, 0xA3, 0x8E, 0xB4]
    ensures !WellFormed([0xEF, 0xBF, 0xBE]) && WellFormed([0xEF, 0xBF, 0xBF])
  {
    assert Utf8(0x41) == [0x41] && Utf8(0x2262) == [0xE2, 0x89, 0xA2] && Utf8(0x391) == [0xCE, 0x91] && Utf8(0x2E) == [0x2E];
    var cps: seq<nat> := [0x41, 0x2262, 0x391, 0x2E];
    assert cps[1..] == [0x2262, 0x391, 0x2E] && cps[1..][1..] == [0x391, 0x2E];
    assert cps[1..][1..][1..] == [0x2E] && cps[1..][1..][1..][1..] == [];
    var mark: seq<byte> := [0xEF, 0xBF, 0xBF];
    assert mark[3..] == [];
  }

  /** A first byte with some continuation bytes: how many the second check asks for, byte by byte. */
  lemma {:induction false} GroupByFirst(c: byte, t: seq<byte>)
    requires forall i :: 0 <= i < |t| ==> 0x80 <= t[i] <= 0xBF
    ensures Grouped([c] + t) <==>
            || (c < 0x80 && |t| == 0)
            || (0xC0 <= c < 0xE0 && |t| == 1)
            || (0xE0 <= c < 0xF0 && |t| == 2)
            || (0xF0 <= c < 0xF8 && |t| == 3)
            || (((0xF8 <= c < 0xFC) || c == 0xFE || c == 0xFF) && |t| == 4)
            || ((c == 0xFC || c == 0xFD) && |t| == 5)
  {
    var all, n := [c] + t, Announced(c);
    if 1 <= n <= |all| {
      var rest := all[n..];
      assert rest != [] ==> rest[0] == t[n - 1];
      assert rest != [] ==> Announced(rest[0]) == 0;
      assert Grouped(rest) <==> rest == [];
      assert forall i :: 1 <= i < n ==> all[i] == t[i - 1];
    }
  }
}
