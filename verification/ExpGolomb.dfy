/**
 * The bit readers of src/codec/codec_utils.cpp, against the descriptors u(n),
 * ue(v) and se(v) of ITU-T H.264 (sections 7.2, 9.1 and 9.1.1).
 */
module ExpGolomb {
  import opened Bytes

  // ------------------------------------------------------------------
  // Bits

  /** `0x80 >> r`. */
  function Weight(r: nat): (w: nat)
    requires r < 8
    ensures w > 0
  {
    if r == 0 then 128 else if r == 1 then 64 else if r == 2 then 32 else if r == 3 then 16
    else if r == 4 then 8 else if r == 5 then 4 else if r == 6 then 2 else 1
  }

  predicate BitAt(buf: seq<byte>, i: nat)
    requires i < 8 * |buf|
  {
    buf[i / 8] as nat / Weight(i % 8) % 2 == 1
  }

  /** The buffer as a bit string, most significant bit of each byte first. */
  function Bits(buf: seq<byte>): (b: seq<bool>)
    ensures |b| == 8 * |buf|
    ensures forall i :: 0 <= i < |b| ==> b[i] == BitAt(buf, i)
  {
    seq(8 * |buf|, i requires 0 <= i < 8 * |buf| => BitAt(buf, i))
  }

  lemma {:induction false} Pow2Byte(n: nat)
    ensures Pow2(n + 8) == 256 * Pow2(n)
  {
    assert Pow2(n + 2) == 4 * Pow2(n);
    assert Pow2(n + 4) == 4 * Pow2(n + 2);
    assert Pow2(n + 6) == 4 * Pow2(n + 4);
  }

  lemma {:induction false} Pow2Values()
    ensures Pow2(30) == 0x4000_0000 && Pow2(31) == 0x8000_0000
    ensures Pow2(64) == 0x1_0000_0000_0000_0000
  {
    assert Pow2(0) == 1;
    Pow2Byte(0);
    Pow2Byte(8);
    Pow2Byte(16);
    Pow2Byte(24);
    Pow2Byte(32);
    Pow2Byte(40);
    Pow2Byte(48);
    Pow2Byte(56);
  }

  /** The number a bit string stands for. */
  function Value(b: seq<bool>): nat
    decreases |b|
  {
    if b == [] then 0 else Value(b[..|b| - 1]) * 2 + if b[|b| - 1] then 1 else 0
  }

  /** A number in `n` bits. */
  function Fixed(v: nat, n: nat): (b: seq<bool>)
    ensures |b| == n
  {
    if n == 0 then [] else Fixed(v / 2, n - 1) + [v % 2 == 1]
  }

  lemma {:induction false} ValueFixed(v: nat, n: nat)
    requires v < Pow2(n)
    ensures Value(Fixed(v, n)) == v
  {
    if n > 0 {
      ValueFixed(v / 2, n - 1);
      assert Fixed(v, n)[..n - 1] == Fixed(v / 2, n - 1);
    }
  }

  lemma {:induction false} FixedValue(b: seq<bool>)
    ensures Fixed(Value(b), |b|) == b && Value(b) < Pow2(|b|)
    decreases |b|
  {
    if b != [] {
      var init := b[..|b| - 1];
      FixedValue(init);
      assert init + [b[|b| - 1]] == b;
      assert Value(b) / 2 == Value(init) && (Value(b) % 2 == 1 <==> b[|b| - 1]);
      assert Fixed(Value(b), |b|) == Fixed(Value(init), |b| - 1) + [b[|b| - 1]];
    }
  }

  lemma {:induction false} ValueSnoc(b: seq<bool>, i: nat, k: nat)
    requires i + k < |b|
    ensures Value(b[i..i + k + 1]) == Value(b[i..i + k]) * 2 + if b[i + k] then 1 else 0
  {
    assert b[i..i + k + 1][..k] == b[i..i + k];
  }

  /** A leading one adds its weight. */
  lemma {:induction false} ValueOne(b: seq<bool>)
    ensures Value([true] + b) == Pow2(|b|) + Value(b)
    decreases |b|
  {
    if b != [] {
      ValueOne(b[..|b| - 1]);
      assert ([true] + b)[..|b|] == [true] + b[..|b| - 1];
    } else {
      assert ([true] + b)[..0] == [];
    }
  }

  // ------------------------------------------------------------------
  // The codes

  /** The position of the leading one. */
  function Log(v: nat): (n: nat)
    requires v > 0
    ensures Pow2(n) <= v < 2 * Pow2(n)
  {
    if v == 1 then 0 else 1 + Log(v / 2)
  }

  function Zeros(n: nat): (b: seq<bool>)
    ensures |b| == n && forall i :: 0 <= i < n ==> !b[i]
  {
    seq(n, _ => false)
  }

  /** ue(v), section 9.1: as many zeros as there are bits after the leading one of k + 1. */
  function UeCode(k: nat): (b: seq<bool>) {
    Zeros(Log(k + 1)) + Fixed(k + 1, Log(k + 1) + 1)
  }

  /** se(v), section 9.1.1: positive values take the odd code numbers. */
  function Mapped(v: int): nat {
    if v > 0 then 2 * v - 1 else -2 * v
  }

  function SeCode(v: int): seq<bool> {
    UeCode(Mapped(v))
  }

  // ------------------------------------------------------------------
  // What the readers find

  /** The zeros from position `i` on. */
  function Run(b: seq<bool>, i: nat): (n: nat)
    requires i <= |b|
    ensures i + n <= |b| && (forall j :: i <= j < i + n ==> !b[j]) && (i + n < |b| ==> b[i + n])
    decreases |b| - i
  {
    if i < |b| && !b[i] then 1 + Run(b, i + 1) else 0
  }

  /** A whole code with at most 30 leading zeros lies at position `i`. */
  predicate Whole(b: seq<bool>, i: nat) {
    i <= |b| && Run(b, i) <= 30 && i + 2 * Run(b, i) + 1 <= |b|
  }

  function UeValue(b: seq<bool>, i: nat): nat
    requires Whole(b, i)
  {
    var n := Run(b, i);
    Pow2(n) - 1 + Value(b[i + n + 1..i + 2 * n + 1])
  }

  function UeNext(b: seq<bool>, i: nat): nat
    requires Whole(b, i)
  {
    i + 2 * Run(b, i) + 1
  }

  /** `ceil(k / 2)`, negated for even code numbers. */
  function Unmapped(k: nat): int {
    if k % 2 == 0 then -((k + 1) / 2) else (k + 1) / 2
  }

  lemma {:induction false} UnmappedMapped(v: int)
    ensures Unmapped(Mapped(v)) == v
  {
  }

  /** The reader finds the number of every code it is put at ... */
  lemma {:induction false} UeReadsBack(b: seq<bool>, i: nat, k: nat)
    requires k + 1 < 0x8000_0000
    requires i + |UeCode(k)| <= |b| && b[i..i + |UeCode(k)|] == UeCode(k)
    ensures Whole(b, i) && UeValue(b, i) == k && UeNext(b, i) == i + |UeCode(k)|
  {
    hide Value, Fixed, Run, UeCode;
    var n, c := Log(k + 1), UeCode(k);
    LogSmall(k + 1);
    UeCodeShape(k);
    forall j | i <= j < i + |c|
      ensures b[j] == c[j - i]
    {
      assert b[j] == b[i..i + |c|][j - i];
    }
    RunIs(b, i, n);
    assert b[i + n + 1..i + 2 * n + 1] == c[n + 1..];
  }

  lemma {:induction false} UeCodeShape(k: nat)
    ensures var n, c := Log(k + 1), UeCode(k);
      && |c| == 2 * n + 1 && c[n] && (forall j :: 0 <= j < n ==> !c[j])
      && Pow2(n) - 1 + Value(c[n + 1..]) == k
  {
    hide Value, Fixed;
    var n, c := Log(k + 1), UeCode(k);
    FixedLead(k + 1, n);
    var f := Fixed(k + 1, n + 1);
    assert c[n + 1..] == f[1..];
    assert f == [true] + f[1..];
    ValueOne(f[1..]);
    ValueFixed(k + 1, n + 1);
  }

  lemma {:induction false} LogSmall(v: nat)
    requires 0 < v < 0x8000_0000
    ensures Log(v) <= 30
  {
    if Log(v) > 30 {
      Pow2Grows(31, Log(v));
      Pow2Values();
    }
  }

  lemma {:induction false} Pow2Grows(m: nat, n: nat)
    requires m <= n
    ensures Pow2(m) <= Pow2(n)
    decreases n
  {
    if m < n {
      Pow2Grows(m, n - 1);
    }
  }

  /** In just enough bits the first is a one. */
  lemma {:induction false} FixedLead(v: nat, n: nat)
    requires Pow2(n) <= v < 2 * Pow2(n)
    ensures Fixed(v, n + 1)[0]
    decreases n
  {
    if n > 0 {
      FixedLead(v / 2, n - 1);
    }
  }

  lemma {:induction false} RunIs(b: seq<bool>, i: nat, n: nat)
    requires i + n < |b| && b[i + n] && forall j :: i <= j < i + n ==> !b[j]
    ensures Run(b, i) == n
    decreases n
  {
    if n > 0 {
      RunIs(b, i + 1, n - 1);
    }
  }

  /** ... and consumes exactly the code of the number it returns. */
  lemma {:induction false} UeExact(b: seq<bool>, i: nat)
    requires Whole(b, i)
    ensures b[i..UeNext(b, i)] == UeCode(UeValue(b, i))
    ensures UeValue(b, i) + 1 < 0x8000_0000
  {
    hide Value, Fixed, Pow2, Log, UeCode, Run;
    var n := Run(b, i);
    var low := b[i + n + 1..i + 2 * n + 1];
    CodeFromLow(low);
    assert b[i..i + 2 * n + 1] == Zeros(n) + ([true] + low);
    FixedValue(low);
    Pow2Grows(n, 30);
    Pow2Values();
  }

  lemma {:induction false} CodeFromLow(low: seq<bool>)
    ensures UeCode(Pow2(|low|) - 1 + Value(low)) == Zeros(|low|) + ([true] + low)
  {
    hide Value, Fixed;
    FixedValue([true] + low);
    ValueOne(low);
    FixedValue(low);
    LogIs(Pow2(|low|) + Value(low), |low|);
  }

  lemma {:induction false} LogIs(v: nat, n: nat)
    requires Pow2(n) <= v < 2 * Pow2(n)
    ensures Log(v) == n
  {
    var m := Log(v);
    if m < n {
      Pow2Grows(m + 1, n);
    } else if m > n {
      Pow2Grows(n + 1, m);
    }
  }

  // ------------------------------------------------------------------
  // A list of codes

  datatype Element = Plain(width: nat, value: nat) | Exp(number: nat) | SignedExp(signed: int)

  datatype Descriptor = FixedWidth(width: nat) | Unsigned | Signed

  /** What the readers' integer types can hold: 64 bits for `u`, 31 for a code number. */
  predicate Writable(e: Element) {
    match e
    case Plain(n, v) => n <= 64 && v < Pow2(n)
    case Exp(k) => k + 1 < 0x8000_0000
    case SignedExp(v) => Mapped(v) + 1 < 0x8000_0000
  }

  function Code(e: Element): seq<bool> {
    match e
    case Plain(n, v) => Fixed(v, n)
    case Exp(k) => UeCode(k)
    case SignedExp(v) => SeCode(v)
  }

  function Codes(es: seq<Element>): seq<bool> {
    if es == [] then [] else Code(es[0]) + Codes(es[1..])
  }

  function DescriptorOf(e: Element): Descriptor {
    match e
    case Plain(n, _) => FixedWidth(n)
    case Exp(_) => Unsigned
    case SignedExp(_) => Signed
  }

  predicate Readable(b: seq<bool>, i: nat, d: Descriptor) {
    match d
    case FixedWidth(n) => i + n <= |b|
    case _ => Whole(b, i)
  }

  /** One reader call: the element and the new cursor. */
  function ReadOne(b: seq<bool>, i: nat, d: Descriptor): (Element, nat)
    requires Readable(b, i, d)
  {
    match d
    case FixedWidth(n) => (Plain(n, Value(b[i..i + n]) % 0x1_0000_0000_0000_0000), i + n)
    case Unsigned => (Exp(UeValue(b, i)), UeNext(b, i))
    case Signed => (SignedExp(Unmapped(UeValue(b, i))), UeNext(b, i))
  }

  datatype Reading = Truncated | Read(elements: seq<Element>, cursor: nat)

  function ReadAll(b: seq<bool>, i: nat, ds: seq<Descriptor>): Reading
    decreases |ds|
  {
    if ds == [] then Read([], i)
    else if !Readable(b, i, ds[0]) then Truncated
    else
      var (e, next) := ReadOne(b, i, ds[0]);
      var rest := ReadAll(b, next, ds[1..]);
      if rest.Truncated? then Truncated else Read([e] + rest.elements, rest.cursor)
  }

  function Descriptors(es: seq<Element>): (ds: seq<Descriptor>)
    ensures |ds| == |es|
  {
    if es == [] then [] else [DescriptorOf(es[0])] + Descriptors(es[1..])
  }

  lemma {:induction false} OneReadsBack(b: seq<bool>, i: nat, e: Element)
    requires Writable(e) && i + |Code(e)| <= |b| && b[i..i + |Code(e)|] == Code(e)
    ensures Readable(b, i, DescriptorOf(e))
    ensures ReadOne(b, i, DescriptorOf(e)) == (e, i + |Code(e)|)
  {
    hide Whole, UeValue, UeNext, UeCode, Unmapped, Mapped, Value, Fixed, Pow2;
    match e
    case Plain(n, v) =>
      ValueFixed(v, n);
      Pow2Grows(n, 64);
      Pow2Values();
    case Exp(k) => UeReadsBack(b, i, k);
    case SignedExp(v) =>
      UeReadsBack(b, i, Mapped(v));
      UnmappedMapped(v);
  }

  /**
   * Codes written one after another at any bit offset, with anything before and
   * after, are read back in order, and the cursor stands after the last.
   */
  lemma {:induction false} CodesReadBack(before: seq<bool>, es: seq<Element>, after: seq<bool>)
    requires forall k :: 0 <= k < |es| ==> Writable(es[k])
    ensures ReadAll(before + Codes(es) + after, |before|, Descriptors(es))
            == Read(es, |before| + |Codes(es)|)
    decreases |es|
  {
    hide ReadOne, Readable, Code, DescriptorOf, Writable;
    var b := before + Codes(es) + after;
    if es != [] {
      var c, rest := Code(es[0]), es[1..];
      assert b[|before|..|before| + |c|] == c;
      OneReadsBack(b, |before|, es[0]);
      CodesReadBack(before + c, rest, after);
      assert before + c + Codes(rest) + after == b;
      assert Descriptors(es)[1..] == Descriptors(rest);
      assert [es[0]] + rest == es;
    }
  }

  // ------------------------------------------------------------------
  // The readers

  /** `u`. */
  method U(bitCount: nat, buf: seq<byte>, startBit: nat) returns (r: nat, nStartBit: nat)
    requires startBit + bitCount <= 8 * |buf| < 0x1_0000_0000
    ensures Readable(Bits(buf), startBit, FixedWidth(bitCount))
    ensures (Plain(bitCount, r), nStartBit) == ReadOne(Bits(buf), startBit, FixedWidth(bitCount))
    ensures r == Value(Bits(buf)[startBit..startBit + bitCount]) % 0x1_0000_0000_0000_0000
    ensures nStartBit == startBit + bitCount
  {
    hide Value, BitAt, Bits;
    ghost var b := Bits(buf);
    r, nStartBit := 0, startBit;
    EmptyValue(b[startBit..startBit + 0]);
    for i := 0 to bitCount
      invariant nStartBit == startBit + i
      invariant r == Value(b[startBit..startBit + i]) % 0x1_0000_0000_0000_0000
    {
      ValueSnoc(b, startBit, i);
      ShiftIn(Value(b[startBit..startBit + i]), r, BitAt(buf, nStartBit));
      r := r * 2 % 0x1_0000_0000_0000_0000;
      if BitAt(buf, nStartBit) {
        r := r + 1;
      }
      nStartBit := nStartBit + 1;
    }
  }

  lemma {:induction false} EmptyValue(b: seq<bool>)
    requires b == []
    ensures Value(b) == 0
  {
  }

  lemma {:induction false} ShiftIn(v: nat, r: nat, bit: bool)
    requires r == v % 0x1_0000_0000_0000_0000
    ensures r * 2 % 0x1_0000_0000_0000_0000 + (if bit then 1 else 0)
            == (v * 2 + if bit then 1 else 0) % 0x1_0000_0000_0000_0000
  {
    var q, b := v / 0x1_0000_0000_0000_0000, if bit then 1 else 0;
    var k := if r * 2 >= 0x1_0000_0000_0000_0000 then 1 else 0;
    var low := r * 2 - k * 0x1_0000_0000_0000_0000;
    Mod64(r * 2, k, low);
    assert low + b < 0x1_0000_0000_0000_0000 by { EvenBelow(r, k, low); }
    Mod64(v * 2 + b, 2 * q + k, low + b);
  }

  lemma {:induction false} EvenBelow(r: nat, k: nat, low: nat)
    requires low == 2 * r - k * 0x1_0000_0000_0000_0000 && low < 0x1_0000_0000_0000_0000 && k <= 1
    ensures low + 1 < 0x1_0000_0000_0000_0000
  {
  }

  /** `Ue`. */
  method Ue(buf: seq<byte>, startBit: nat) returns (r: nat, nStartBit: nat)
    requires 8 * |buf| < 0x1_0000_0000 && Whole(Bits(buf), startBit)
    ensures r == UeValue(Bits(buf), startBit) && nStartBit == UeNext(Bits(buf), startBit)
    ensures r + 1 < 0x8000_0000
  {
    hide Value, BitAt, Bits, UeCode;
    ghost var b := Bits(buf);
    UeExact(b, startBit);
    var zeroNum := 0;
    nStartBit := startBit;
    while nStartBit < 8 * |buf|
      invariant nStartBit == startBit + zeroNum <= 8 * |buf|
      invariant zeroNum <= Run(b, startBit)
    {
      if BitAt(buf, nStartBit) {
        break;
      }
      assert !b[startBit + zeroNum];
      zeroNum := zeroNum + 1;
      nStartBit := nStartBit + 1;
    }
    assert zeroNum == Run(b, startBit);
    nStartBit := nStartBit + 1;
    ghost var from := nStartBit;
    r := 0;
    EmptyValue(b[from..from + 0]);
    for i := 0 to zeroNum
      invariant nStartBit == from + i && r == Value(b[from..from + i])
    {
      ValueSnoc(b, from, i);
      r := r * 2;
      if BitAt(buf, nStartBit) {
        r := r + 1;
      }
      nStartBit := nStartBit + 1;
    }
    r := Pow2(zeroNum) - 1 + r;
  }

  /** `Se`. */
  method Se(buf: seq<byte>, startBit: nat) returns (value: int, nStartBit: nat)
    requires 8 * |buf| < 0x1_0000_0000 && Whole(Bits(buf), startBit)
    ensures (SignedExp(value), nStartBit) == ReadOne(Bits(buf), startBit, Signed)
    ensures Bits(buf)[startBit..nStartBit] == SeCode(value)
  {
    hide Bits, UeCode, UeValue, UeNext, Whole;
    var ueVal;
    ueVal, nStartBit := Ue(buf, startBit);
    UeExact(Bits(buf), startBit);
    value := (ueVal + 1) / 2;
    if ueVal % 2 == 0 {
      value := -value;
    }
    assert Mapped(value) == ueVal;
  }

  // ------------------------------------------------------------------
  // Bits, codes and signs in numbers

  lemma {:induction false} ValueLast(b: seq<bool>, x: bool)
    ensures Value(b + [x]) == 2 * Value(b) + if x then 1 else 0
  {
    assert (b + [x])[..|b|] == b;
  }

  lemma {:induction false} ValueConcat(a: seq<bool>, b: seq<bool>)
    ensures Value(a + b) == Value(a) * Pow2(|b|) + Value(b)
    decreases |b|
  {
    hide Value;
    if b == [] {
      assert a + b == a && Value(b) == 0 by { NoneValue(); }
    } else {
      var init, x := b[..|b| - 1], b[|b| - 1];
      assert a + b == a + init + [x] && b == init + [x];
      ValueLast(a + init, x);
      ValueLast(init, x);
      ValueConcat(a, init);
      Doubled(Value(a), Pow2(|init|));
    }
  }

  lemma {:induction false} NoneValue()
    ensures Value([]) == 0
  {
  }

  lemma {:induction false} Doubled(a: nat, p: nat)
    ensures a * (2 * p) == 2 * (a * p)
  {
  }

  /** The bits of one byte, the heaviest first. */
  lemma {:induction false} ByteBits(x: byte)
    ensures var n := x as nat;
            Bits([x]) == [n / 128 % 2 == 1, n / 64 % 2 == 1, n / 32 % 2 == 1, n / 16 % 2 == 1]
                         + [n / 8 % 2 == 1, n / 4 % 2 == 1, n / 2 % 2 == 1, n % 2 == 1]
  {
    forall i | 0 <= i < 8
      ensures Bits([x])[i] == BitAt([x], i)
    {
    }
    EachBit(x);
  }

  lemma {:induction false} EachBit(x: byte)
    ensures var n := x as nat;
            && BitAt([x], 0) == (n / 128 % 2 == 1) && BitAt([x], 1) == (n / 64 % 2 == 1)
            && BitAt([x], 2) == (n / 32 % 2 == 1) && BitAt([x], 3) == (n / 16 % 2 == 1)
            && BitAt([x], 4) == (n / 8 % 2 == 1) && BitAt([x], 5) == (n / 4 % 2 == 1)
            && BitAt([x], 6) == (n / 2 % 2 == 1) && BitAt([x], 7) == (n % 2 == 1)
  {
  }

  lemma {:induction false} FourDigits(n: nat)
    ensures n == 16 * (n / 16) + 8 * (n / 8 % 2) + 4 * (n / 4 % 2) + 2 * (n / 2 % 2) + n % 2
  {
    assert n / 2 / 2 == n / 4 && n / 4 / 2 == n / 8 && n / 8 / 2 == n / 16;
  }

  lemma {:induction false} HighDigits(n: nat)
    requires n < 256
    ensures n / 16 / 8 % 2 == n / 128 % 2 && n / 16 / 4 % 2 == n / 64 % 2
    ensures n / 16 / 2 % 2 == n / 32 % 2 && n / 16 / 16 == 0
  {
  }

  /** The number in the last four digits. */
  function Nibble(n: nat): (b: seq<bool>)
    ensures |b| == 4
  {
    [n / 8 % 2 == 1, n / 4 % 2 == 1, n / 2 % 2 == 1, n % 2 == 1]
  }

  lemma {:induction false} NibbleValue(n: nat)
    ensures 16 * (n / 16) + Value(Nibble(n)) == n
  {
    hide Value;
    var a, b, c, d := n / 8 % 2 == 1, n / 4 % 2 == 1, n / 2 % 2 == 1, n % 2 == 1;
    NoneValue();
    ValueLast([], a);
    ValueLast([a], b);
    ValueLast([a, b], c);
    ValueLast([a, b, c], d);
    assert [] + [a] == [a] && [a] + [b] == [a, b] && [a, b] + [c] == [a, b, c] && [a, b, c] + [d] == [a, b, c, d];
    FourDigits(n);
  }

  lemma {:induction false} ByteValue(x: byte)
    ensures Value(Bits([x])) == x as nat
  {
    hide Bits, Value;
    var n := x as nat;
    ByteBits(x);
    HighDigits(n);
    assert Bits([x]) == Nibble(n / 16) + Nibble(n);
    NibbleValue(n / 16);
    NibbleValue(n);
    ValueConcat(Nibble(n / 16), Nibble(n));
    assert Pow2(4) == 16;
  }

  /** The bits of a buffer stand for the number that its octets spell. */
  lemma {:induction false} BitsSpell(buf: seq<byte>)
    ensures Value(Bits(buf)) == Number(buf)
    decreases |buf|
  {
    hide Value, Bits;
    if buf != [] {
      var init, x := buf[..|buf| - 1], buf[|buf| - 1];
      BitsSpell(init);
      ByteValue(x);
      ValueConcat(Bits(init), Bits([x]));
      assert Bits(buf) == Bits(init) + Bits([x]) by {
        forall i | 0 <= i < |Bits(buf)|
          ensures Bits(buf)[i] == (Bits(init) + Bits([x]))[i]
        {
          if i >= 8 * |init| {
            assert i / 8 == |init| && (i - 8 * |init|) / 8 == 0 && i % 8 == (i - 8 * |init|) % 8;
          }
        }
      }
      Pow2Byte(0);
    } else {
      NoBits();
    }
  }

  lemma {:induction false} NoBits()
    ensures Value(Bits([])) == 0
  {
  }

  /** The first codes of table 9-2 of ITU-T H.264. */
  lemma {:induction false} FirstCodes()
    ensures UeCode(0) == [true]
    ensures UeCode(1) == [false, true, false] && UeCode(2) == [false, true, true]
    ensures UeCode(3) == [false, false, true, false, false]
  {
    hide Fixed;
    assert Log(1) == 0 && Log(2) == 1 && Log(3) == 1 && Log(4) == 2;
    FixedSteps(0, 0);
    FixedSteps(1, 0);
    FixedSteps(2, 1);
    FixedSteps(3, 1);
    FixedSteps(4, 2);
    assert Fixed(1, 1) == [true] && Fixed(2, 2) == [true, false] && Fixed(3, 2) == [true, true];
    assert Fixed(4, 3) == [true, false, false];
  }

  lemma {:induction false} FixedSteps(v: nat, n: nat)
    ensures Fixed(v, n + 1) == Fixed(v / 2, n) + [v % 2 == 1] && Fixed(v, 0) == []
  {
  }

  /** Table 9-3: the code numbers 1, 2, 3, 4 stand for 1, -1, 2, -2, and so on. */
  lemma {:induction false} SignsAlternate(n: int)
    requires n > 0
    ensures Unmapped(2 * n - 1) == n && Unmapped(2 * n) == -n && Unmapped(0) == 0
    ensures Mapped(n) == 2 * n - 1 && Mapped(-n) == 2 * n && Mapped(0) == 0
  {
  }
}
