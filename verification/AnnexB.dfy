/**
 * Scanning an H.264 byte stream (Annex B of ITU-T H.264) for start codes, and
 * the walks over its NAL units, from src/codec/codec_utils.cpp.
 *
 * A pointer range [data, end) is a sequence `s` with `end == |s|`: any read at
 * or past `end` would be an index out of range here.
 */
module AnnexB {
  import opened Bytes

  /** The three bytes 00 00 01 lie at position `i`. */
  predicate CodeAt(s: seq<byte>, i: int) {
    0 <= i && i + 2 < |s| && s[i] == 0 && s[i + 1] == 0 && s[i + 2] == 1
  }

  /**
   * The naive scan: the least position in [i, |s|-3) where a start code begins,
   * else |s|. A code in the last three bytes is not reported.
   */
  function FirstCode(s: seq<byte>, i: nat): (p: nat)
    requires i <= |s|
    ensures i <= p <= |s|
    decreases |s| - i
  {
    if i >= |s| - 3 then |s|
    else if CodeAt(s, i) then i
    else FirstCode(s, i + 1)
  }

  /** A start code is the three octets 0, 0, 1. */
  lemma {:induction false} CodeOctets(s: seq<byte>, i: nat)
    ensures CodeAt(s, i) <==> i + 3 <= |s| && s[i..i + 3] == [0, 0, 1]
    ensures Code(false) == [0, 0, 1] && Code(true) == [0, 0, 0, 1]
  {
    if i + 3 <= |s| {
      var c := s[i..i + 3];
      assert c[0] == s[i] && c[1] == s[i + 1] && c[2] == s[i + 2];
    }
  }

  /** What the scan reports is a code that has a byte after it, and no earlier one is. */
  lemma {:induction false} FirstCodeIsLeast(s: seq<byte>, i: nat)
    requires i <= |s|
    ensures var p := FirstCode(s, i);
            && (p < |s| ==> p < |s| - 3 && CodeAt(s, p))
            && forall k :: i <= k < p && k < |s| - 3 ==> !CodeAt(s, k)
    decreases |s| - i
  {
    if i < |s| - 3 && !CodeAt(s, i) {
      FirstCodeIsLeast(s, i + 1);
    }
  }

  /** The result of the scan is determined by what it reports. */
  lemma {:induction false} FirstCodeIs(s: seq<byte>, i: nat, p: nat)
    requires i <= p <= |s|
    requires p < |s| ==> p < |s| - 3 && CodeAt(s, p)
    requires forall k :: i <= k < p && k < |s| - 3 ==> !CodeAt(s, k)
    ensures FirstCode(s, i) == p
  {
    FirstCodeIsLeast(s, i);
  }

  // ------------------------------------------------------------------
  // The word test

  /** A 32-bit load of four octets in little-endian order. */
  function LoadWord(b0: byte, b1: byte, b2: byte, b3: byte): bv32 {
    ((b0 as bv8) as bv32)
    | (((b1 as bv8) as bv32) << 8)
    | (((b2 as bv8) as bv32) << 16)
    | (((b3 as bv8) as bv32) << 24)
  }

  function ZeroByteMask(x: bv32): bv32 {
    (x - 0x01010101) & !x & 0x80808080
  }

  /** The mask test is exact: it is nonzero just when some octet of the word is zero. */
  lemma {:induction false} WordTestIsExact(b0: byte, b1: byte, b2: byte, b3: byte)
    ensures ZeroByteMask(LoadWord(b0, b1, b2, b3)) != 0 <==> b0 == 0 || b1 == 0 || b2 == 0 || b3 == 0
  {
  }

  method WordMayHoldZero(b0: byte, b1: byte, b2: byte, b3: byte) returns (hit: bool)
    ensures hit <==> b0 == 0 || b1 == 0 || b2 == 0 || b3 == 0
  {
    WordTestIsExact(b0, b1, b2, b3);
    hit := ZeroByteMask(LoadWord(b0, b1, b2, b3)) != 0;
  }

  /** The body of the word loop: the first of the four positions where a code begins. */
  method SearchWord(s: seq<byte>, st: nat) returns (found: bool, pos: nat)
    requires st + 6 < |s|
    ensures found ==> st <= pos < st + 4 && CodeAt(s, pos) && forall k :: st <= k < pos ==> !CodeAt(s, k)
    ensures !found ==> forall k :: st <= k < st + 4 ==> !CodeAt(s, k)
  {
    var hit := WordMayHoldZero(s[st], s[st + 1], s[st + 2], s[st + 3]);
    if hit {
      if s[st + 1] == 0 {
        if s[st] == 0 && s[st + 2] == 1 {
          return true, st;
        }
        if s[st + 2] == 0 && s[st + 3] == 1 {
          return true, st + 1;
        }
      }
      if s[st + 3] == 0 {
        if s[st + 2] == 0 && s[st + 4] == 1 {
          return true, st + 2;
        }
        if s[st + 4] == 0 && s[st + 5] == 1 {
          return true, st + 3;
        }
      }
    }
    return false, st;
  }

  /**
   * The search a word at a time. `base` is the address of `s[0]`: it only
   * decides how many bytes are taken singly before the word loop, whose loads
   * are all aligned.
   */
  method FindStartCodeInternal(s: seq<byte>, base: nat, start: nat) returns (pos: nat)
    requires start <= |s|
    ensures pos == FirstCode(s, start)
  {
    var st: int := start;
    var a: int := start + 4 - (base + start) % 4;
    var end: int := |s| - 3;
    while st < a && st < end
      invariant start <= st <= a
      invariant st <= |s|
      invariant forall k :: start <= k < st ==> !CodeAt(s, k)
    {
      if s[st] == 0 && s[st + 1] == 0 && s[st + 2] == 1 {
        FirstCodeIs(s, start, st);
        return st;
      }
      st := st + 1;
    }
    end := end - 3;
    while st < end
      invariant start <= st
      invariant st < end ==> (base + st) % 4 == 0
      invariant st <= |s|
      invariant end == |s| - 6
      invariant forall k :: start <= k < st ==> !CodeAt(s, k)
    {
      var found, at := SearchWord(s, st);
      if found {
        FirstCodeIs(s, start, at);
        return at;
      }
      st := st + 4;
    }
    end := end + 3;
    while st < end
      invariant start <= st <= |s|
      invariant end == |s| - 3
      invariant forall k :: start <= k < st && k < |s| - 3 ==> !CodeAt(s, k)
    {
      if s[st] == 0 && s[st + 1] == 0 && s[st + 2] == 1 {
        FirstCodeIs(s, start, st);
        return st;
      }
      st := st + 1;
    }
    FirstCodeIs(s, start, |s|);
    return end + 3;
  }

  // ------------------------------------------------------------------
  // Walking the NAL units

  /** A start code of the given length lies at position `p` and more bytes follow it. */
  predicate CodeIs(s: seq<byte>, p: nat, long: bool) {
    if long then p + 4 < |s| && s[p] == 0 && CodeAt(s, p + 1) else p + 3 < |s| && CodeAt(s, p)
  }

  /** Where a start code begins, counting the extra zero of a four-byte one. */
  function CodeStart(s: seq<byte>, i: nat): (p: nat)
    requires i <= |s|
    ensures i <= p <= |s|
    ensures p < |s| ==> CodeIs(s, p, false) || CodeIs(s, p, true)
  {
    var p := FirstCode(s, i);
    FirstCodeIsLeast(s, i);
    if i < p < |s| && s[p - 1] == 0 then p - 1 else p
  }

  method FindStartCode(s: seq<byte>, base: nat, start: nat) returns (pos: nat)
    requires start <= |s|
    ensures pos == CodeStart(s, start)
  {
    pos := FindStartCodeInternal(s, base, start);
    if start < pos && pos < |s| && s[pos - 1] == 0 {
      pos := pos - 1;
    }
  }

  /** Just after the first nonzero byte at or after `p`, or |s| when there is none. */
  function AfterNonzero(s: seq<byte>, p: nat): (q: nat)
    requires p <= |s|
    ensures p <= q <= |s|
    ensures p < |s| ==> p < q
    decreases |s| - p
  {
    if p == |s| then p
    else if s[p] != 0 then p + 1
    else AfterNonzero(s, p + 1)
  }

  lemma {:induction false} AfterNonzeroIs(s: seq<byte>, p: nat, q: nat)
    requires p < q <= |s| && s[q - 1] != 0
    requires forall k :: p <= k < q - 1 ==> s[k] == 0
    ensures AfterNonzero(s, p) == q
    decreases q - p
  {
    if p < q - 1 {
      AfterNonzeroIs(s, p + 1, q);
    }
  }

  /** A start code is followed by at least one more byte. */
  lemma {:induction false} AfterCode(s: seq<byte>, i: nat)
    requires i <= |s|
    requires CodeStart(s, i) < |s|
    ensures AfterNonzero(s, CodeStart(s, i)) < |s|
  {
    var p := CodeStart(s, i);
    AfterNonzeroIs(s, p, if CodeAt(s, p) then p + 3 else p + 4);
  }

  /** The byte runs between consecutive start codes from the one at `p`, empty runs included. */
  function RawUnits(s: seq<byte>, p: nat): seq<seq<byte>>
    requires p <= |s|
    decreases |s| - p
  {
    if p == |s| then []
    else
      var n := AfterNonzero(s, p);
      var q := CodeStart(s, n);
      [s[n..q]] + RawUnits(s, q)
  }

  function NonEmpty(units: seq<seq<byte>>): seq<seq<byte>> {
    if units == [] then []
    else (if units[0] == [] then [] else [units[0]]) + NonEmpty(units[1..])
  }

  lemma {:induction false} NonEmptyConcat(a: seq<seq<byte>>, b: seq<seq<byte>>)
    ensures NonEmpty(a + b) == NonEmpty(a) + NonEmpty(b)
  {
    if a == [] {
      assert a + b == b;
    } else {
      assert (a + b)[1..] == a[1..] + b;
      NonEmptyConcat(a[1..], b);
    }
  }

  lemma {:induction false} NonEmptyAll(units: seq<seq<byte>>)
    requires forall k :: 0 <= k < |units| ==> units[k] != []
    ensures NonEmpty(units) == units
  {
    if units != [] {
      assert units[0] != [];
      NonEmptyAll(units[1..]);
    }
  }

  /** One step of the splitting loop, seen from the units. */
  lemma {:induction false} SplitStep(s: seq<byte>, p: nat)
    requires p < |s|
    ensures var n := AfterNonzero(s, p);
            var q := CodeStart(s, n);
            && p < n <= q <= |s|
            && NonEmpty(RawUnits(s, p)) == (if n == q then [] else [s[n..q]]) + NonEmpty(RawUnits(s, q))
  {
    hide AfterNonzero, CodeStart;
    var n := AfterNonzero(s, p);
    var q := CodeStart(s, n);
    assert RawUnits(s, p)[1..] == RawUnits(s, q);
  }

  function AllUnits(s: seq<byte>): seq<seq<byte>> {
    RawUnits(s, CodeStart(s, 0))
  }

  /** The non-empty NAL units of a byte stream, as the packet builder splits it. */
  function NalUnits(s: seq<byte>): seq<seq<byte>> {
    NonEmpty(AllUnits(s))
  }

  lemma {:induction false} NonEmptyOnly(units: seq<seq<byte>>)
    ensures forall k :: 0 <= k < |NonEmpty(units)| ==> NonEmpty(units)[k] != []
  {
    if units != [] {
      NonEmptyOnly(units[1..]);
    }
  }

  lemma {:induction false} NoUnitsAtEnd(s: seq<byte>)
    ensures NonEmpty(RawUnits(s, |s|)) == []
  {
  }

  function Type(unit: seq<byte>): byte {
    if unit == [] then 0 else Low5(unit[0])
  }

  /** The first unit of type 1 or 5 is of type 5. */
  predicate StartsWithKeyFrame(units: seq<seq<byte>>) {
    units != [] &&
    (if Type(units[0]) == 5 || Type(units[0]) == 1 then Type(units[0]) == 5
     else StartsWithKeyFrame(units[1..]))
  }

  /** In numbers: some unit has type 5, and no unit in front of it has type 1 or 5. */
  lemma {:induction false} KeyFrameIff(units: seq<seq<byte>>)
    ensures StartsWithKeyFrame(units) <==>
            exists k :: 0 <= k < |units| && units[k] != [] && units[k][0] % 32 == 5
                        && forall j :: 0 <= j < k ==> units[j] == [] || (units[j][0] % 32 != 5 && units[j][0] % 32 != 1)
  {
    if units != [] && Type(units[0]) != 5 && Type(units[0]) != 1 {
      var rest := units[1..];
      KeyFrameIff(rest);
      if k :| 0 <= k < |rest| && rest[k] != [] && rest[k][0] % 32 == 5
              && forall j :: 0 <= j < k ==> rest[j] == [] || (rest[j][0] % 32 != 5 && rest[j][0] % 32 != 1) {
        assert units[k + 1] == rest[k];
        assert forall j :: 1 <= j < k + 1 ==> units[j] == rest[j - 1];
      }
      if k :| 0 <= k < |units| && units[k] != [] && units[k][0] % 32 == 5
              && forall j :: 0 <= j < k ==> units[j] == [] || (units[j][0] % 32 != 5 && units[j][0] % 32 != 1) {
        assert rest[k - 1] == units[k];
        assert forall j :: 0 <= j < k - 1 ==> rest[j] == units[j + 1];
      }
    }
  }

  /** `while (p < end && !*(p++));` */
  method SkipCode(s: seq<byte>, start: nat) returns (p: nat)
    requires start <= |s|
    ensures p == AfterNonzero(s, start)
  {
    p := start;
    while p < |s|
      invariant start <= p <= |s|
      invariant AfterNonzero(s, p) == AfterNonzero(s, start)
    {
      p := p + 1;
      if s[p - 1] != 0 {
        return;
      }
    }
  }

  method CountFrames(s: seq<byte>, base: nat) returns (count: nat)
    ensures count == |AllUnits(s)|
  {
    count := 0;
    var nalStart := FindStartCode(s, base, 0);
    ghost var from: nat := 0;
    while true
      invariant from <= nalStart <= |s| && nalStart == CodeStart(s, from)
      invariant count + |RawUnits(s, nalStart)| == |AllUnits(s)|
      decreases |s| - nalStart
    {
      ghost var p := nalStart;
      nalStart := SkipCode(s, nalStart);
      if nalStart == |s| {
        if p < |s| {
          AfterCode(s, from);
        }
        break;
      }
      count := count + 1;
      from := nalStart;
      nalStart := FindStartCode(s, base, nalStart);
    }
  }

  method FindKeyFrame(s: seq<byte>, base: nat) returns (found: bool)
    ensures found == StartsWithKeyFrame(AllUnits(s))
  {
    var nalStart := FindStartCode(s, base, 0);
    ghost var from: nat := 0;
    while true
      invariant from <= nalStart <= |s| && nalStart == CodeStart(s, from)
      invariant StartsWithKeyFrame(RawUnits(s, nalStart)) == StartsWithKeyFrame(AllUnits(s))
      decreases |s| - nalStart
    {
      ghost var p := nalStart;
      nalStart := SkipCode(s, nalStart);
      if nalStart == |s| {
        if p < |s| {
          AfterCode(s, from);
        }
        break;
      }
      var q := FindStartCode(s, base, nalStart);
      assert RawUnits(s, p) == [s[nalStart..q]] + RawUnits(s, q);
      var kind := Low5(s[nalStart]);
      FirstByteType(s, nalStart);
      if kind == 5 || kind == 1 {
        return kind == 5;
      }
      from := nalStart;
      nalStart := q;
    }
    return false;
  }

  /** Reading the type byte of an empty unit reads a zero of the next start code. */
  lemma {:induction false} FirstByteType(s: seq<byte>, n: nat)
    requires n < |s|
    ensures Low5(s[n]) == Type(s[n..CodeStart(s, n)])
  {
  }

  // ------------------------------------------------------------------
  // Joining units

  function Code(long: bool): (c: seq<byte>)
    ensures |c| == if long then 4 else 3
  {
    if long then [0, 0, 0, 1] else [0, 0, 1]
  }

  /** The byte stream of some units, each after a start code of the chosen length. */
  function Join(units: seq<seq<byte>>, long: seq<bool>): seq<byte>
    requires |units| == |long|
  {
    if units == [] then [] else Code(long[0]) + units[0] + Join(units[1..], long[1..])
  }

  lemma {:induction false} JoinConcat(a: seq<seq<byte>>, la: seq<bool>, b: seq<seq<byte>>, lb: seq<bool>)
    requires |a| == |la| && |b| == |lb|
    ensures Join(a + b, la + lb) == Join(a, la) + Join(b, lb)
  {
    if a == [] {
      assert a + b == b && la + lb == lb;
    } else {
      JoinConcat(a[1..], la[1..], b, lb);
      assert (a + b)[1..] == a[1..] + b && (la + lb)[1..] == la[1..] + lb;
    }
  }

  /** No start code inside, and no final zero that would run into the next one. */
  predicate Clean(unit: seq<byte>) {
    unit != [] && unit[|unit| - 1] != 0 && forall i :: 0 <= i < |unit| ==> !CodeAt(unit, i)
  }

  predicate AllClean(units: seq<seq<byte>>) {
    forall k :: 0 <= k < |units| ==> Clean(units[k])
  }

  lemma {:induction false} SkipsCode(s: seq<byte>, p: nat, long: bool)
    requires CodeIs(s, p, long)
    ensures AfterNonzero(s, p) == p + |Code(long)|
    ensures s[p..p + |Code(long)|] == Code(long)
  {
    AfterNonzeroIs(s, p, if long then p + 4 else p + 3);
  }

  /** A clean unit ends exactly where the next start code, or the stream, does. */
  lemma {:induction false} UnitEnds(s: seq<byte>, n: nat, q: nat, long: bool)
    requires n < q <= |s| && Clean(s[n..q])
    requires q < |s| ==> CodeIs(s, q, long)
    ensures CodeStart(s, n) == q
  {
    var u := s[n..q];
    assert s[q - 1] == u[|u| - 1] != 0;
    forall i | n <= i < q
      ensures !CodeAt(s, i)
    {
      if i + 2 < q {
        assert !CodeAt(u, i - n);
        assert u[i - n] == s[i] && u[i - n + 1] == s[i + 1] && u[i - n + 2] == s[i + 2];
      }
    }
    FirstCodeIs(s, n, if q < |s| && long then q + 1 else q);
  }

  lemma {:induction false} CodeSeen(s: seq<byte>, p: nat, long: bool, rest: seq<byte>)
    requires p <= |s| && s[p..] == Code(long) + rest && rest != []
    ensures CodeIs(s, p, long)
    ensures s[p + |Code(long)|..] == rest
  {
    CutFront(s, p, Code(long), rest);
  }

  /** One step of the walk takes the code at `p` and the bytes up to the next one. */
  lemma {:induction false} WalkStep(s: seq<byte>, p: nat, c: bool)
    requires CodeIs(s, p, c)
    ensures var n := p + |Code(c)|;
            var q := CodeStart(s, n);
            && RawUnits(s, p) == [s[n..q]] + RawUnits(s, q)
            && s[p..] == Code(c) + s[n..q] + s[q..]
  {
    SkipsCode(s, p, c);
    var n := p + |Code(c)|;
    SplitTail(s, p, n, CodeStart(s, n));
  }

  /** A joined stream begins with the first unit's start code and the unit. */
  lemma {:induction false} JoinHead(s: seq<byte>, p: nat, units: seq<seq<byte>>, long: seq<bool>)
    requires |units| == |long| && units != [] && units[0] != []
    requires p <= |s| && s[p..] == Join(units, long)
    ensures var n := p + |Code(long[0])|;
            var q := n + |units[0]|;
            && q <= |s|
            && CodeIs(s, p, long[0])
            && s[n..q] == units[0]
            && s[q..] == Join(units[1..], long[1..])
  {
    var u, rest := units[0], Join(units[1..], long[1..]);
    assert s[p..] == Code(long[0]) + (u + rest);
    CodeSeen(s, p, long[0], u + rest);
    CutFront(s, p + |Code(long[0])|, u, rest);
  }

  /** A clean unit ends where the rest of the joined stream begins. */
  lemma {:induction false} UnitEndsAtJoin(s: seq<byte>, n: nat, q: nat, units: seq<seq<byte>>, long: seq<bool>)
    requires |units| == |long| && AllClean(units)
    requires n < q <= |s| && Clean(s[n..q]) && s[q..] == Join(units, long)
    ensures CodeStart(s, n) == q
  {
    if units == [] {
      UnitEnds(s, n, q, true);
    } else {
      assert Clean(units[0]);
      JoinHead(s, q, units, long);
      UnitEnds(s, n, q, long[0]);
    }
  }

  /** One step of the walk over a joined stream takes its first unit. */
  lemma {:induction false} JoinStep(s: seq<byte>, p: nat, units: seq<seq<byte>>, long: seq<bool>) returns (q: nat)
    requires |units| == |long| && units != [] && AllClean(units)
    requires p <= |s| && s[p..] == Join(units, long)
    ensures q <= |s| && s[q..] == Join(units[1..], long[1..])
    ensures RawUnits(s, p) == [units[0]] + RawUnits(s, q)
  {
    hide CodeIs, CodeStart, AfterNonzero, Code, RawUnits, Join;
    assert Clean(units[0]);
    JoinHead(s, p, units, long);
    var n := p + |Code(long[0])|;
    q := n + |units[0]|;
    UnitEndsAtJoin(s, n, q, units[1..], long[1..]);
    WalkStep(s, p, long[0]);
  }

  lemma {:induction false} RawUnitsOfJoin(s: seq<byte>, p: nat, units: seq<seq<byte>>, long: seq<bool>)
    requires |units| == |long| && AllClean(units)
    requires p <= |s| && s[p..] == Join(units, long)
    ensures RawUnits(s, p) == units
    decreases units
  {
    if units != [] {
      var q := JoinStep(s, p, units, long);
      RawUnitsOfJoin(s, q, units[1..], long[1..]);
    }
  }

  /**
   * Splitting is exact: whatever start-code lengths joined clean units, the
   * walk gives back exactly those units.
   */
  lemma {:induction false} SplitUndoesJoin(units: seq<seq<byte>>, long: seq<bool>)
    requires |units| == |long|
    requires AllClean(units)
    ensures AllUnits(Join(units, long)) == units
    ensures NalUnits(Join(units, long)) == units
  {
    var s := Join(units, long);
    assert s[0..] == s;
    if units != [] {
      assert Clean(units[0]);
      JoinHead(s, 0, units, long);
      FirstCodeIs(s, 0, if long[0] then 1 else 0);
    }
    RawUnitsOfJoin(s, 0, units, long);
    NonEmptyAll(units);
  }

  lemma {:induction false} JoinCons(u: seq<byte>, c: bool, units: seq<seq<byte>>, long: seq<bool>)
    requires |units| == |long|
    ensures Join([u] + units, [c] + long) == Code(c) + u + Join(units, long)
  {
    assert ([u] + units)[1..] == units && ([c] + long)[1..] == long;
  }

  /**
   * Conversely a byte stream of any content is, from its first start code on,
   * its own units joined again: the walk loses and invents no byte.
   */
  lemma {:induction false} JoinUndoesRawUnits(s: seq<byte>, i: nat) returns (long: seq<bool>)
    requires i <= |s|
    ensures |long| == |RawUnits(s, CodeStart(s, i))|
    ensures Join(RawUnits(s, CodeStart(s, i)), long) == s[CodeStart(s, i)..]
    decreases |s| - CodeStart(s, i)
  {
    hide CodeIs, CodeStart, AfterNonzero, Code;
    var p := CodeStart(s, i);
    if p == |s| {
      long := [];
    } else {
      var c := !CodeIs(s, p, false);
      WalkStep(s, p, c);
      var n := p + |Code(c)|;
      var rest := JoinUndoesRawUnits(s, n);
      long := [c] + rest;
      JoinCons(s[n..CodeStart(s, n)], c, RawUnits(s, CodeStart(s, n)), rest);
    }
  }

  /** No unit of the split holds a reported start code. */
  lemma {:induction false} UnitsHoldNoCode(s: seq<byte>, p: nat)
    requires p <= |s|
    ensures forall k, i :: 0 <= k < |RawUnits(s, p)| && 0 <= i < |RawUnits(s, p)[k]| - 3 ==> !CodeAt(RawUnits(s, p)[k], i)
    decreases |s| - p
  {
    if p < |s| {
      var n := AfterNonzero(s, p);
      var q := CodeStart(s, n);
      var u := s[n..q];
      FirstCodeIsLeast(s, n);
      forall i | 0 <= i < |u| - 3
        ensures !CodeAt(u, i)
      {
        assert u[i] == s[n + i] && u[i + 1] == s[n + i + 1] && u[i + 2] == s[n + i + 2];
        assert !CodeAt(s, n + i);
      }
      UnitsHoldNoCode(s, q);
      var units := RawUnits(s, p);
      assert units[0] == u && units[1..] == RawUnits(s, q);
      forall k, i | 0 <= k < |units| && 0 <= i < |units[k]| - 3
        ensures !CodeAt(units[k], i)
      {
        if k > 0 {
          assert units[k] == RawUnits(s, q)[k - 1];
        }
      }
    }
  }
}
