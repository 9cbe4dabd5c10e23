/**
 * The greedy glob matcher `mg_match` of src/websocket/mongoose.cpp, called
 * without captures. `?` matches one byte and `#` any bytes; `*` is followed in
 * the code but has no specification here.
 */
module Glob {
  import opened Bytes

  const ANY: byte := 63     // '?'
  const STAR: byte := 42    // '*'
  const HASH: byte := 35    // '#'
  const SLASH: byte := 47   // '/'

  predicate IsStar(c: byte) {
    c == STAR || c == HASH
  }

  /** What it means to match, without any search. */
  ghost predicate Matches(p: seq<byte>, s: seq<byte>)
    decreases |p|
  {
    if p == [] then s == []
    else if p[0] == HASH then exists k :: 0 <= k <= |s| && Matches(p[1..], s[k..])
    else s != [] && (p[0] == ANY || s[0] == p[0]) && Matches(p[1..], s[1..])
  }

  /** `Matches` from position `i` of the pattern and `j` of the subject. */
  ghost predicate From(p: seq<byte>, s: seq<byte>, i: nat, j: nat)
    requires i <= |p|
  {
    j <= |s| && Matches(p[i..], s[j..])
  }

  ghost predicate SomeFrom(p: seq<byte>, s: seq<byte>, i: nat, j: nat)
    requires i <= |p|
  {
    exists k :: j <= k <= |s| && From(p, s, i, k)
  }

  lemma {:induction false} FromStep(p: seq<byte>, s: seq<byte>, i: nat, j: nat)
    requires i < |p| && j <= |s| && p[i] != HASH
    ensures From(p, s, i, j) <==>
            j < |s| && (p[i] == ANY || s[j] == p[i]) && From(p, s, i + 1, j + 1)
  {
    assert p[i..][1..] == p[i + 1..];
    if j < |s| {
      assert s[j..][1..] == s[j + 1..];
    }
  }

  lemma {:induction false} FromEnd(p: seq<byte>, s: seq<byte>, j: nat)
    requires j <= |s|
    ensures From(p, s, |p|, j) <==> j == |s|
  {
  }

  /** `#` absorbs nothing, or one byte and then again. */
  lemma {:induction false} FromHash(p: seq<byte>, s: seq<byte>, i: nat, j: nat)
    requires i < |p| && j <= |s| && p[i] == HASH
    ensures From(p, s, i, j) <==> From(p, s, i + 1, j) || From(p, s, i, j + 1)
  {
    hide Matches;
    HashIs(p, s, i, j);
    if j < |s| {
      HashIs(p, s, i, j + 1);
    }
    if From(p, s, i, j) {
      var k :| j <= k <= |s| && From(p, s, i + 1, k);
    }
  }

  /** `#` absorbs up to some later position. */
  lemma {:induction false} HashIs(p: seq<byte>, s: seq<byte>, i: nat, j: nat)
    requires i < |p| && j <= |s| && p[i] == HASH
    ensures From(p, s, i, j) <==> SomeFrom(p, s, i + 1, j)
  {
    assert p[i..][1..] == p[i + 1..];
    var t := s[j..];
    if From(p, s, i, j) {
      var k :| 0 <= k <= |t| && Matches(p[i + 1..], t[k..]);
      assert t[k..] == s[j + k..];
      assert From(p, s, i + 1, j + k);
    }
    if SomeFrom(p, s, i + 1, j) {
      var k :| j <= k <= |s| && From(p, s, i + 1, k);
      assert t[k - j..] == s[k..];
      assert Matches(p[i..][1..], t[k - j..]);
    }
  }

  /** Bytes of the pattern without `#` consume exactly as many of the subject. */
  lemma {:induction false} SegmentConsumes(p: seq<byte>, s: seq<byte>, a: nat, i: nat, k: nat)
    requires a <= i <= |p| && forall n :: a <= n < i ==> p[n] != HASH
    requires From(p, s, a, k)
    ensures From(p, s, i, k + (i - a))
    decreases i - a
  {
    if a < i {
      FromStep(p, s, a, k);
      SegmentConsumes(p, s, a + 1, i, k + 1);
    }
  }

  /**
   * The heart of greediness: when the search reaches a later `#`, any match that
   * would have the earlier `#` absorb more can be had from here as well.
   */
  lemma {:induction false} LaterHashSuffices(p: seq<byte>, s: seq<byte>, ni: nat, nj: nat, i: nat, j: nat)
    requires ni < i < |p| && p[ni] == HASH && p[i] == HASH
    requires forall n :: ni < n < i ==> p[n] != HASH
    requires nj <= |s| && j <= |s| && j + 1 == nj + (i - ni - 1)
    requires From(p, s, ni, nj)
    ensures From(p, s, i, j)
  {
    hide Matches;
    HashIs(p, s, ni, nj);
    var k :| nj <= k <= |s| && From(p, s, ni + 1, k);
    SegmentConsumes(p, s, ni + 1, i, k);
    HashIs(p, s, i, k + (i - ni - 1));
    var m :| k + (i - ni - 1) <= m <= |s| && From(p, s, i + 1, m);
    HashIs(p, s, i, j);
  }

  /** No star of the pattern occurs in the subject, where it would be compared literally first. */
  predicate Apart(p: seq<byte>, s: seq<byte>) {
    forall i, j :: 0 <= i < |p| && 0 <= j < |s| && IsStar(p[i]) ==> s[j] != p[i]
  }

  predicate NoStar(p: seq<byte>) {
    forall k :: 0 <= k < |p| ==> p[k] != STAR
  }

  /** The positions of the search. */
  datatype Search = Search(i: nat, j: nat, ni: nat, nj: nat)

  datatype Turn = Stop(found: bool) | Continue(next: Search)

  /** One turn of the loop; `past` is what the code reads one byte behind the subject. */
  function Next(p: seq<byte>, s: seq<byte>, past: byte, t: Search): Turn {
    var i, j, ni, nj := t.i, t.j, t.ni, t.nj;
    if !(i < |p| || j < |s|) then Stop(true)
    else if i < |p| && j < |s| && (p[i] == ANY || s[j] == p[i]) then Continue(Search(i + 1, j + 1, ni, nj))
    else if i < |p| && IsStar(p[i]) then Continue(Search(i + 1, j, i, j + 1))
    else if 0 < nj <= |s| && ni < |p| && (p[ni] == HASH || (if j < |s| then s[j] else past) != SLASH) then
      Continue(Search(ni, nj, ni, nj))
    else Stop(false)
  }

  /** Between the saved star and the current position there is no other, and the offsets agree. */
  predicate Sound(p: seq<byte>, s: seq<byte>, t: Search) {
    && t.i <= |p| && t.j <= |s| && t.nj <= |s| + 1
    && (t.nj == 0 ==> t.i == t.j && t.ni == 0 && forall n :: 0 <= n < t.i ==> !IsStar(p[n]))
    && (t.nj > 0 ==>
          && t.ni < |p| && IsStar(p[t.ni]) && t.ni <= t.i
          && (t.i == t.ni ==> t.j == t.nj)
          && (t.i > t.ni ==> t.j + 1 == t.nj + (t.i - t.ni - 1) && forall n :: t.ni < n < t.i ==> !IsStar(p[n])))
  }

  lemma {:induction false} NextSound(p: seq<byte>, s: seq<byte>, past: byte, t: Search)
    requires Sound(p, s, t) && Apart(p, s)
    ensures var r := Next(p, s, past, t);
            r.Continue? ==> Sound(p, s, r.next) && (t.nj > 0 && t.i == t.ni ==> r.next.nj == t.nj + 1)
  {
  }

  /** Every turn keeps whether the whole matches. */
  ghost predicate Open(p: seq<byte>, s: seq<byte>, t: Search)
    requires Sound(p, s, t)
  {
    From(p, s, t.i, t.j) || (t.nj > 0 && From(p, s, t.ni, t.nj))
  }

  lemma {:induction false} NextKeepsMatch(p: seq<byte>, s: seq<byte>, past: byte, t: Search)
    requires Sound(p, s, t) && Apart(p, s) && NoStar(p)
    ensures var r := Next(p, s, past, t);
            && (r.Stop? ==> r.found == Open(p, s, t))
            && (r.Continue? ==> Sound(p, s, r.next) && Open(p, s, r.next) == Open(p, s, t))
  {
    hide From, Matches;
    NextSound(p, s, past, t);
    var i, j, ni, nj := t.i, t.j, t.ni, t.nj;
    if i == |p| {
      FromEnd(p, s, j);
      PastEnd(p, s, ni, nj);
    } else if p[i] == HASH {
      FromHash(p, s, i, j);
      if 0 < nj && ni < i && From(p, s, ni, nj) {
        WithinSubject(p, s, ni, nj);
        LaterHashSuffices(p, s, ni, nj, i, j);
      }
    } else {
      FromStep(p, s, i, j);
      PastEnd(p, s, ni, nj);
    }
  }

  lemma {:induction false} WithinSubject(p: seq<byte>, s: seq<byte>, i: nat, j: nat)
    requires i <= |p| && From(p, s, i, j)
    ensures j <= |s|
  {
  }

  lemma {:induction false} PastEnd(p: seq<byte>, s: seq<byte>, i: nat, j: nat)
    requires i <= |p|
    ensures j > |s| ==> !From(p, s, i, j)
  {
  }

  const START := Search(0, 0, 0, 0)

  /** The state of the search after `n` turns. */
  function Turns(p: seq<byte>, s: seq<byte>, past: byte, t: Search, n: nat): Turn
    decreases n
  {
    if n == 0 then Continue(t)
    else
      var r := Next(p, s, past, t);
      if r.Stop? then r else Turns(p, s, past, r.next, n - 1)
  }

  /** After `k` turns the search is at `t`. */
  ghost predicate Reached(p: seq<byte>, s: seq<byte>, past: byte, k: nat, t: Search) {
    forall n: nat :: Turns(p, s, past, START, k + n) == Turns(p, s, past, t, n)
  }

  lemma {:induction false} ReachedNext(p: seq<byte>, s: seq<byte>, past: byte, k: nat, t: Search)
    requires Reached(p, s, past, k, t)
    ensures var r := Next(p, s, past, t);
            && (r.Continue? ==> Reached(p, s, past, k + 1, r.next))
            && (r.Stop? ==> Turns(p, s, past, START, k + 1) == r)
  {
    hide Next;
    var r := Next(p, s, past, t);
    assert Turns(p, s, past, t, 1) == r;
    if r.Continue? {
      forall n: nat
        ensures Turns(p, s, past, START, k + 1 + n) == Turns(p, s, past, r.next, n)
      {
        assert Turns(p, s, past, START, k + (n + 1)) == Turns(p, s, past, t, n + 1);
      }
    }
  }

  /**
   * The loop itself. On a subject without the stars of the pattern it terminates,
   * and for a pattern without `*` it finds a match exactly when there is one.
   */
  method MgMatch(s: seq<byte>, p: seq<byte>, past: byte) returns (found: bool)
    requires Apart(p, s)
    ensures exists n: nat :: Turns(p, s, past, START, n) == Stop(found)
    ensures NoStar(p) ==> found == Matches(p, s)
  {
    hide Matches, From, Open, Turns, Reached;
    var i, j, ni, nj := 0, 0, 0, 0;
    ghost var k: nat := 0;
    StartOpen(p, s);
    assert Reached(p, s, past, 0, START) by { ReachedStart(p, s, past); }
    while i < |p| || j < |s|
      invariant Sound(p, s, Search(i, j, ni, nj))
      invariant Reached(p, s, past, k, Search(i, j, ni, nj))
      invariant NoStar(p) ==> Open(p, s, Search(i, j, ni, nj)) == Matches(p, s)
      decreases |s| + 1 - nj, if nj > 0 && i == ni then 0 else 1, |p| - i
    {
      ghost var t := Search(i, j, ni, nj);
      NextSound(p, s, past, t);
      ReachedNext(p, s, past, k, t);
      k := k + 1;
      if NoStar(p) {
        NextKeepsMatch(p, s, past, t);
      }
      if i < |p| && j < |s| && (p[i] == ANY || s[j] == p[i]) {
        i, j := i + 1, j + 1;
      } else if i < |p| && (p[i] == STAR || p[i] == HASH) {
        ni, i, nj := i, i + 1, j + 1;
      } else if nj > 0 && nj <= |s| && (p[ni] == HASH || (if j < |s| then s[j] else past) != SLASH) {
        i, j := ni, nj;
      } else {
        return false;
      }
      assert Next(p, s, past, t) == Continue(Search(i, j, ni, nj));
    }
    ReachedNext(p, s, past, k, Search(i, j, ni, nj));
    if NoStar(p) {
      NextKeepsMatch(p, s, past, Search(i, j, ni, nj));
    }
    return true;
  }

  lemma {:induction false} ReachedStart(p: seq<byte>, s: seq<byte>, past: byte)
    ensures Reached(p, s, past, 0, START)
  {
  }

  lemma {:induction false} StartOpen(p: seq<byte>, s: seq<byte>)
    ensures Sound(p, s, Search(0, 0, 0, 0)) && Open(p, s, Search(0, 0, 0, 0)) == Matches(p, s)
  {
    assert p[0..] == p && s[0..] == s;
  }

  // ------------------------------------------------------------------
  // Exactly when the matcher works

  /** The search stops, with the right answer. */
  ghost predicate Decides(p: seq<byte>, s: seq<byte>, past: byte) {
    exists n: nat :: Turns(p, s, past, START, n) == Stop(Matches(p, s))
  }

  /** From every sound position the search stops, and answers whether a match is still open. */
  lemma {:induction false} Answers(p: seq<byte>, s: seq<byte>, past: byte, t: Search) returns (n: nat)
    requires Sound(p, s, t) && Apart(p, s) && NoStar(p)
    ensures Turns(p, s, past, t, n) == Stop(Open(p, s, t))
    decreases |s| + 1 - t.nj, if t.nj > 0 && t.i == t.ni then 0 else 1, |p| - t.i
  {
    hide Open;
    NextSound(p, s, past, t);
    NextKeepsMatch(p, s, past, t);
    var r := Next(p, s, past, t);
    if r.Stop? {
      n := 1;
    } else {
      var m := Answers(p, s, past, r.next);
      n := m + 1;
    }
  }

  lemma {:induction false} StopsOnce(p: seq<byte>, s: seq<byte>, past: byte, t: Search, m: nat, n: nat)
    requires Turns(p, s, past, t, m).Stop? && Turns(p, s, past, t, n).Stop?
    ensures Turns(p, s, past, t, m) == Turns(p, s, past, t, n)
    decreases m
  {
    hide Next;
    var r := Next(p, s, past, t);
    if r.Continue? {
      StopsOnce(p, s, past, r.next, m - 1, n - 1);
    }
  }

  /** As many `?` as there are bytes left. */
  lemma {:induction false} AnysMatch(p: seq<byte>, s: seq<byte>, i: nat, j: nat)
    requires i <= |p| && j <= |s| && |p| - i == |s| - j
    requires forall k :: i <= k < |p| ==> p[k] == ANY
    ensures From(p, s, i, j)
    decreases |p| - i
  {
    hide From;
    if i == |p| {
      FromEnd(p, s, j);
    } else {
      AnysMatch(p, s, i + 1, j + 1);
      FromStep(p, s, i, j);
    }
  }

  lemma {:induction false} AnysBefore(p: seq<byte>, s: seq<byte>, i: nat, m: nat)
    requires i <= m <= |p| && m <= |s| && From(p, s, m, m)
    requires forall k :: i <= k < m ==> p[k] == ANY
    ensures From(p, s, i, i)
    decreases m - i
  {
    hide From;
    if i < m {
      AnysBefore(p, s, i + 1, m);
      FromStep(p, s, i, i);
    }
  }

  /** `m` times `?`, then `#`, then `?` for every byte from `m` on. */
  function Trap(s: seq<byte>, m: nat): (p: seq<byte>)
    requires m < |s|
    ensures |p| == |s| + 1 && p[m] == HASH && forall k :: 0 <= k < |p| && k != m ==> p[k] == ANY
  {
    seq(|s| + 1, k => if k == m then HASH else ANY)
  }

  lemma {:induction false} TrapMatches(s: seq<byte>, m: nat)
    requires m < |s|
    ensures Matches(Trap(s, m), s)
  {
    hide Matches, Trap;
    var p := Trap(s, m);
    AnysMatch(p, s, m + 1, m);
    FromHash(p, s, m, m);
    AnysBefore(p, s, 0, m);
    StartOpen(p, s);
    assert Matches(p, s) by { FromStart(p, s); }
  }

  lemma {:induction false} FromStart(p: seq<byte>, s: seq<byte>)
    ensures From(p, s, 0, 0) == Matches(p, s)
  {
    assert p[0..] == p && s[0..] == s;
  }

  /** Every byte is consumed on the way, one `?` is left over, and no star was saved. */
  lemma {:induction false} TrapStops(p: seq<byte>, s: seq<byte>, past: byte, i: nat)
    requires |p| == |s| + 1 && i <= |s| && p[|s|] == ANY
    requires forall k :: 0 <= k < |s| ==> p[k] == ANY || p[k] == s[k]
    ensures Turns(p, s, past, Search(i, i, 0, 0), |s| - i + 1) == Stop(false)
    decreases |s| - i
  {
    var t := Search(i, i, 0, 0);
    if i < |s| {
      assert Next(p, s, past, t) == Continue(Search(i + 1, i + 1, 0, 0));
      TrapStops(p, s, past, i + 1);
    } else {
      assert Next(p, s, past, t) == Stop(false);
    }
  }

  /** A `#` in the subject, consumed by the `#` of the pattern, hides a match. */
  lemma {:induction false} HashHidesMatch(s: seq<byte>, past: byte, m: nat)
    requires m < |s| && s[m] == HASH
    ensures var p := Trap(s, m);
      && NoStar(p) && Matches(p, s)
      && Turns(p, s, past, START, |s| + 1) == Stop(false)
      && !Decides(p, s, past)
  {
    hide Matches, Trap, Turns;
    var p := Trap(s, m);
    TrapMatches(s, m);
    TrapStops(p, s, past, 0);
    forall n: nat | Turns(p, s, past, START, n).Stop?
      ensures Turns(p, s, past, START, n) == Stop(false)
    {
      StopsOnce(p, s, past, START, n, |s| + 1);
    }
  }

  /** The matcher decides every pattern of literals, `?` and `#` exactly if the subject holds no `#`. */
  lemma {:induction false} MatcherWorksIff(s: seq<byte>, past: byte)
    ensures (forall p :: NoStar(p) ==> Decides(p, s, past)) <==> HASH !in s
  {
    hide Matches, Turns, Trap, Open, Sound;
    if HASH in s {
      var m :| 0 <= m < |s| && s[m] == HASH;
      HashHidesMatch(s, past, m);
      assert !Decides(Trap(s, m), s, past);
    } else {
      forall p | NoStar(p)
        ensures Decides(p, s, past)
      {
        StartOpen(p, s);
        var n := Answers(p, s, past, START);
        assert Turns(p, s, past, START, n) == Stop(Matches(p, s));
      }
    }
  }

  /**
   * A `#` in the subject is compared literally first, and then the loop can run
   * in a circle: on "x#c" against "#b" the search is back at the same positions
   * after two turns, so no number of turns stops it.
   */
  lemma {:induction false} WildcardSubjectCycles(past: byte, n: nat)
    ensures Turns([HASH, 98], [120, HASH, 99], past, Search(0, 0, 0, 0), n).Continue?
  {
    var p, s := [HASH, 98], [120, HASH, 99];
    var t1, t2, t3 := Search(1, 0, 0, 1), Search(0, 1, 0, 1), Search(1, 2, 0, 1);
    assert Next(p, s, past, Search(0, 0, 0, 0)) == Continue(t1);
    assert Next(p, s, past, t1) == Continue(t2);
    assert Next(p, s, past, t2) == Continue(t3);
    assert Next(p, s, past, t3) == Continue(t2);
    if n >= 2 {
      Circle(p, s, past, t2, t3, n - 2);
      assert Turns(p, s, past, Search(0, 0, 0, 0), n) == Turns(p, s, past, t1, n - 1) == Turns(p, s, past, t2, n - 2);
    }
  }

  lemma {:induction false} Circle(p: seq<byte>, s: seq<byte>, past: byte, a: Search, b: Search, n: nat)
    requires Next(p, s, past, a) == Continue(b) && Next(p, s, past, b) == Continue(a)
    ensures Turns(p, s, past, a, n).Continue?
    decreases n
  {
    hide Next;
    if n > 0 {
      Circle(p, s, past, b, a, n - 1);
    }
  }

  // ------------------------------------------------------------------
  // The wildcards as characters

  /** A pattern, character by character: 35 is `#`, 63 is `?`, and any other byte stands for itself. */
  lemma {:induction false} MatchesByChar(c: byte, p: seq<byte>, s: seq<byte>)
    ensures Matches([], s) <==> s == []
    ensures c == 35 ==> (Matches([c] + p, s) <==> exists k :: 0 <= k <= |s| && Matches(p, s[k..]))
    ensures c == 63 ==> (Matches([c] + p, s) <==> s != [] && Matches(p, s[1..]))
    ensures c != 35 && c != 63 ==> (Matches([c] + p, s) <==> s != [] && s[0] == c && Matches(p, s[1..]))
  {
    assert ([c] + p)[1..] == p;
  }

  predicate Plain(p: seq<byte>) {
    forall i :: 0 <= i < |p| ==> p[i] != 35 && p[i] != 63
  }

  /** In front of the rest of a pattern, plain bytes match themselves. */
  lemma {:induction false} PlainInFront(p: seq<byte>, q: seq<byte>, s: seq<byte>)
    requires Plain(p)
    ensures Matches(p + q, s) <==> p <= s && Matches(q, s[|p|..])
    decreases |p|
  {
    hide Matches;
    if p == [] {
      assert p + q == q && s[0..] == s;
    } else {
      assert p + q == [p[0]] + (p[1..] + q);
      MatchesByChar(p[0], p[1..] + q, s);
      if s != [] {
        PlainInFront(p[1..], q, s[1..]);
        assert |p| <= |s| ==> s[1..][|p| - 1..] == s[|p|..];
        assert p <= s <==> p[0] == s[0] && p[1..] <= s[1..] by {
          assert p == [p[0]] + p[1..] && s == [s[0]] + s[1..];
        }
      }
    }
  }

  /** With a `#` between plain parts: the subject starts with the one and ends, behind it, with the other. */
  lemma {:induction false} AroundHash(p: seq<byte>, q: seq<byte>, s: seq<byte>)
    requires Plain(p) && Plain(q)
    ensures Matches(p + ([35] + q), s) <==> |p| + |q| <= |s| && s[..|p|] == p && s[|s| - |q|..] == q
  {
    hide Matches;
    PlainInFront(p, [35] + q, s);
    if p <= s {
      var t := s[|p|..];
      MatchesByChar(35, q, t);
      forall k | 0 <= k <= |t|
        ensures Matches(q, t[k..]) <==> t[k..] == q
      {
        PlainWhole(q, t[k..]);
      }
      assert |q| <= |t| ==> t[|t| - |q|..] == s[|s| - |q|..];
    }
  }

  lemma {:induction false} PlainWhole(p: seq<byte>, s: seq<byte>)
    requires Plain(p)
    ensures Matches(p, s) <==> p == s
  {
    hide Matches;
    PlainInFront(p, [], s);
    MatchesByChar(0, [], s[if |p| <= |s| then |p| else |s|..]);
    assert p + [] == p;
  }

  lemma {:induction false} StarRuns(s: seq<byte>, past: byte, t: Search) returns (n: nat)
    requires 42 !in s && t.i == 0 && t.ni == 0 && t.j <= |s| && (t.nj == t.j || t.nj == 0)
    requires 47 !in s[..t.j]
    ensures Turns([42], s, past, t, n) == Stop(47 !in s)
    decreases |s| - t.j
  {
    var p: seq<byte>, j := [42], t.j;
    var u := Search(1, j, 0, j + 1);
    assert Next(p, s, past, t) == Continue(u);
    if j == |s| {
      assert s[..j] == s;
      assert Turns(p, s, past, u, 1) == Stop(true);
      n := 2;
    } else if s[j] == 47 {
      assert Turns(p, s, past, u, 1) == Stop(false);
      n := 2;
    } else {
      var v := Search(0, j + 1, 0, j + 1);
      assert Next(p, s, past, u) == Continue(v);
      assert s[..j + 1] == s[..j] + [s[j]];
      var m := StarRuns(s, past, v);
      assert Turns(p, s, past, u, m + 1) == Turns(p, s, past, v, m);
      n := m + 2;
    }
  }

  /** The pattern `*` (42) is found to match a subject without one exactly if that holds no slash (47). */
  lemma {:induction false} StarAlone(s: seq<byte>, past: byte, n: nat, found: bool)
    requires 42 !in s && Turns([42], s, past, START, n) == Stop(found)
    ensures found <==> 47 !in s
  {
    hide Turns;
    var m := StarRuns(s, past, START);
    StopsOnce([42], s, past, START, m, n);
  }
}
