/**
 * Strings in the JSON text: `string_replace` of src/common/common_utils.cpp and the
 * chains of global replacements `escape_string` and `unescape_string` of
 * src/common/common_json.cpp. A byte is the character of the same number.
 */
module JsonText {
  import opened Bytes

  // ------------------------------------------------------------------
  // Global replacement

  predicate At(s: string, k: nat, pat: string) {
    k + |pat| <= |s| && s[k..k + |pat|] == pat
  }

  lemma {:induction false} AtShift(s: string, pat: string, m: nat)
    requires m <= |s|
    ensures forall k: nat :: At(s[m..], k, pat) == At(s, m + k, pat)
  {
    forall k: nat
      ensures At(s[m..], k, pat) == At(s, m + k, pat)
    {
      if m + k + |pat| <= |s| {
        assert s[m..][k..k + |pat|] == s[m + k..m + k + |pat|];
      }
    }
  }

  /** `std::string::find`: the least position from `from` on, or -1. */
  function Find(s: string, pat: string, from: nat): (r: int)
    ensures r == -1 || (r >= from && At(s, r, pat))
    ensures forall k: nat :: from <= k && (r < 0 || k < r) ==> !At(s, k, pat)
    decreases |s| - from
  {
    if from + |pat| > |s| then -1
    else if At(s, from, pat) then from
    else Find(s, pat, from + 1)
  }

  /** Leftmost matches are replaced; the search goes on behind the replacement. */
  function ReplaceAll(s: string, pat: string, rep: string): string
    requires pat != ""
    decreases |s|
  {
    if |s| < |pat| then s
    else if At(s, 0, pat) then rep + ReplaceAll(s[|pat|..], pat, rep)
    else [s[0]] + ReplaceAll(s[1..], pat, rep)
  }

  lemma {:induction false} ReplaceAtFirst(s: string, pat: string, rep: string, d: nat)
    requires pat != "" && At(s, d, pat) && forall k: nat :: k < d ==> !At(s, k, pat)
    ensures ReplaceAll(s, pat, rep) == s[..d] + (rep + ReplaceAll(s[d + |pat|..], pat, rep))
    decreases d
  {
    hide At;
    assert d + |pat| <= |s| by { AtFits(s, d, pat); }
    if d > 0 {
      AtShift(s, pat, 1);
      ReplaceAtFirst(s[1..], pat, rep, d - 1);
      assert s[1..][d - 1 + |pat|..] == s[d + |pat|..];
      assert [s[0]] + s[1..][..d - 1] == s[..d];
      Associate([s[0]], s[1..][..d - 1], rep + ReplaceAll(s[d + |pat|..], pat, rep));
    } else {
      assert s[..0] == [];
    }
  }

  lemma {:induction false} AtFits(s: string, k: nat, pat: string)
    requires At(s, k, pat)
    ensures k + |pat| <= |s|
  {
  }

  lemma {:induction false} ReplaceNone(s: string, pat: string, rep: string)
    requires pat != "" && forall k: nat :: !At(s, k, pat)
    ensures ReplaceAll(s, pat, rep) == s
    decreases |s|
  {
    hide At;
    if |s| >= |pat| {
      AtShift(s, pat, 1);
      ReplaceNone(s[1..], pat, rep);
    }
  }

  /** `string_replace`, which rewrites the string in place. */
  method StringReplace(s: string, search: string, replacement: string) returns (str: string)
    ensures str == if search == "" || search == replacement then s else ReplaceAll(s, search, replacement)
  {
    hide Find, ReplaceAll, At;
    str := s;
    if search == replacement {
      return;
    }
    if search == "" {
      return;
    }
    var lastPos := 0;
    assert str[0..] == str;
    var pos := Find(str, search, lastPos);
    while pos != -1
      invariant 0 <= lastPos <= |str|
      invariant pos == Find(str, search, lastPos)
      invariant str[..lastPos] + ReplaceAll(str[lastPos..], search, replacement)
                == ReplaceAll(s, search, replacement)
      decreases |str| - lastPos
    {
      FirstMatch(str, search, replacement, lastPos);
      ghost var tail := str[pos + |search|..];
      str := str[..pos] + replacement + str[pos + |search|..];
      lastPos := pos + |replacement|;
      assert str[lastPos..] == tail;
      pos := Find(str, search, lastPos);
    }
    NoMatch(str, search, replacement, lastPos);
  }

  lemma {:induction false} FirstMatch(str: string, pat: string, rep: string, last: nat)
    requires pat != "" && last <= |str| && Find(str, pat, last) >= 0
    ensures var pos := Find(str, pat, last);
      && last <= pos && pos + |pat| <= |str|
      && str[..last] + ReplaceAll(str[last..], pat, rep)
         == str[..pos] + rep + ReplaceAll(str[pos + |pat|..], pat, rep)
  {
    hide At, Find, ReplaceAll;
    var pos, t := Find(str, pat, last), str[last..];
    AtFits(str, pos, pat);
    AtShift(str, pat, last);
    assert At(t, pos - last, pat);
    ReplaceAtFirst(t, pat, rep, pos - last);
    var r := ReplaceAll(str[pos + |pat|..], pat, rep);
    assert t[pos - last + |pat|..] == str[pos + |pat|..];
    assert str[..last] + t[..pos - last] == str[..pos];
    Associate(str[..last], t[..pos - last], rep + r);
    Associate(str[..pos], rep, r);
  }

  lemma {:induction false} NoMatch(str: string, pat: string, rep: string, last: nat)
    requires pat != "" && last <= |str| && Find(str, pat, last) < 0
    ensures str[..last] + ReplaceAll(str[last..], pat, rep) == str
  {
    hide At, Find, ReplaceAll;
    AtShift(str, pat, last);
    ReplaceNone(str[last..], pat, rep);
  }

  // ------------------------------------------------------------------
  // Escaping

  const BACKSPACE: char := 8 as char
  const FORM_FEED: char := 12 as char

  /** The place of a character in the chain of replacements; 7 if it is not replaced there. */
  function Rank(c: char): (j: nat)
    ensures j <= 7 && (j < 7 ==> c != '\\')
  {
    if c == '/' then 0
    else if c == '"' then 1
    else if c == BACKSPACE then 2
    else if c == FORM_FEED then 3
    else if c == '\n' then 4
    else if c == '\r' then 5
    else if c == '\t' then 6
    else 7
  }

  function Nth(j: nat): (c: char)
    requires j < 7
    ensures Rank(c) == j
  {
    if j == 0 then '/'
    else if j == 1 then '"'
    else if j == 2 then BACKSPACE
    else if j == 3 then FORM_FEED
    else if j == 4 then '\n'
    else if j == 5 then '\r'
    else '\t'
  }

  lemma {:induction false} NthRank(c: char)
    requires Rank(c) < 7
    ensures Nth(Rank(c)) == c
  {
  }

  /** The character behind the backslash. */
  function Letter(j: nat): (l: char)
    requires j < 7
    ensures l != '\\'
  {
    if j == 0 then '/'
    else if j == 1 then '"'
    else if j == 2 then 'b'
    else if j == 3 then 'f'
    else if j == 4 then 'n'
    else if j == 5 then 'r'
    else 't'
  }

  function CodedChar(c: char, lo: nat, hi: nat): (t: string)
    requires hi <= 7
    ensures |t| > 0
  {
    if c == '\\' then ['\\', '\\']
    else if lo <= Rank(c) < hi then ['\\', Letter(Rank(c))]
    else [c]
  }

  /** Backslashes doubled, and the characters of ranks from `lo` to before `hi` coded. */
  function Coded(s: string, lo: nat, hi: nat): (t: string)
    requires hi <= 7
    ensures t == "" <==> s == ""
    decreases |s|
  {
    if s == "" then "" else CodedChar(s[0], lo, hi) + Coded(s[1..], lo, hi)
  }

  /** What a string looks like in the text. */
  function Escaped(s: string): string {
    Coded(s, 0, 7)
  }

  lemma {:induction false} ReplaceOne(x: char, rest: string, c: char, rep: string)
    ensures ReplaceAll([x] + rest, [c], rep)
            == (if x == c then rep else [x]) + ReplaceAll(rest, [c], rep)
  {
    assert ([x] + rest)[0..1] == [x] && ([x] + rest)[1..] == rest;
  }

  lemma {:induction false} ReplaceTwo(x: char, y: char, rest: string, c: char, rep: string)
    requires x != c && y != c
    ensures ReplaceAll([x, y] + rest, [c], rep) == [x, y] + ReplaceAll(rest, [c], rep)
  {
    ReplaceOne(x, [y] + rest, c, rep);
    ReplaceOne(y, rest, c, rep);
    assert [x, y] + rest == [x] + ([y] + rest);
  }

  /** Replacing a character codes it everywhere, and nothing that is coded already. */
  lemma {:induction false} ReplaceCodes(s: string, hi: nat)
    requires hi < 7
    ensures ReplaceAll(Coded(s, 0, hi), [Nth(hi)], ['\\', Letter(hi)]) == Coded(s, 0, hi + 1)
    decreases |s|
  {
    hide ReplaceAll;
    if s != "" {
      var x, rest, c := s[0], Coded(s[1..], 0, hi), Nth(hi);
      ReplaceCodes(s[1..], hi);
      if x == '\\' || Rank(x) < hi {
        ReplaceTwo('\\', if x == '\\' then '\\' else Letter(Rank(x)), rest, c, ['\\', Letter(hi)]);
      } else {
        ReplaceOne(x, rest, c, ['\\', Letter(hi)]);
        if Rank(x) < 7 {
          NthRank(x);
        }
      }
    } else {
      ReplaceNothing([Nth(hi)], ['\\', Letter(hi)]);
    }
  }

  lemma {:induction false} ReplaceNothing(pat: string, rep: string)
    requires pat != ""
    ensures ReplaceAll("", pat, rep) == ""
  {
  }

  lemma {:induction false} ReplaceDoubles(s: string)
    ensures ReplaceAll(s, ['\\'], ['\\', '\\']) == Coded(s, 0, 0)
    decreases |s|
  {
    hide ReplaceAll;
    if s != "" {
      ReplaceDoubles(s[1..]);
      ReplaceOne(s[0], s[1..], '\\', ['\\', '\\']);
      assert [s[0]] + s[1..] == s;
    } else {
      ReplaceNothing(['\\'], ['\\', '\\']);
    }
  }

  /** `escape_string`: each character of the string is coded by itself. */
  method EscapeString(s: string) returns (str: string)
    ensures str == Escaped(s)
  {
    hide Coded, ReplaceAll;
    str := StringReplace(s, "\\", "\\\\");
    ReplaceDoubles(s);
    str := StringReplace(str, "/", "\\/");
    ReplaceCodes(s, 0);
    str := StringReplace(str, "\"", "\\\"");
    ReplaceCodes(s, 1);
    str := StringReplace(str, [BACKSPACE], "\\b");
    ReplaceCodes(s, 2);
    str := StringReplace(str, [FORM_FEED], "\\f");
    ReplaceCodes(s, 3);
    str := StringReplace(str, "\n", "\\n");
    ReplaceCodes(s, 4);
    str := StringReplace(str, "\r", "\\r");
    ReplaceCodes(s, 5);
    str := StringReplace(str, "\t", "\\t");
    ReplaceCodes(s, 6);
  }

  // ------------------------------------------------------------------
  // Unescaping

  /** The replacements of `unescape_string` from rank `lo` on, the doubled backslashes last. */
  function UndoneFrom(t: string, lo: nat): string
    requires lo <= 7
    decreases 7 - lo
  {
    if lo == 7 then ReplaceAll(t, ['\\', '\\'], ['\\'])
    else UndoneFrom(ReplaceAll(t, ['\\', Letter(lo)], [Nth(lo)]), lo + 1)
  }

  function Unescaped(t: string): string {
    UndoneFrom(t, 0)
  }

  /** `unescape_string`. */
  method UnescapeString(t: string) returns (str: string)
    ensures str == Unescaped(t)
  {
    hide ReplaceAll;
    str := StringReplace(t, "\\/", "/");
    assert UndoneFrom(t, 0) == UndoneFrom(str, 1);
    str := StringReplace(str, "\\\"", "\"");
    assert UndoneFrom(t, 0) == UndoneFrom(str, 2);
    str := StringReplace(str, "\\b", [BACKSPACE]);
    assert UndoneFrom(t, 0) == UndoneFrom(str, 3);
    str := StringReplace(str, "\\f", [FORM_FEED]);
    assert UndoneFrom(t, 0) == UndoneFrom(str, 4);
    str := StringReplace(str, "\\n", "\n");
    assert UndoneFrom(t, 0) == UndoneFrom(str, 5);
    str := StringReplace(str, "\\r", "\r");
    assert UndoneFrom(t, 0) == UndoneFrom(str, 6);
    str := StringReplace(str, "\\t", "\t");
    assert UndoneFrom(t, 0) == UndoneFrom(str, 7);
    str := StringReplace(str, "\\\\", "\\");
  }

  /** The places where a backslash stands right before the character `l`. */
  function Pairs(s: string, l: char): nat
    decreases |s|
  {
    if |s| < 2 then 0
    else (if s[0] == '\\' && s[1] == l then 1 else 0) + Pairs(s[1..], l)
  }

  /** No backslash stands right before one of the letters b, f, n, r, t. */
  predicate Gentle(s: string) {
    forall j :: 2 <= j < 7 ==> Pairs(s, Letter(j)) == 0
  }

  lemma {:induction false} ReplacePair(a: char, b: char, rest: string, rep: string)
    ensures ReplaceAll([a, b] + rest, [a, b], rep) == rep + ReplaceAll(rest, [a, b], rep)
  {
    assert ([a, b] + rest)[0..2] == [a, b] && ([a, b] + rest)[2..] == rest;
  }

  lemma {:induction false} ReplaceKeeps(x: char, rest: string, a: char, b: char, rep: string)
    requires x != a || rest == "" || rest[0] != b
    ensures ReplaceAll([x] + rest, [a, b], rep) == [x] + ReplaceAll(rest, [a, b], rep)
  {
    var t := [x] + rest;
    assert t[1..] == rest;
    if rest != "" {
      assert t[0..2] == [x, rest[0]];
    }
  }

  /** What stands at the head of coded text. */
  lemma {:induction false} CodedHead(s: string, lo: nat)
    requires s != "" && lo <= 7
    ensures Coded(s, lo, 7) != ""
    ensures Coded(s, lo, 7)[0] == if s[0] == '\\' || lo <= Rank(s[0]) < 7 then '\\' else s[0]
  {
    hide Coded, Rank, Letter;
    CodedUnfold(s, lo);
  }

  lemma {:induction false} CodedUnfold(s: string, lo: nat)
    requires s != "" && lo <= 7
    ensures Coded(s, lo, 7) == CodedChar(s[0], lo, 7) + Coded(s[1..], lo, 7)
  {
  }

  /** The code of one character passes, or is undone. */
  lemma {:induction false} UndoChar(x: char, rest: string, lo: nat)
    requires lo < 7
    requires x == '\\' ==> rest == "" || rest[0] != Letter(lo)
    ensures ReplaceAll(CodedChar(x, lo, 7) + rest, ['\\', Letter(lo)], [Nth(lo)])
            == CodedChar(x, lo + 1, 7) + ReplaceAll(rest, ['\\', Letter(lo)], [Nth(lo)])
  {
    hide ReplaceAll;
    var l, c := Letter(lo), Nth(lo);
    if x == '\\' || lo < Rank(x) < 7 {
      var y := if x == '\\' then '\\' else Letter(Rank(x));
      ReplaceKeeps('\\', [y] + rest, '\\', l, [c]);
      ReplaceKeeps(y, rest, '\\', l, [c]);
      assert ['\\', y] + rest == ['\\'] + ([y] + rest);
    } else if Rank(x) == lo {
      NthRank(x);
      ReplacePair('\\', l, rest, [c]);
    } else {
      ReplaceKeeps(x, rest, '\\', l, [c]);
    }
  }

  /** Where no bare letter follows a backslash, one replacement undoes one coding. */
  lemma {:induction false} ReplaceDecodes(s: string, lo: nat)
    requires lo < 7 && (lo >= 2 ==> Pairs(s, Letter(lo)) == 0)
    ensures ReplaceAll(Coded(s, lo, 7), ['\\', Letter(lo)], [Nth(lo)]) == Coded(s, lo + 1, 7)
    decreases |s|
  {
    hide ReplaceAll, CodedChar;
    if s != "" {
      ReplaceDecodes(s[1..], lo);
      if s[0] == '\\' && |s| > 1 {
        CodedHead(s[1..], lo);
        NotBare(s[1], lo);
      }
      UndoChar(s[0], Coded(s[1..], lo, 7), lo);
    } else {
      ReplaceNothing(['\\', Letter(lo)], [Nth(lo)]);
    }
  }

  /** A slash or a quote is never bare while its code is still to be undone. */
  lemma {:induction false} NotBare(x: char, lo: nat)
    requires lo < 7 && (lo >= 2 ==> x != Letter(lo))
    ensures x == '\\' || lo <= Rank(x) < 7 || x != Letter(lo)
  {
  }

  lemma {:induction false} ReplaceHalves(s: string)
    ensures ReplaceAll(Coded(s, 7, 7), ['\\', '\\'], ['\\']) == s
    decreases |s|
  {
    hide ReplaceAll;
    if s != "" {
      var rest := Coded(s[1..], 7, 7);
      ReplaceHalves(s[1..]);
      if s[0] == '\\' {
        ReplacePair('\\', '\\', rest, ['\\']);
      } else {
        ReplaceKeeps(s[0], rest, '\\', '\\', ['\\']);
      }
      assert [s[0]] + s[1..] == s;
    } else {
      ReplaceNothing(['\\', '\\'], ['\\']);
    }
  }

  lemma {:induction false} UndoCoded(s: string, lo: nat)
    requires lo <= 7 && Gentle(s)
    ensures UndoneFrom(Coded(s, lo, 7), lo) == s
    decreases 7 - lo
  {
    hide ReplaceAll, Coded, Pairs;
    if lo == 7 {
      ReplaceHalves(s);
    } else {
      ReplaceDecodes(s, lo);
      UndoCoded(s, lo + 1);
    }
  }

  // ------------------------------------------------------------------
  // Where unescaping goes wrong

  function Count(s: string, c: char): nat {
    if s == "" then 0 else (if s[0] == c then 1 else 0) + Count(s[1..], c)
  }

  lemma {:induction false} CountConcat(a: string, b: string, c: char)
    ensures Count(a + b, c) == Count(a, c) + Count(b, c)
    decreases |a|
  {
    if a != "" {
      CountConcat(a[1..], b, c);
      assert (a + b)[1..] == a[1..] + b;
    } else {
      assert a + b == b;
    }
  }

  /** Later replacements take no character away that they do not search for. */
  lemma {:induction false} CountKept(s: string, pat: string, rep: string, c: char)
    requires pat != "" && Count(pat, c) == 0
    ensures Count(ReplaceAll(s, pat, rep), c) >= Count(s, c)
    decreases |s|
  {
    if |s| >= |pat| {
      if At(s, 0, pat) {
        CountKept(s[|pat|..], pat, rep, c);
        CountConcat(pat, s[|pat|..], c);
        assert pat + s[|pat|..] == s;
        CountConcat(rep, ReplaceAll(s[|pat|..], pat, rep), c);
      } else {
        CountKept(s[1..], pat, rep, c);
        CountConcat([s[0]], ReplaceAll(s[1..], pat, rep), c);
        assert Count([s[0]], c) == if s[0] == c then 1 else 0;
      }
    }
  }

  lemma {:induction false} CountOne(a: char, c: char)
    ensures Count([a], c) == if a == c then 1 else 0
  {
    var s := [a];
    assert s[0] == a && s[1..] == "";
  }

  lemma {:induction false} CountTwo(a: char, b: char, c: char)
    ensures Count([a, b], c) == (if a == c then 1 else 0) + (if b == c then 1 else 0)
  {
    hide Count;
    CountOne(a, c);
    CountOne(b, c);
    CountConcat([a], [b], c);
    assert [a] + [b] == [a, b];
  }

  lemma {:induction false} CountLater(t: string, lo: nat, c: char)
    requires lo <= 7 && 2 <= Rank(c) < lo
    ensures Count(UndoneFrom(t, lo), c) >= Count(t, c)
    decreases 7 - lo
  {
    hide ReplaceAll;
    var pat := if lo == 7 then ['\\', '\\'] else ['\\', Letter(lo)];
    CountTwo(pat[0], pat[1], c);
    if lo == 7 {
      CountKept(t, pat, ['\\'], c);
    } else {
      CountKept(t, pat, [Nth(lo)], c);
      CountLater(ReplaceAll(t, pat, [Nth(lo)]), lo + 1, c);
    }
  }

  /** A backslash before a bare letter is taken for a code: one control character too many. */
  lemma {:induction false} CountGained(s: string, lo: nat)
    requires 2 <= lo < 7
    ensures Count(ReplaceAll(Coded(s, lo, 7), ['\\', Letter(lo)], [Nth(lo)]), Nth(lo))
            >= Count(s, Nth(lo)) + Pairs(s, Letter(lo))
    decreases |s|
  {
    hide ReplaceAll, CodedChar, Coded;
    var l, c := Letter(lo), Nth(lo);
    if s != "" {
      CodedUnfold(s, lo);
      if s[0] == '\\' && |s| > 1 && s[1] == l {
        CountGained(s[2..], lo);
        UndoBarePair(s, lo);
        PairsSkip(s, l);
        var r := ReplaceAll(Coded(s[2..], lo, 7), ['\\', l], [c]);
        CountConcat(['\\', c], r, c);
        CountTwo('\\', c, c);
        assert s[1..][1..] == s[2..];
      } else {
        CountGained(s[1..], lo);
        if s[0] == '\\' && |s| > 1 {
          CodedHead(s[1..], lo);
          NotBare(s[1], lo);
        }
        UndoChar(s[0], Coded(s[1..], lo, 7), lo);
        CountConcat(CodedChar(s[0], lo + 1, 7), ReplaceAll(Coded(s[1..], lo, 7), ['\\', l], [c]), c);
        CountCodedChar(s[0], lo);
      }
    }
  }

  lemma {:induction false} PairsSkip(s: string, l: char)
    requires |s| >= 2 && s[0] == '\\' && s[1] == l && l != '\\'
    ensures Pairs(s, l) == 1 + Pairs(s[2..], l)
  {
    assert s[1..][1..] == s[2..];
  }

  lemma {:induction false} CountCodedChar(x: char, lo: nat)
    requires lo < 7
    ensures Count(CodedChar(x, lo + 1, 7), Nth(lo)) >= if x == Nth(lo) then 1 else 0
  {
  }

  lemma {:induction false} UndoBarePair(s: string, lo: nat)
    requires 2 <= lo < 7 && |s| >= 2 && s[0] == '\\' && s[1] == Letter(lo)
    ensures ReplaceAll(Coded(s, lo, 7), ['\\', Letter(lo)], [Nth(lo)])
            == ['\\', Nth(lo)] + ReplaceAll(Coded(s[2..], lo, 7), ['\\', Letter(lo)], [Nth(lo)])
  {
    hide ReplaceAll, Coded;
    var l, c, rest := Letter(lo), Nth(lo), Coded(s[2..], lo, 7);
    CodedUnfold(s, lo);
    CodedUnfold(s[1..], lo);
    assert s[1..][1..] == s[2..];
    assert Coded(s, lo, 7) == ['\\'] + (['\\', l] + rest);
    ReplaceKeeps('\\', ['\\', l] + rest, '\\', l, [c]);
    ReplacePair('\\', l, rest, [c]);
  }

  /** From the first rank whose letter stands bare behind a backslash, the string is lost. */
  lemma {:induction false} UndoLost(s: string, lo: nat)
    requires lo < 7 && exists j :: 2 <= j < 7 && lo <= j && Pairs(s, Letter(j)) > 0
    ensures UndoneFrom(Coded(s, lo, 7), lo) != s
    decreases 7 - lo
  {
    hide ReplaceAll, Coded, Pairs, Count, Letter, Nth;
    if lo >= 2 && Pairs(s, Letter(lo)) > 0 {
      CountGained(s, lo);
      CountLater(ReplaceAll(Coded(s, lo, 7), ['\\', Letter(lo)], [Nth(lo)]), lo + 1, Nth(lo));
    } else {
      ReplaceDecodes(s, lo);
      UndoLost(s, lo + 1);
    }
  }

  /** Unescaping undoes escaping exactly on gentle strings. */
  lemma {:induction false} UnescapeUndoesIff(s: string)
    ensures Unescaped(Escaped(s)) == s <==> Gentle(s)
  {
    hide Coded, UndoneFrom, Pairs, Letter;
    if Gentle(s) {
      UndoCoded(s, 0);
    } else {
      UndoLost(s, 0);
    }
  }

  /** A string without backslashes is gentle; the two characters of a code are not. */
  lemma {:induction false} PlainIsGentle(s: string)
    requires '\\' !in s
    ensures Gentle(s)
  {
    forall j | 2 <= j < 7
      ensures Pairs(s, Letter(j)) == 0
    {
      NoPairs(s, Letter(j));
    }
  }

  lemma {:induction false} NoPairs(s: string, l: char)
    requires '\\' !in s
    ensures Pairs(s, l) == 0
    decreases |s|
  {
    if |s| >= 2 {
      NoPairs(s[1..], l);
    }
  }

  lemma {:induction false} CodeIsNotGentle()
    ensures Unescaped(Escaped("\\n")) != "\\n"
  {
    assert Pairs("\\n", Letter(4)) == 1;
    UnescapeUndoesIff("\\n");
  }

  // ------------------------------------------------------------------
  // Character by character

  lemma {:induction false} CodedConcat(a: string, b: string, lo: nat, hi: nat)
    requires hi <= 7
    ensures Coded(a + b, lo, hi) == Coded(a, lo, hi) + Coded(b, lo, hi)
    decreases |a|
  {
    hide CodedChar;
    if a == "" {
      assert a + b == b;
    } else {
      assert (a + b)[1..] == a[1..] + b;
      CodedConcat(a[1..], b, lo, hi);
    }
  }

  lemma {:induction false} OneCoded(c: char)
    ensures Escaped([c])
            == (if c == '\\' then "\\\\" else if c == '/' then "\\/" else if c == '"' then "\\\""
             else if c as int == 8 then "\\b" else if c as int == 12 then "\\f"
             else if c as int == 10 then "\\n" else if c as int == 13 then "\\r"
             else if c as int == 9 then "\\t" else [c])
  {
    assert [c][1..] == "";
    assert Coded([c], 0, 7) == CodedChar(c, 0, 7) + Coded("", 0, 7) == CodedChar(c, 0, 7);
    NamedControls();
  }

  /**
   * How each character is printed: a backslash, a slash and a quote behind a
   * backslash; backspace (8), form feed (12), newline (10), carriage return (13)
   * and tab (9) as a backslash and the letter b, f, n, r or t; any other as it is.
   */
  lemma {:induction false} EscapedByChar(pre: string, c: char, post: string)
    ensures Escaped(pre + [c] + post)
            == Escaped(pre)
               + (if c == '\\' then "\\\\" else if c == '/' then "\\/" else if c == '"' then "\\\""
                  else if c as int == 8 then "\\b" else if c as int == 12 then "\\f"
                  else if c as int == 10 then "\\n" else if c as int == 13 then "\\r"
                  else if c as int == 9 then "\\t" else [c])
               + Escaped(post)
  {
    hide Coded;
    CodedConcat(pre + [c], post, 0, 7);
    CodedConcat(pre, [c], 0, 7);
    OneCoded(c);
  }

  lemma {:induction false} NamedControls()
    ensures '\n' as int == 10 && '\r' as int == 13 && '\t' as int == 9
    ensures BACKSPACE as int == 8 && FORM_FEED as int == 12
  {
  }

  lemma {:induction false} OneEscaped(c: char)
    ensures Unescaped(Escaped([c])) == [c]
  {
    hide Coded, UndoneFrom;
    forall j | 2 <= j < 7
      ensures Pairs([c], Letter(j)) == 0
    {
    }
    UnescapeUndoesIff([c]);
  }

  /** And what each code is read as. */
  lemma {:induction false} UnescapedByCode()
    ensures Unescaped("\\\\") == "\\" && Unescaped("\\/") == "/" && Unescaped("\\\"") == "\""
    ensures Unescaped("\\b") == [8 as char] && Unescaped("\\f") == [12 as char]
    ensures Unescaped("\\n") == [10 as char] && Unescaped("\\r") == [13 as char] && Unescaped("\\t") == [9 as char]
  {
    hide Unescaped, Escaped;
    OneIs('\\', "\\\\");
    OneIs('/', "\\/");
    OneIs('"', "\\\"");
    OneIs(8 as char, "\\b");
    OneIs(12 as char, "\\f");
    OneIs(10 as char, "\\n");
    OneIs(13 as char, "\\r");
    OneIs(9 as char, "\\t");
  }

  lemma {:induction false} OneIs(c: char, code: string)
    requires code == if c == '\\' then "\\\\" else if c == '/' then "\\/" else if c == '"' then "\\\""
                     else if c as int == 8 then "\\b" else if c as int == 12 then "\\f"
                     else if c as int == 10 then "\\n" else if c as int == 13 then "\\r"
                     else if c as int == 9 then "\\t" else [c]
    ensures Unescaped(code) == [c]
  {
    hide Unescaped;
    EscapedByChar("", c, "");
    assert "" + [c] + "" == [c];
    assert Escaped("") == "";
    assert "" + code + "" == code;
    OneEscaped(c);
  }

  lemma {:induction false} PairsIff(s: string, l: char)
    ensures Pairs(s, l) > 0 <==> exists i :: 0 <= i < |s| - 1 && s[i] == '\\' && s[i + 1] == l
    decreases |s|
  {
    if |s| >= 2 {
      var rest := s[1..];
      PairsIff(rest, l);
      if i :| 0 <= i < |rest| - 1 && rest[i] == '\\' && rest[i + 1] == l {
        assert s[i + 1] == '\\' && s[i + 1 + 1] == l;
      }
      if i :| 0 < i < |s| - 1 && s[i] == '\\' && s[i + 1] == l {
        assert rest[i - 1] == '\\' && rest[i - 1 + 1] == l;
      }
    }
  }

  predicate IsLetter(c: char) {
    c == 'b' || c == 'f' || c == 'n' || c == 'r' || c == 't'
  }

  /** A string is gentle if no backslash stands right before one of the letters b, f, n, r, t. */
  lemma {:induction false} GentleIff(s: string)
    ensures Gentle(s) <==> forall i :: 0 <= i < |s| - 1 && s[i] == '\\' ==> !IsLetter(s[i + 1])
  {
    hide Pairs;
    assert Letter(2) == 'b' && Letter(3) == 'f' && Letter(4) == 'n' && Letter(5) == 'r' && Letter(6) == 't';
    PairsIff(s, 'b');
    PairsIff(s, 'f');
    PairsIff(s, 'n');
    PairsIff(s, 'r');
    PairsIff(s, 't');
  }
}
