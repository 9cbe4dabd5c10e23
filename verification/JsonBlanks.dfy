/**
 * Blanks in a JSON text, and the grammar of the reader in plain characters: what
 * is skipped, what is refused, and that a spaced-out text reads like a dense one.
 */
module JsonBlanks {
  import opened Bytes
  import opened Json
  import opened JsonReader
  import opened JsonWriter
  import opened JsonRoundTrip
  import Objects = JsonObjects
  import JsonText

  // ------------------------------------------------------------------
  // Blanks in front

  /** Spaces, tabs, carriage returns and newlines only. */
  predicate Blank(b: string) {
    forall i :: 0 <= i < |b| ==> b[i] == ' ' || b[i] == '\t' || b[i] == '\r' || b[i] == '\n'
  }

  lemma {:induction false} BlanksSkipped(b: string, t: string)
    requires Blank(b)
    ensures SkipSpace(b + t) == SkipSpace(t)
    decreases |b|
  {
    if b == "" {
      assert b + t == t;
    } else {
      assert (b + t)[1..] == b[1..] + t;
      BlanksSkipped(b[1..], t);
    }
  }

  /** And nothing but blanks is skipped. */
  lemma {:induction false} OnlyBlanksSkipped(t: string)
    requires t == "" || (t[0] != ' ' && t[0] != '\t' && t[0] != '\r' && t[0] != '\n')
    ensures SkipSpace(t) == t
  {
  }

  /** Blanks in front of a value do not matter. */
  lemma {:induction false} BlanksBeforeValue(b: string, t: string)
    requires Blank(b)
    ensures ReadValue(b + t) == ReadValue(t)
  {
    hide ReadValue, SkipSpace;
    BlanksSkipped(b, t);
    Objects.ValueSkips(b + t);
    Objects.ValueSkips(t);
  }

  /** Nor do blanks in front of a whole text. */
  lemma {:induction false} BlanksBeforeText(b: string, t: string, o: Object)
    requires Blank(b)
    ensures ReadFrom(b + t, o) == ReadFrom(t, o)
  {
    hide ReadMembers, ReadElements;
    BlanksSkipped(b, t);
  }

  /** A delimiter is found and passed with the blanks on both sides of it. */
  lemma {:induction false} BlanksAroundDelimiter(b: string, c: char, t: string)
    requires Blank(b) && c != ' ' && c != '\t' && c != '\r' && c != '\n'
    ensures ReadDelimiter(b + ([c] + t)) == Got(c, SkipSpace(t))
  {
    hide SkipSpace;
    BlanksSkipped(b, [c] + t);
    OnlyBlanksSkipped([c] + t);
    assert ([c] + t)[1..] == t;
  }

  // ------------------------------------------------------------------
  // Spaced-out texts

  /** The blanks of a text: four for each member of each object, by the path that leads to it. */
  type Gaps = (seq<nat>, nat) -> string

  ghost predicate AllBlank(g: Gaps) {
    forall p, k :: Blank(g(p, k))
  }

  /** The text of a tree with blanks in front of keys and values and around colons and commas. */
  function Spaced(v: Value, g: Gaps, p: seq<nat>): string
    decreases v, 0
  {
    match v
    case Tree(o) =>
      (if o.isArray then "[" else "{") + SpacedMembers(o.isArray, o.members, 0, g, p) + (if o.isArray then "]" else "}")
    case _ => Show(v)
  }

  function SpacedMember(isArray: bool, m: Member, g: Gaps, p: seq<nat>): string
    decreases m, 1
  {
    g(p, 0)
    + (if isArray then "" else "\"" + m.key + "\"" + g(p, 1) + ":" + g(p, 2))
    + Spaced(m.value, g, p)
    + g(p, 3)
  }

  function SpacedMembers(isArray: bool, ms: seq<Member>, n: nat, g: Gaps, p: seq<nat>): string
    decreases ms
  {
    if ms == [] then ""
    else
      (if n == 0 then "" else ",") + SpacedMember(isArray, ms[0], g, p + [n])
      + SpacedMembers(isArray, ms[1..], n + 1, g, p)
  }

  /** With no blanks it is the printed form. */
  lemma {:induction false} NoGaps(v: Value, g: Gaps, p: seq<nat>)
    requires forall q, k :: g(q, k) == ""
    ensures Spaced(v, g, p) == Show(v)
    decreases v, 0
  {
    if v.Tree? {
      NoGapsInMembers(v.tree.isArray, v.tree.members, 0, g, p);
    }
  }

  lemma {:induction false} NoGapsInMember(isArray: bool, m: Member, g: Gaps, p: seq<nat>)
    requires forall q, k :: g(q, k) == ""
    ensures SpacedMember(isArray, m, g, p) == ShowMember(isArray, m)
    decreases m, 1
  {
    hide Spaced, Show;
    NoGaps(m.value, g, p);
  }

  lemma {:induction false} NoGapsInMembers(isArray: bool, ms: seq<Member>, n: nat, g: Gaps, p: seq<nat>)
    requires forall q, k :: g(q, k) == ""
    ensures SpacedMembers(isArray, ms, n, g, p) == ShowMembers(isArray, ms, n == 0)
    decreases ms
  {
    hide SpacedMember, ShowMember;
    if ms != [] {
      NoGapsInMember(isArray, ms[0], g, p + [n]);
      NoGapsInMembers(isArray, ms[1..], n + 1, g, p);
    }
  }

  // ------------------------------------------------------------------
  // Reading them

  /** Behind the blanks the enclosing text goes on, or there is nothing. */
  predicate Ends(post: string) {
    Stop(SkipSpace(post))
  }

  /** The closing delimiter of members takes the blanks behind it; nothing else does. */
  function Behind(v: Value, post: string): string {
    if v.Tree? && v.tree.members != [] then SkipSpace(post) else post
  }

  /** The members from number `n` on without the comma in front, the closing character and what follows. */
  function From(isArray: bool, ms: seq<Member>, n: nat, g: Gaps, p: seq<nat>, post: string): string
    requires ms != []
    decreases |ms|, 0
  {
    SpacedMember(isArray, ms[0], g, p + [n]) + After(isArray, ms[1..], n + 1, g, p, post)
  }

  /** What stands behind member `n - 1`. */
  function After(isArray: bool, ms: seq<Member>, n: nat, g: Gaps, p: seq<nat>, post: string): string
    decreases |ms|, 1
  {
    if ms == [] then Close(isArray) + post else "," + From(isArray, ms, n, g, p, post)
  }

  lemma {:induction false} FromIs(isArray: bool, ms: seq<Member>, n: nat, g: Gaps, p: seq<nat>, post: string)
    requires ms != []
    ensures var all := SpacedMembers(isArray, ms, n, g, p) + (Close(isArray) + post);
            all == if n == 0 then From(isArray, ms, n, g, p, post) else After(isArray, ms, n, g, p, post)
    decreases |ms|
  {
    hide SpacedMember;
    var end := Close(isArray) + post;
    var m, r := SpacedMember(isArray, ms[0], g, p + [n]), SpacedMembers(isArray, ms[1..], n + 1, g, p);
    var comma := if n == 0 then "" else ",";
    if ms[1..] == [] {
      assert r + end == end;
    } else {
      FromIs(isArray, ms[1..], n + 1, g, p, post);
    }
    assert r + end == After(isArray, ms[1..], n + 1, g, p, post);
    FourParts(comma, m, r, end);
    assert SpacedMembers(isArray, ms, n, g, p) == comma + m + r;
  }

  lemma {:induction false} FourParts(a: string, b: string, c: string, d: string)
    ensures a + b + c + d == a + (b + (c + d))
    ensures "" + (b + (c + d)) == b + (c + d)
  {
    Associate(a, b, c);
    Associate(a, b + c, d);
    Associate(b, c, d);
  }

  /** The blanks of one member, and the rest of it. */
  lemma {:induction false} MemberText(isArray: bool, m: Member, g: Gaps, p: seq<nat>, tail: string)
    ensures var w := Spaced(m.value, g, p) + (g(p, 3) + tail);
            SpacedMember(isArray, m, g, p) + tail
            == g(p, 0) + if isArray then w else "\"" + m.key + "\"" + (g(p, 1) + (":" + (g(p, 2) + w)))
  {
  }

  lemma {:induction false} AfterStops(isArray: bool, ms: seq<Member>, n: nat, g: Gaps, p: seq<nat>, post: string)
    ensures var t := After(isArray, ms, n, g, p, post);
            && Stop(t) && t != "" && SkipSpace(t) == t
            && t == [if ms == [] then Close(isArray)[0] else ','] + (if ms == [] then post else From(isArray, ms, n, g, p, post))
  {
    hide From;
  }

  lemma {:induction false} EndsBehind(b: string, t: string)
    requires Blank(b) && Stop(t) && SkipSpace(t) == t
    ensures Ends(b + t)
  {
    BlanksSkipped(b, t);
  }

  lemma {:induction false} SkipTwice(t: string)
    ensures SkipSpace(SkipSpace(t)) == SkipSpace(t)
  {
  }

  lemma {:induction false} DelimiterSkips(t: string)
    ensures ReadDelimiter(SkipSpace(t)) == ReadDelimiter(t)
  {
    hide SkipSpace;
    SkipTwice(t);
  }

  lemma {:induction false} EndsSeparates(post: string)
    requires Ends(post)
    ensures Separate(post)
  {
  }

  /** Key, colon and the blanks around it. */
  lemma {:induction false} SpacedKey(k: string, b1: string, b2: string, w: string)
    requires PlainKey(k) && Blank(b1) && Blank(b2)
    ensures var t := "\"" + k + "\"" + (b1 + (":" + (b2 + w)));
            && ReadValue(t) == Got(Text(k), b1 + (":" + (b2 + w)))
            && ReadDelimiter(b1 + (":" + (b2 + w))) == Got(':', SkipSpace(w))
            && t != "" && !IsSpace(t[0]) && t[0] != '}'
  {
    hide ReadText, PlainKey, ReadValue, ReadDelimiter, SkipSpace;
    KeyReadsBackIff(k, b1 + (":" + (b2 + w)));
    TextIsValue("\"" + k + "\"" + (b1 + (":" + (b2 + w))));
    BlanksAroundDelimiter(b1, ':', b2 + w);
    BlanksSkipped(b2, w);
  }

  lemma {:induction false} SpacedHead(v: Value, g: Gaps, p: seq<nat>)
    requires Legible(v)
    ensures var s := Spaced(v, g, p);
            s != "" && !IsSpace(s[0]) && s[0] != '}' && s[0] != ']'
  {
    hide Show, SpacedMembers;
    ShowHead(v);
  }

  /** Skipped or not, the blanks in front of a value make no difference to the reader. */
  lemma {:induction false} FrontSkipped(b: string, h: string, t: string)
    requires Blank(b) && h != "" && !IsSpace(h[0]) && h[0] != '}' && h[0] != ']'
    requires t == b + h || t == SkipSpace(b + h)
    ensures ReadValue(t) == ReadValue(h)
    ensures t != "" && t[0] != '}' && t[0] != ']'
  {
    hide ReadValue, SkipSpace;
    BlanksSkipped(b, h);
    SkipNone(h);
    BlanksBeforeValue(b, h);
  }

  /** An element is read off the front; of a member first the key and the colon. */
  lemma {:induction false} MemberReads(
      isArray: bool, ms: seq<Member>, n: nat, g: Gaps, p: seq<nat>, post: string, t: string)
    requires ms != [] && AllLegible(isArray, ms) && AllBlank(g)
    requires var x := From(isArray, ms, n, g, p, post); t == x || t == SkipSpace(x)
    ensures t != "" && t[0] != '}' && t[0] != ']'
    ensures var w := Spaced(ms[0].value, g, p + [n]) + (g(p + [n], 3) + After(isArray, ms[1..], n + 1, g, p, post));
            if isArray then ReadValue(t) == ReadValue(w)
            else
              var k := ReadValue(t);
              && k.Got? && k.value == Text(ms[0].key)
              && ReadDelimiter(k.rest) == Got(':', SkipSpace(w)) && ReadValue(SkipSpace(w)) == ReadValue(w)
  {
    hide ReadValue, After, PlainKey, Legible, Spaced, SpacedMember, ReadDelimiter, SkipSpace, Blank;
    var m, q, tail := ms[0], p + [n], After(isArray, ms[1..], n + 1, g, p, post);
    var v := Spaced(m.value, g, q);
    var w := v + (g(q, 3) + tail);
    MemberText(isArray, m, g, q, tail);
    SpacedHead(m.value, g, q);
    assert w[0] == v[0];
    if isArray {
      FrontSkipped(g(q, 0), w, t);
    } else {
      SpacedKey(m.key, g(q, 1), g(q, 2), w);
      FrontSkipped(g(q, 0), "\"" + m.key + "\"" + (g(q, 1) + (":" + (g(q, 2) + w))), t);
      Objects.ValueSkips(w);
    }
  }

  /** After a value and its blanks the reader ends, or goes on with the next member. */
  lemma {:induction false} SpacedAfter(
      isArray: bool, ms: seq<Member>, n: nat, g: Gaps, p: seq<nat>, post: string,
      v: Value, b: string, t: string, acc: seq<Member>)
    requires Blank(b)
    requires var u := Behind(v, b + After(isArray, ms, n, g, p, post)); |u| < |t|
    ensures AfterMember(t, Behind(v, b + After(isArray, ms, n, g, p, post)), Close(isArray)[0], acc, isArray)
      == if ms == [] then Loading(true, acc, SkipSpace(post))
         else Read(isArray, SkipSpace(From(isArray, ms, n, g, p, post)), acc)
  {
    hide ReadElements, ReadMembers, From, After, SkipSpace, ReadDelimiter;
    var tail := After(isArray, ms, n, g, p, post);
    AfterStops(isArray, ms, n, g, p, post);
    DelimiterSkips(b + tail);
    var c := if ms == [] then Close(isArray)[0] else ',';
    var rest := if ms == [] then post else From(isArray, ms, n, g, p, post);
    BlanksAroundDelimiter(b, c, rest);
    assert ReadDelimiter(Behind(v, b + tail)) == Got(c, SkipSpace(rest));
  }

  /** The reader gets through the members from number `n` on, with or without the blanks in front skipped. */
  lemma {:induction false} SpacedMembersRead(
      isArray: bool, ms: seq<Member>, n: nat, g: Gaps, p: seq<nat>, acc: seq<Member>, post: string, t: string)
    requires ms != [] && AllLegible(isArray, ms) && AllBlank(g)
    requires var x := From(isArray, ms, n, g, p, post); t == x || t == SkipSpace(x)
    ensures Read(isArray, t, acc) == Loading(true, Load(isArray, acc, ms), SkipSpace(post))
    decreases ms, 0
  {
    hide ReadElements, ReadMembers, ReadValue, AfterMember, From, After, Legible, PlainKey, Reread, Put, Digits, Spaced,
         SpacedMember, ReadDelimiter, SkipSpace, Ends, Behind, Stop, Blank;
    var m, q, tail := ms[0], p + [n], After(isArray, ms[1..], n + 1, g, p, post);
    MemberReads(isArray, ms, n, g, p, post, t);
    AfterStops(isArray, ms[1..], n + 1, g, p, post);
    EndsBehind(g(q, 3), tail);
    SpacedReads(m.value, g, q, g(q, 3) + tail);
    var next := Put(acc, if isArray then Digits(|acc|) else m.key, Reread(m.value));
    Objects.MembersUnfold(t, acc);
    Objects.ElementsUnfold(t, acc);
    SpacedAfter(isArray, ms[1..], n + 1, g, p, post, m.value, g(q, 3), t, next);
    if ms[1..] != [] {
      SpacedMembersRead(isArray, ms[1..], n + 1, g, p, next, post, SkipSpace(From(isArray, ms[1..], n + 1, g, p, post)));
    } else {
      LoadNone(isArray, next);
    }
  }

  lemma {:induction false} LoadNone(isArray: bool, acc: seq<Member>)
    ensures Load(isArray, acc, []) == acc
  {
  }

  lemma {:induction false} EmptyRead(isArray: bool, post: string)
    ensures Read(isArray, Close(isArray) + post, []) == Loading(true, [], post)
  {
    var t := Close(isArray) + post;
    assert t[1..] == post;
    Objects.MembersUnfold(t, []);
    Objects.ElementsUnfold(t, []);
  }

  lemma {:induction false} SpacedOpened(o: Object, g: Gaps, p: seq<nat>, post: string)
    ensures var t := Spaced(Tree(o), g, p) + post;
            && |t| >= 2 && t[0] == (if o.isArray then '[' else '{')
            && t[1..] == (if o.members == [] then Close(o.isArray) + post else From(o.isArray, o.members, 0, g, p, post))
            && Objects.ReadOpened(t, [], o.isArray) == Read(o.isArray, t[1..], [])
  {
    hide SpacedMembers, From, ReadMembers, ReadElements;
    var open, m := if o.isArray then "[" else "{", SpacedMembers(o.isArray, o.members, 0, g, p);
    if o.members != [] {
      FromIs(o.isArray, o.members, 0, g, p, post);
    }
    assert Spaced(Tree(o), g, p) + post == open + (m + (Close(o.isArray) + post));
    assert o.members == [] ==> m == "" by { NoneSpaced(o.isArray, g, p); }
  }

  lemma {:induction false} NoneSpaced(isArray: bool, g: Gaps, p: seq<nat>)
    ensures SpacedMembers(isArray, [], 0, g, p) == ""
  {
  }

  /** A legible value, spaced out in any way, is read as its dense form is. */
  lemma {:induction false} SpacedReads(v: Value, g: Gaps, p: seq<nat>, post: string)
    requires Legible(v) && AllBlank(g) && Ends(post)
    ensures ReadValue(Spaced(v, g, p) + post) == Got(Reread(v), Behind(v, post))
    decreases v, 1
  {
    hide ReadValue, SpacedMembers, Load, SkipSpace, Ends, ReadMembers, ReadElements, Objects.ReadOpened, From;
    if v.Tree? {
      var o, t := v.tree, Spaced(v, g, p) + post;
      SpacedOpened(o, g, p, post);
      Objects.OpenedIsValue(t);
      if o.members != [] {
        SpacedMembersRead(o.isArray, o.members, 0, g, p, [], post, t[1..]);
      } else {
        LoadNone(o.isArray, []);
        EmptyRead(o.isArray, post);
      }
    } else {
      EndsSeparates(post);
      ScalarReads(v, post);
    }
  }

  /** A whole text, spaced out in any way and with anything behind it, is read as the dense text is. */
  lemma {:induction false} SpacedText(o: Object, g: Gaps, b: string, post: string)
    requires Legible(Tree(o)) && AllBlank(g) && Blank(b)
    ensures ReadFrom(b + (Spaced(Tree(o), g, []) + post), Object(false, []))
            == ReadFrom(ShowObject(o), Object(false, []))
            == Loaded(true, Object(o.isArray, Load(o.isArray, [], o.members)))
  {
    hide Spaced, Load, SkipSpace, ReadMembers, ReadElements, Objects.ReadOpened, From, Legible, AllLegible, ShowObject;
    var t, none := Spaced(Tree(o), g, []) + post, Object(false, []);
    BlanksBeforeText(b, t, none);
    PrintThenParse(o);
    SpacedOpened(o, g, [], post);
    SkipNone(t);
    if o.members != [] {
      assert AllLegible(o.isArray, o.members) by { LegibleMembers(o); }
      SpacedMembersRead(o.isArray, o.members, 0, g, [], [], post, t[1..]);
    } else {
      LoadNone(o.isArray, []);
      EmptyRead(o.isArray, post);
    }
    assert ReadFrom(t, none) == Loaded(true, Object(o.isArray, Load(o.isArray, [], o.members)));
  }

  lemma {:induction false} LegibleMembers(o: Object)
    requires Legible(Tree(o))
    ensures AllLegible(o.isArray, o.members)
  {
  }

  // ------------------------------------------------------------------
  // The grammar in characters

  /** The texts of the simple values ... */
  lemma {:induction false} ShowWords(n: int)
    ensures Show(Null) == "null" && Show(Bool(true)) == "true" && Show(Bool(false)) == "false"
    ensures n >= 0 ==> Show(Int(n)) == Digits(n)
    ensures n > 0 ==> Show(Int(-n)) == "-" + Digits(n)
  {
    hide Digits;
  }

  lemma {:induction false} ShowEmpty()
    ensures ShowObject(Object(false, [])) == "{}" && ShowObject(Object(true, [])) == "[]"
  {
  }

  /** ... and the punctuation of an array ... */
  lemma {:induction false} ShowArrayByChar(k: string, a: Value, j: string, b: Value)
    ensures ShowObject(Object(true, [Member(k, a), Member(j, b)])) == "[" + (Show(a) + ("," + Show(b))) + "]"
  {
    hide Show, ShowMembers;
    TwoMembers(true, Member(k, a), Member(j, b));
    MemberByChar(k, a);
    MemberByChar(j, b);
  }

  /** ... and of an object. */
  lemma {:induction false} ShowObjectByChar(k: string, a: Value, j: string, b: Value)
    ensures ShowObject(Object(false, [Member(k, a), Member(j, b)]))
            == "{" + ("\"" + k + "\":" + Show(a) + ("," + ("\"" + j + "\":" + Show(b)))) + "}"
  {
    hide Show, ShowMembers, ShowMember;
    TwoMembers(false, Member(k, a), Member(j, b));
    MemberByChar(k, a);
    MemberByChar(j, b);
  }

  lemma {:induction false} MemberByChar(k: string, a: Value)
    ensures ShowMember(false, Member(k, a)) == "\"" + k + "\":" + Show(a)
    ensures ShowMember(true, Member(k, a)) == Show(a)
  {
    hide Show;
    assert "" + Show(a) == Show(a);
  }

  lemma {:induction false} TwoMembers(isArray: bool, m: Member, n: Member)
    ensures ShowMembers(isArray, [m, n], true) == ShowMember(isArray, m) + ("," + ShowMember(isArray, n))
  {
    hide ShowMember;
    assert [m, n][1..] == [n] && [n][1..] == [];
    assert ShowMembers(isArray, [n], false) == "," + ShowMember(isArray, n) + ShowMembers(isArray, [], false);
  }

  /** Between the braces of an empty object, and the brackets of an empty array, a blank is an error. */
  lemma {:induction false} EmptyReadsIff(isArray: bool, b: string, post: string)
    requires Blank(b)
    ensures ReadValue((if isArray then "[" else "{") + (b + ((if isArray then "]" else "}") + post)))
            == if b == "" then Got(Tree(Object(isArray, [])), post) else Fail
  {
    hide ReadValue, ReadMembers, ReadElements;
    var t := (if isArray then "[" else "{") + (b + ((if isArray then "]" else "}") + post));
    Objects.OpenedIsValue(t);
    assert t[1..] == b + (Close(isArray) + post);
    if b == "" {
      assert t[1..] == Close(isArray) + post;
      EmptyRead(isArray, post);
    } else {
      Objects.MembersUnfold(t[1..], []);
      Objects.ElementsUnfold(t[1..], []);
      BlanksBeforeValue(b, Close(isArray) + post);
      HeadRefused(Close(isArray) + post);
    }
  }

  /** A value starts with a quote, a minus, a digit, a brace, a bracket or one of the letters t, f, n in either case. */
  lemma {:induction false} HeadRefused(t: string)
    requires t == "" || (t[0] != ' ' && t[0] != '\t' && t[0] != '\r' && t[0] != '\n')
    requires t == "" || (t[0] != '"' && t[0] != '-' && !('0' <= t[0] <= '9') && t[0] != '{' && t[0] != '[')
    requires t == "" || (t[0] != 't' && t[0] != 'T' && t[0] != 'f' && t[0] != 'F' && t[0] != 'n' && t[0] != 'N')
    ensures ReadValue(t) == Fail
  {
    hide SkipSpace;
    OnlyBlanksSkipped(t);
  }

  /** The same letters, each in either case. */
  predicate AnyCase(s: string, w: string) {
    |s| == |w| && forall i :: 0 <= i < |w| ==> s[i] == w[i] || s[i] as int + 32 == w[i] as int
  }

  /** A word is one of the three in any mixture of cases. */
  lemma {:induction false} WordReadsIff(t: string, w: string, v: Value)
    requires w == "true" || w == "false" || w == "null"
    ensures ReadWord(t, w, v) == if |w| <= |t| && AnyCase(t[..|w|], w) then Got(v, t[|w|..]) else Fail
  {
    if |w| <= |t| {
      var s := t[..|w|];
      forall i | 0 <= i < |w|
        ensures Lower(s)[i] == w[i] <==> s[i] == w[i] || s[i] as int + 32 == w[i] as int
      {
        assert 'a' <= w[i] <= 'z';
      }
    }
  }

  /** A run of digits and points: with a point a `double`, else an integer that stops at 2^63 - 1. */
  lemma {:induction false} NumberReads(d: string, post: string)
    requires d != "" && '0' <= d[0] <= '9' && Separate(post)
    requires forall i :: 0 <= i < |d| ==> '0' <= d[i] <= '9' || d[i] == '.'
    ensures '.' in d ==> ReadValue(d + post) == Got(Double(d), post)
    ensures '.' !in d ==>
              ReadValue(d + post)
              == Got(Int(if DecimalValue(d) < 9223372036854775808 then DecimalValue(d) else 9223372036854775807), post)
  {
    hide NumberLength, SkipSpace, DecimalValue;
    var t := d + post;
    RunEnds(d, post);
    OnlyBlanksSkipped(t);
    assert t[..|d|] == d && t[|d|..] == post;
  }

  lemma {:induction false} RunEnds(d: string, post: string)
    requires (forall i :: 0 <= i < |d| ==> IsDigit(d[i]) || d[i] == '.') && Separate(post)
    ensures NumberLength(d + post) == |d|
    decreases |d|
  {
    if d != "" {
      RunEnds(d[1..], post);
      assert (d + post)[1..] == d[1..] + post;
    } else {
      assert d + post == post;
    }
  }

  /** Behind a key nothing but a colon will do. */
  lemma {:induction false} ColonNeeded(k: string, b: string, c: char, post: string, acc: seq<Member>)
    requires PlainKey(k) && Blank(b) && c != ' ' && c != '\t' && c != '\r' && c != '\n' && c != ':'
    ensures !ReadMembers("\"" + k + "\"" + (b + ([c] + post)), acc).ok
  {
    hide ReadMembers, ReadText, ReadValue, ReadDelimiter, PlainKey;
    var u := b + ([c] + post);
    KeyReadsBackIff(k, u);
    TextIsValue("\"" + k + "\"" + u);
    BlanksAroundDelimiter(b, c, post);
    Objects.MembersUnfold("\"" + k + "\"" + u, acc);
  }

  /** A key is a string: anything else that reads as a value is refused. */
  lemma {:induction false} KeyIsString(t: string, acc: seq<Member>)
    requires t != "" && t[0] != '}' && ReadValue(t).Got? && !ReadValue(t).value.Text?
    ensures !ReadMembers(t, acc).ok
  {
    hide ReadMembers, ReadValue;
    Objects.MembersUnfold(t, acc);
  }

  /** Behind a value come the closing character or a comma; behind a comma the closing character is taken too. */
  lemma {:induction false} BehindValue(isArray: bool, t: string, b: string, c: char, post: string, acc: seq<Member>)
    requires Blank(b) && c != ' ' && c != '\t' && c != '\r' && c != '\n' && |b + ([c] + post)| < |t|
    ensures var close := if isArray then ']' else '}';
            var l := AfterMember(t, b + ([c] + post), close, acc, isArray);
            && (c == close ==> l == Loading(true, acc, SkipSpace(post)))
            && (c != close && c != ',' ==> !l.ok)
            && (c == ',' && SkipSpace(post) != "" && SkipSpace(post)[0] == close ==>
                  l == Loading(true, acc, SkipSpace(post)[1..]))
  {
    hide ReadMembers, ReadElements, SkipSpace, ReadDelimiter;
    BlanksAroundDelimiter(b, c, post);
    Objects.MembersUnfold(SkipSpace(post), acc);
    Objects.ElementsUnfold(SkipSpace(post), acc);
  }
}
