/**
 * Printing and parsing again: what comes back for every tree, and exactly when it
 * is the tree that was printed.
 */
module JsonRoundTrip {
  import opened Bytes
  import opened Json
  import opened JsonReader
  import opened JsonWriter
  import JsonText
  import Objects = JsonObjects

  // ------------------------------------------------------------------
  // Strings

  /** The closing quote of the string is not taken for an escaped one. */
  predicate Closes(s: string) {
    s == "" || s[|s| - 1] != '\\'
  }

  lemma {:induction false} CloseChar(pre: string, c: char, rest: string)
    requires pre != ""
    ensures var code := JsonText.CodedChar(c, 0, 7);
            CloseAt(pre + (code + rest), |pre|) == CloseAt(pre + (code + rest), |pre| + |code|)
  {
    var code := JsonText.CodedChar(c, 0, 7);
    var t, n := pre + (code + rest), |pre|;
    assert forall k :: 0 <= k < |code| ==> t[n + k] == code[k];
    assert |code| == 1 ==> code[0] != '"';
    Objects.CloseUnfold(t, n);
    Objects.CloseUnfold(t, n + 1);
  }

  /** The search for the closing quote passes over all of an escaped string. */
  lemma {:induction false} CloseBehind(pre: string, s: string, rest: string)
    requires pre != ""
    ensures var e := JsonText.Escaped(s);
            CloseAt(pre + (e + rest), |pre|) == CloseAt(pre + (e + rest), |pre| + |e|)
    decreases |s|
  {
    hide CloseAt, JsonText.CodedChar;
    if s != "" {
      var code, e := JsonText.CodedChar(s[0], 0, 7), JsonText.Escaped(s[1..]);
      CloseChar(pre, s[0], e + rest);
      CloseBehind(pre + code, s[1..], rest);
      Associate(code, e, rest);
      Associate(pre, code, e + rest);
    }
  }

  lemma {:induction false} EscapedLast(s: string)
    requires s != ""
    ensures var e := JsonText.Escaped(s);
            e != "" && (e[|e| - 1] == '\\' <==> s[|s| - 1] == '\\')
    decreases |s|
  {
    if |s| > 1 {
      EscapedLast(s[1..]);
    } else {
      assert JsonText.Escaped(s) == JsonText.CodedChar(s[0], 0, 7) + JsonText.Escaped("");
    }
  }

  /** The reader stops at the right quote exactly if the string does not end in a backslash. */
  lemma {:induction false} StopsAtQuoteIff(s: string, post: string)
    ensures var e := JsonText.Escaped(s);
            CloseAt("\"" + e + "\"" + post, 1) == 1 + |e| <==> Closes(s)
  {
    hide CloseAt;
    var e := JsonText.Escaped(s);
    var t, q := "\"" + e + "\"" + post, 1 + |e|;
    CloseBehind("\"", s, "\"" + post);
    assert t == "\"" + (e + ("\"" + post));
    Objects.CloseUnfold(t, q);
    if s != "" {
      EscapedLast(s);
      assert t[q - 1] == e[|e| - 1];
    }
    CloseLater(t, q + 1);
  }

  lemma {:induction false} CloseLater(t: string, from: nat)
    requires from > 0
    ensures CloseAt(t, from) == -1 || CloseAt(t, from) >= from
  {
  }

  /** A printed string is read back as itself exactly if it closes and is gentle. */
  lemma {:induction false} TextReadsBackIff(s: string, post: string)
    ensures ReadText("\"" + JsonText.Escaped(s) + "\"" + post) == Got(s, post)
            <==> Closes(s) && JsonText.Gentle(s)
    ensures Closes(s) ==> ReadText("\"" + JsonText.Escaped(s) + "\"" + post)
                          == Got(JsonText.Unescaped(JsonText.Escaped(s)), post)
  {
    hide CloseAt, JsonText.Unescaped, JsonText.Gentle, JsonText.Escaped;
    var e := JsonText.Escaped(s);
    var t := "\"" + e + "\"" + post;
    StopsAtQuoteIff(s, post);
    JsonText.UnescapeUndoesIff(s);
    assert t[1..1 + |e|] == e;
    assert t[1 + |e| + 1..] == post;
  }

  // ------------------------------------------------------------------
  // Keys, which are printed as they are

  /** No code in the string that unescaping would undo. */
  predicate Uncoded(k: string) {
    JsonText.Pairs(k, '\\') == 0 && forall j :: 0 <= j < 7 ==> JsonText.Pairs(k, JsonText.Letter(j)) == 0
  }

  lemma {:induction false} ReplaceShrinks(s: string, l: char, c: char)
    ensures var r := JsonText.ReplaceAll(s, ['\\', l], [c]);
      && |r| <= |s|
      && (JsonText.Pairs(s, l) == 0 ==> r == s)
      && (JsonText.Pairs(s, l) > 0 ==> |r| < |s|)
    decreases |s|
  {
    if |s| >= 2 {
      if s[0] == '\\' && s[1] == l {
        ReplaceShrinks(s[2..], l, c);
        assert s[0..2] == ['\\', l];
      } else {
        ReplaceShrinks(s[1..], l, c);
        assert s[0..2] == [s[0], s[1]];
      }
    }
  }

  /** What is undone first leaves its mark in the length. */
  lemma {:induction false} UndoneShrinks(t: string, lo: nat)
    requires lo <= 7
    ensures |JsonText.UndoneFrom(t, lo)| <= |t|
    ensures JsonText.UndoneFrom(t, lo) == t <==>
            JsonText.Pairs(t, '\\') == 0 && forall j :: lo <= j < 7 ==> JsonText.Pairs(t, JsonText.Letter(j)) == 0
    decreases 7 - lo
  {
    hide JsonText.ReplaceAll, JsonText.Pairs;
    if lo == 7 {
      ReplaceShrinks(t, '\\', '\\');
    } else {
      ReplaceShrinks(t, JsonText.Letter(lo), JsonText.Nth(lo));
      UndoneShrinks(JsonText.ReplaceAll(t, ['\\', JsonText.Letter(lo)], [JsonText.Nth(lo)]), lo + 1);
    }
  }

  predicate PlainKey(k: string) {
    '"' !in k && Closes(k) && Uncoded(k)
  }

  lemma {:induction false} PairThere(k: string, i: nat, l: char)
    requires i + 1 < |k| && k[i] == '\\' && k[i + 1] == l
    ensures JsonText.Pairs(k, l) > 0
    decreases i
  {
    if i > 0 {
      PairThere(k[1..], i - 1, l);
    }
  }

  lemma {:induction false} ClosePasses(t: string, from: nat, k: nat)
    requires 0 < from <= k < |t| && t[k] == '"' && t[k - 1] != '\\'
    ensures 0 <= CloseAt(t, from) <= k
    decreases k - from
  {
    if from < k {
      ClosePasses(t, from + 1, k);
    }
  }

  /** A key comes back exactly if it holds no quote and no code and does not end in a backslash. */
  lemma {:induction false} KeyReadsBackIff(k: string, post: string)
    ensures ReadText("\"" + k + "\"" + post) == Got(k, post) <==> PlainKey(k)
  {
    hide CloseAt, JsonText.UndoneFrom, JsonText.Pairs, JsonText.Letter;
    var t, q := "\"" + k + "\"" + post, 1 + |k|;
    UndoneShrinks(k, 0);
    assert t[1..q] == k && t[q + 1..] == post;
    Objects.CloseUnfold(t, q);
    CloseLater(t, q + 1);
    if '"' !in k {
      Objects.CloseSkips(t, 1, q);
      assert t[q - 1] == if k == "" then '"' else k[|k| - 1];
    } else {
      var i :| 0 <= i < |k| && k[i] == '"';
      QuoteInKey(k, i, post);
      KeyTooShort(k, post);
    }
  }

  /** A quote in the key closes it early, or is a code. */
  lemma {:induction false} QuoteInKey(k: string, i: nat, post: string)
    requires i < |k| && k[i] == '"'
    ensures CloseAt("\"" + k + "\"" + post, 1) != 1 + |k| || !Uncoded(k)
  {
    hide CloseAt, JsonText.Pairs, JsonText.Letter;
    var t := "\"" + k + "\"" + post;
    assert t[1 + i] == '"' && t[i] == if i == 0 then '"' else k[i - 1];
    if i > 0 && k[i - 1] == '\\' {
      PairThere(k, i - 1, '"');
      QuoteIsLetter();
    } else {
      ClosePasses(t, 1, 1 + i);
    }
  }

  lemma {:induction false} QuoteIsLetter()
    ensures JsonText.Letter(1) == '"'
  {
  }

  /** Whatever is read, only a close at the right place leaves `post`. */
  lemma {:induction false} KeyTooShort(k: string, post: string)
    ensures ReadText("\"" + k + "\"" + post) == Got(k, post) ==>
            CloseAt("\"" + k + "\"" + post, 1) == 1 + |k| && JsonText.Unescaped(k) == k
  {
    hide CloseAt, JsonText.Unescaped;
    var t := "\"" + k + "\"" + post;
    var q := CloseAt(t, 1);
    assert t[1..1 + |k|] == k;
    if q >= 0 && q != 1 + |k| {
      assert |t[q + 1..]| != |post|;
    }
  }

  // ------------------------------------------------------------------
  // Numbers and words

  predicate Stop(post: string) {
    post == "" || post[0] == ',' || post[0] == '}' || post[0] == ']'
  }

  /** What follows does not go on with a number. */
  predicate Separate(post: string) {
    post == "" || (!IsDigit(post[0]) && post[0] != '.')
  }

  lemma {:induction false} NumberEnds(d: string, post: string)
    requires (forall i :: 0 <= i < |d| ==> IsDigit(d[i])) && Separate(post)
    ensures NumberLength(d + post) == |d|
    decreases |d|
  {
    if d != "" {
      NumberEnds(d[1..], post);
      assert (d + post)[1..] == d[1..] + post;
    } else {
      assert d + post == post;
    }
  }

  /** An integer comes back exactly if it is not negative and fits 63 bits. */
  lemma {:induction false} IntReadsBackIff(n: int, post: string)
    requires Separate(post)
    ensures ReadValue(ShowInt(n) + post) == Got(Int(n), post) <==> 0 <= n < 0x8000_0000_0000_0000
  {
    hide Digits, DecimalValue, NumberLength;
    var t := ShowInt(n) + post;
    if n < 0 {
      assert t[0] == '-';
      NumberNone(t);
    } else {
      var d := Digits(n);
      NumberEnds(d, post);
      DigitsValue(n);
      assert IsDigit(d[0]);
      assert t[..|d|] == d && t[|d|..] == post;
      assert '.' !in d;
    }
  }

  lemma {:induction false} NumberNone(t: string)
    requires t != "" && t[0] == '-'
    ensures NumberLength(t) == 0
  {
  }

  lemma {:induction false} WordReads(w: string, post: string, v: Value)
    requires w == "true" || w == "false" || w == "null"
    ensures ReadWord(w + post, w, v) == Got(v, post)
  {
    assert (w + post)[..|w|] == w && (w + post)[|w|..] == post;
    assert Lower(w) == w;
  }

  // ------------------------------------------------------------------
  // Trees

  /** A printed form exists, and the reader gets through it. */
  predicate Legible(v: Value) {
    match v
    case Undefined => false
    case Double(_) => false
    case Int(n) => 0 <= n < 0x8000_0000_0000_0000
    case Text(s) => Closes(s)
    case Tree(o) => AllLegible(o.isArray, o.members)
    case _ => true
  }

  predicate AllLegible(isArray: bool, ms: seq<Member>)
    decreases ms
  {
    ms == [] ||
    ((isArray || PlainKey(ms[0].key)) && Legible(ms[0].value) && AllLegible(isArray, ms[1..]))
  }

  /** What comes back for a value. */
  function Reread(v: Value): Value {
    match v
    case Null => Undefined
    case Text(s) => Text(JsonText.Unescaped(JsonText.Escaped(s)))
    case Tree(o) => Tree(Object(o.isArray, Load(o.isArray, [], o.members)))
    case _ => v
  }

  /** The members come back one by one; elements get new keys in the order of the old ones. */
  function Load(isArray: bool, acc: seq<Member>, ms: seq<Member>): seq<Member>
    decreases ms
  {
    if ms == [] then acc
    else
      Load(isArray, Put(acc, if isArray then Digits(|acc|) else ms[0].key, Reread(ms[0].value)), ms[1..])
  }

  lemma {:induction false} ShowHead(v: Value)
    requires Legible(v)
    ensures var s := Show(v);
            s != "" && !IsSpace(s[0]) && s[0] != '}' && s[0] != ']'
  {
    hide Digits;
    if v.Int? {
      assert IsDigit(Digits(v.number)[0]);
    }
  }

  function Read(isArray: bool, t: string, acc: seq<Member>): Loading {
    if isArray then ReadElements(t, acc) else ReadMembers(t, acc)
  }

  function Close(isArray: bool): string {
    if isArray then "]" else "}"
  }

  /** The members from some one on, the closing character and what follows. */
  function Rest(isArray: bool, ms: seq<Member>, first: bool, post: string): string {
    ShowMembers(isArray, ms, first) + Close(isArray) + post
  }

  lemma {:induction false} SkipStop(post: string)
    requires Stop(post)
    ensures SkipSpace(post) == post
  {
  }

  lemma {:induction false} RestStops(isArray: bool, ms: seq<Member>, post: string)
    ensures Stop(Rest(isArray, ms, false, post))
    ensures ms == [] ==> Rest(isArray, ms, false, post) == Close(isArray) + post
    ensures ms != [] ==> Rest(isArray, ms, false, post) == "," + Rest(isArray, ms, true, post)
  {
    hide ShowMember;
    if ms != [] {
      var m, r := ShowMember(isArray, ms[0]), ShowMembers(isArray, ms[1..], false);
      assert ShowMembers(isArray, ms, false) == "," + ShowMembers(isArray, ms, true);
      Associate(",", ShowMembers(isArray, ms, true), Close(isArray));
      Associate(",", ShowMembers(isArray, ms, true) + Close(isArray), post);
    }
  }

  lemma {:induction false} RestHead(isArray: bool, ms: seq<Member>, post: string)
    requires ms != [] && AllLegible(isArray, ms)
    ensures var t := Rest(isArray, ms, true, post);
      && t == ShowMember(isArray, ms[0]) + Rest(isArray, ms[1..], false, post)
      && t != "" && !IsSpace(t[0]) && t[0] != '}' && t[0] != ']'
  {
    hide Show;
    ShowHead(ms[0].value);
    var m, r := ShowMember(isArray, ms[0]), ShowMembers(isArray, ms[1..], false);
    assert ShowMembers(isArray, ms, true) == m + r;
    Associate(m, r, Close(isArray));
    Associate(m, r + Close(isArray), post);
  }

  lemma {:induction false} SkipNone(t: string)
    requires t != "" && !IsSpace(t[0])
    ensures SkipSpace(t) == t
  {
  }

  /** After a value the reader ends or goes on with the next member. */
  lemma {:induction false} AfterReads(isArray: bool, t: string, ms: seq<Member>, acc: seq<Member>, post: string)
    requires AllLegible(isArray, ms) && Stop(post)
    requires |Rest(isArray, ms, false, post)| < |t|
    ensures AfterMember(t, Rest(isArray, ms, false, post), Close(isArray)[0], acc, isArray)
      == if ms == [] then Loading(true, acc, post) else Read(isArray, Rest(isArray, ms, true, post), acc)
  {
    hide ReadElements, ReadMembers, Rest, SkipSpace;
    var u := Rest(isArray, ms, false, post);
    RestStops(isArray, ms, post);
    SkipStop(u);
    if ms == [] {
      assert u[1..] == post;
      SkipStop(post);
    } else {
      assert u[1..] == Rest(isArray, ms, true, post);
      RestHead(isArray, ms, post);
      SkipNone(Rest(isArray, ms, true, post));
    }
  }

  lemma {:induction false} TextIsValue(t: string)
    requires t != "" && t[0] == '"'
    ensures ReadValue(t) == var s := ReadText(t); if s.Fail? then Fail else Got(Text(s.value), s.rest)
  {
    hide ReadText, ReadMembers, ReadElements;
  }

  /** Key and colon. */
  lemma {:induction false} KeyReads(k: string, u: string)
    requires PlainKey(k) && u != "" && !IsSpace(u[0])
    ensures var t := "\"" + k + "\":" + u;
      && ReadValue(t) == Got(Text(k), ":" + u)
      && ReadDelimiter(":" + u) == Got(':', u)
  {
    hide ReadText, PlainKey, ReadValue;
    var t := "\"" + k + "\":" + u;
    KeyReadsBackIff(k, ":" + u);
    assert t == "\"" + k + "\"" + (":" + u);
    TextIsValue(t);
    SkipNone(":" + u);
    SkipNone(u);
    assert (":" + u)[1..] == u;
  }

  /** The members of a printed object come back, and so do the elements of an array. */
  lemma {:induction false} MembersRead(isArray: bool, ms: seq<Member>, acc: seq<Member>, post: string)
    requires AllLegible(isArray, ms) && Stop(post)
    ensures Read(isArray, Rest(isArray, ms, true, post), acc) == Loading(true, Load(isArray, acc, ms), post)
    decreases ms, 0
  {
    hide ReadElements, ReadMembers, ReadValue, AfterMember, Rest, Legible, PlainKey, Reread, Put, Digits, Show,
         ReadDelimiter;
    var t := Rest(isArray, ms, true, post);
    Objects.MembersUnfold(t, acc);
    Objects.ElementsUnfold(t, acc);
    if ms == [] {
      RestEmpty(isArray, post);
    } else {
      var m, tail := ms[0], Rest(isArray, ms[1..], false, post);
      RestHead(isArray, ms, post);
      RestStops(isArray, ms[1..], post);
      ShowHead(m.value);
      var u := Show(m.value) + tail;
      ValueReads(m.value, tail);
      if isArray {
        assert t == u;
      } else {
        assert t == "\"" + m.key + "\":" + u;
        KeyReads(m.key, u);
      }
      var next := Put(acc, if isArray then Digits(|acc|) else m.key, Reread(m.value));
      AfterReads(isArray, t, ms[1..], next, post);
      MembersRead(isArray, ms[1..], next, post);
    }
  }

  lemma {:induction false} RestEmpty(isArray: bool, post: string)
    ensures var t := Rest(isArray, [], true, post);
            t != "" && t[0] == Close(isArray)[0] && t[1..] == post
  {
    assert (Close(isArray) + post)[1..] == post;
    assert Rest(isArray, [], true, post) == Close(isArray) + post;
  }

  /** Every legible value comes back as `Reread` says, and what follows it is left. */
  lemma {:induction false} ValueReads(v: Value, post: string)
    requires Legible(v) && Stop(post)
    ensures ReadValue(Show(v) + post) == Got(Reread(v), post)
    decreases v, 1
  {
    hide ReadValue, ShowMembers, Load;
    if v.Tree? {
      MembersRead(v.tree.isArray, v.tree.members, [], post);
      TreeIsValue(v.tree, post);
    } else {
      ScalarReads(v, post);
    }
  }

  lemma {:induction false} ScalarReads(v: Value, post: string)
    requires Legible(v) && !v.Tree? && Separate(post)
    ensures ReadValue(Show(v) + post) == Got(Reread(v), post)
  {
    hide ReadValue, JsonText.Escaped, JsonText.Unescaped, ReadText, ShowInt, Lower;
    match v
    case Null => WordIsValue("null", post);
    case Bool(b) => WordIsValue(if b then "true" else "false", post);
    case Int(n) => IntReadsBackIff(n, post);
    case Text(s) =>
      TextReadsBackIff(s, post);
      TextIsValue(Show(v) + post);
    case _ =>
  }

  lemma {:induction false} WordIsValue(w: string, post: string)
    requires w == "true" || w == "false" || w == "null"
    ensures ReadValue(w + post)
      == Got(if w == "true" then Bool(true) else if w == "false" then Bool(false) else Undefined, post)
  {
    hide ReadMembers, ReadElements, ReadWord, ReadText, ReadNumber;
    var v := if w == "true" then Bool(true) else if w == "false" then Bool(false) else Undefined;
    WordReads(w, post, v);
    SkipNone(w + post);
  }

  lemma {:induction false} TreeOpened(o: Object, post: string)
    ensures var t := ShowObject(o) + post;
      && |t| >= 2 && t[0] == (if o.isArray then '[' else '{')
      && t[1..] == Rest(o.isArray, o.members, true, post)
  {
    hide ShowMembers;
    var open := if o.isArray then "[" else "{";
    var m, c := ShowMembers(o.isArray, o.members, true), Close(o.isArray);
    assert ShowObject(o) + post == open + (m + c + post);
  }

  lemma {:induction false} TreeIsValue(o: Object, post: string)
    ensures var l := Read(o.isArray, Rest(o.isArray, o.members, true, post), []);
      ReadValue(ShowObject(o) + post)
      == if l.ok then Got(Tree(Object(o.isArray, l.members)), l.rest) else Fail
  {
    hide ReadMembers, ReadElements, ReadValue, Rest, ShowObject, Objects.ReadOpened;
    TreeOpened(o, post);
    Objects.OpenedIsValue(ShowObject(o) + post);
    OpenedIs(o, post);
  }

  lemma {:induction false} OpenedIs(o: Object, post: string)
    ensures Objects.ReadOpened(ShowObject(o) + post, [], o.isArray)
            == Read(o.isArray, Rest(o.isArray, o.members, true, post), [])
  {
    hide ReadMembers, ReadElements, Rest, ShowObject;
    TreeOpened(o, post);
  }

  // ------------------------------------------------------------------
  // When it is the same tree

  /** Arrays have at most ten elements; keys are those of an array, or in the order of a map. */
  ghost predicate Proper(v: Value) {
    v.Tree? ==> ProperKeys(v.tree) && AllProper(v.tree.members)
  }

  ghost predicate ProperKeys(o: Object) {
    if o.isArray then |o.members| <= 10 && ArrayKeys(o.members) else Sorted(o.members)
  }

  ghost predicate AllProper(ms: seq<Member>) {
    ms == [] || (Proper(ms[0].value) && AllProper(ms[1..]))
  }

  /** No null, and no string with a backslash right before one of b, f, n, r, t. */
  predicate Preserved(v: Value) {
    match v
    case Null => false
    case Text(s) => JsonText.Gentle(s)
    case Tree(o) => AllPreserved(o.members)
    case _ => true
  }

  predicate AllPreserved(ms: seq<Member>) {
    ms == [] || (Preserved(ms[0].value) && AllPreserved(ms[1..]))
  }

  function RereadEach(ms: seq<Member>): (r: seq<Member>)
    ensures |r| == |ms| && forall i :: 0 <= i < |r| ==> r[i].key == ms[i].key
  {
    if ms == [] then [] else [Member(ms[0].key, Reread(ms[0].value))] + RereadEach(ms[1..])
  }

  /** The keys stand in order, and those of an array are its positions. */
  ghost predicate InOrder(o: Object) {
    if o.isArray then |o.members| <= 10 && forall i :: 0 <= i < |o.members| ==> o.members[i].key == Digits(i)
    else Sorted(o.members)
  }

  lemma {:induction false} ProperInOrder(o: Object)
    requires ProperKeys(o)
    ensures InOrder(o)
  {
    hide Sorted, ArrayKeys, Digits;
    if o.isArray {
      ArrayOrderIff(o.members);
    }
  }

  /** With proper keys each member comes back in its place. */
  lemma {:induction false} LoadInOrder(isArray: bool, acc: seq<Member>, ms: seq<Member>)
    requires InOrder(Object(isArray, acc + ms))
    ensures Load(isArray, acc, ms) == acc + RereadEach(ms)
    decreases ms
  {
    hide Less, Digits, Put, Reread;
    if ms != [] {
      var all, v := acc + ms, Reread(ms[0].value);
      var m := Member(ms[0].key, v);
      assert all[|acc|] == ms[0];
      assert isArray ==> ms[0].key == Digits(|acc|);
      forall i | 0 <= i < |acc|
        ensures Less(acc[i].key, ms[0].key)
      {
        assert acc[i] == all[i];
        if isArray {
          DigitsOrder(i, |acc|);
        }
      }
      PutLast(acc, ms[0].key, v);
      forall i | 0 <= i < |all|
        ensures (acc + [m] + ms[1..])[i].key == all[i].key
      {
      }
      LoadInOrder(isArray, acc + [m], ms[1..]);
      Associate(acc, [m], RereadEach(ms[1..]));
    }
  }

  lemma {:induction false} RereadIsSameIff(v: Value)
    requires Proper(v)
    ensures Reread(v) == v <==> Preserved(v)
    decreases v, 0
  {
    hide JsonText.Escaped, JsonText.Unescaped, JsonText.Gentle, Load, ProperKeys, InOrder;
    match v
    case Text(s) => JsonText.UnescapeUndoesIff(s);
    case Tree(o) =>
      assert [] + o.members == o.members && [] + RereadEach(o.members) == RereadEach(o.members);
      assert Object(o.isArray, [] + o.members) == o;
      ProperInOrder(o);
      LoadInOrder(o.isArray, [], o.members);
      EachSameIff(o.members);
    case _ =>
  }

  lemma {:induction false} ConsSame(a: Member, s: seq<Member>, b: Member, t: seq<Member>)
    ensures [a] + s == [b] + t <==> a == b && s == t
  {
    if [a] + s == [b] + t {
      assert ([a] + s)[0] == ([b] + t)[0] && ([a] + s)[1..] == s && ([b] + t)[1..] == t;
    }
  }

  lemma {:induction false} EachSameIff(ms: seq<Member>)
    requires AllProper(ms)
    ensures RereadEach(ms) == ms <==> AllPreserved(ms)
    decreases ms, 1
  {
    hide Reread, Preserved, Proper;
    if ms != [] {
      RereadIsSameIff(ms[0].value);
      EachSameIff(ms[1..]);
      assert ms == [ms[0]] + ms[1..];
      ConsSame(Member(ms[0].key, Reread(ms[0].value)), RereadEach(ms[1..]), ms[0], ms[1..]);
    }
  }

  /**
   * A printed tree read into a fresh object comes back, and it is the tree that was
   * printed exactly if it holds no null and no string that looks like a code.
   */
  lemma {:induction false} PrintThenParse(o: Object)
    requires Legible(Tree(o))
    ensures ReadFrom(ShowObject(o), Object(false, []))
            == Loaded(true, Object(o.isArray, Load(o.isArray, [], o.members)))
    ensures Proper(Tree(o)) ==>
            (ReadFrom(ShowObject(o), Object(false, [])) == Loaded(true, o) <==> Preserved(Tree(o)))
  {
    hide ReadMembers, ReadElements, Rest, ShowObject, Load, Preserved, Proper, ProperKeys;
    MembersRead(o.isArray, o.members, [], "");
    TreeOpened(o, "");
    assert ShowObject(o) + "" == ShowObject(o);
    SkipNone(ShowObject(o));
    if Proper(Tree(o)) {
      RereadIsSameIff(Tree(o));
      RereadTree(o);
    }
  }

  lemma {:induction false} RereadTree(o: Object)
    ensures Reread(Tree(o)) == Tree(Object(o.isArray, Load(o.isArray, [], o.members)))
  {
    hide Load;
  }

  // ------------------------------------------------------------------
  // Arrays of any size

  lemma {:induction false} PutMissing(ms: seq<Member>, k: string, v: Value)
    requires Get(ms, k).Missing?
    ensures |Put(ms, k, v)| == |ms| + 1
    decreases |ms|
  {
    hide Less;
    if ms != [] {
      PutMissing(ms[1..], k, v);
    }
  }

  /** The next number is free. */
  ghost predicate Numbered(ms: seq<Member>) {
    Sorted(ms) && forall j: nat :: j >= |ms| ==> Get(ms, Digits(j)).Missing?
  }

  lemma {:induction false} PushNumbered(ms: seq<Member>, v: Value)
    requires Numbered(ms)
    ensures var r, n := Put(ms, Digits(|ms|), v), |ms|;
      && |r| == n + 1 && Numbered(r) && Get(r, Digits(n)) == Found(v)
      && forall j: nat :: j != n ==> Get(r, Digits(j)) == Get(ms, Digits(j))
  {
    hide Digits, Sorted, Put, Get;
    PutMissing(ms, Digits(|ms|), v);
    PutKeepsSorted(ms, Digits(|ms|), v);
    forall j: nat
      ensures Get(Put(ms, Digits(|ms|), v), Digits(j)) == if j == |ms| then Found(v) else Get(ms, Digits(j))
    {
      PutGets(ms, Digits(|ms|), v, Digits(j));
      if j != |ms| {
        DigitsDiffer(j, |ms|);
      }
    }
  }

  /** Element `i` of the array that comes back is the `i`-th in the order of the old keys. */
  lemma {:induction false} ElementsComeBack(acc: seq<Member>, ms: seq<Member>)
    requires Numbered(acc)
    ensures var r := Load(true, acc, ms);
      && |r| == |acc| + |ms| && Numbered(r)
      && (forall j: nat :: j < |acc| ==> Get(r, Digits(j)) == Get(acc, Digits(j)))
      && (forall i: nat :: i < |ms| ==> Get(r, Digits(|acc| + i)) == Found(Reread(ms[i].value)))
    decreases |ms|
  {
    hide Digits, Numbered, Put, Get, Reread;
    if ms != [] {
      var n, v := |acc|, Reread(ms[0].value);
      var next := Put(acc, Digits(n), v);
      PushNumbered(acc, v);
      ElementsComeBack(next, ms[1..]);
      var r := Load(true, acc, ms);
      forall i: nat | i < |ms|
        ensures Get(r, Digits(n + i)) == Found(Reread(ms[i].value))
      {
        if i > 0 {
          assert ms[i] == ms[1..][i - 1];
          assert Get(r, Digits(|next| + (i - 1))) == Found(Reread(ms[1..][i - 1].value));
        }
      }
    }
  }

  lemma {:induction false} NoneNumbered()
    ensures Numbered([])
  {
  }

  /** Whatever array of eleven elements or more: what was stored under 10 comes back under 2. */
  lemma {:induction false} TenBecomesTwo(ms: seq<Member>)
    requires |ms| >= 11 && ArrayKeys(ms) && Legible(Tree(Object(true, ms)))
    ensures var back := ReadFrom(ShowObject(Object(true, ms)), Object(false, []));
      && back.ok && back.state.isArray && |back.state.members| == |ms|
      && ms[2].key == Digits(10)
      && Get(back.state.members, Digits(2)) == Found(Reread(ms[2].value))
  {
    hide ArrayKeys, Legible, Load, Digits, Get, ReadFrom, ShowObject;
    LargeArrayKey(ms);
    PrintThenParse(Object(true, ms));
    var none: seq<Member> := [];
    assert Numbered(none) by { NoneNumbered(); }
    ElementsComeBack(none, ms);
    assert Get(Load(true, none, ms), Digits(|none| + 2)) == Found(Reread(ms[2].value));
  }
}
