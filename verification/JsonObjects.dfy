/**
 * `JsonObject` of src/common/common_json.cpp: the parser's methods, which advance
 * a position and fill the members, and the printer, which escapes stored strings.
 */
module JsonObjects {
  import opened Bytes
  import opened Json
  import opened JsonReader
  import opened JsonWriter
  import JsonText

  // ------------------------------------------------------------------
  // Pieces

  /** `read_whitespace`. */
  method ReadWhitespace(str: string, startPos: nat) returns (pos: nat)
    requires startPos <= |str|
    ensures startPos <= pos <= |str| && str[pos..] == SkipSpace(str[startPos..])
  {
    pos := startPos;
    while pos < |str|
      invariant startPos <= pos <= |str| && SkipSpace(str[pos..]) == SkipSpace(str[startPos..])
    {
      assert str[pos..][1..] == str[pos + 1..];
      if str[pos] != ' ' && str[pos] != '\t' && str[pos] != '\r' && str[pos] != '\n' {
        break;
      }
      pos := pos + 1;
    }
  }

  /** `read_delimiter`. */
  method ReadDelimiterAt(str: string, startPos: nat) returns (ok: bool, c: char, pos: nat)
    requires startPos <= |str|
    ensures var r := ReadDelimiter(str[startPos..]);
      && ok == r.Got?
      && (ok ==> startPos < pos <= |str| && c == r.value && str[pos..] == r.rest)
  {
    hide SkipSpace;
    c := ' ';
    pos := ReadWhitespace(str, startPos);
    if |str| - pos < 1 {
      return false, c, pos;
    }
    c := str[pos];
    assert str[pos..][1..] == str[pos + 1..];
    pos := ReadWhitespace(str, pos + 1);
    ok := true;
  }

  lemma {:induction false} QuoteAt(str: string)
    ensures forall k: nat :: JsonText.At(str, k, "\"") <==> k < |str| && str[k] == '"'
  {
    forall k: nat
      ensures JsonText.At(str, k, "\"") <==> k < |str| && str[k] == '"'
    {
      if k < |str| {
        assert str[k..k + 1] == [str[k]];
      }
    }
  }

  /** Where there is no quote there is nothing to look at. */
  lemma {:induction false} CloseSkips(t: string, from: nat, end: nat)
    requires 0 < from <= end <= |t| && forall k :: from <= k < end ==> t[k] != '"'
    ensures CloseAt(t, from) == CloseAt(t, end)
    decreases end - from
  {
    if from < end {
      CloseSkips(t, from + 1, end);
    }
  }

  /** The search of `read_string` for the closing quote. */
  method FindClose(str: string, startPos: nat) returns (pos: int)
    requires startPos < |str|
    ensures var q := CloseAt(str[startPos..], 1);
            pos == if q < 0 then -1 else startPos + q
  {
    hide JsonText.Find, JsonText.At, CloseAt;
    ghost var t := str[startPos..];
    pos := startPos + 1;
    while true
      invariant startPos < pos <= |str| && CloseAt(t, 1) == CloseAt(t, pos - startPos)
      decreases |str| - pos
    {
      QuoteAt(str);
      ghost var was := pos;
      pos := JsonText.Find(str, "\"", pos);
      if pos == -1 {
        CloseSkips(t, was - startPos, |t|);
        CloseUnfold(t, |t|);
        return;
      }
      CloseSkips(t, was - startPos, pos - startPos);
      CloseUnfold(t, pos - startPos);
      if str[pos - 1] == '\\' {
        pos := pos + 1;
      } else {
        return;
      }
    }
  }

  /** `read_string`. */
  method ReadString(str: string, startPos: nat) returns (ok: bool, value: string, next: nat)
    requires startPos <= |str|
    ensures var r := ReadText(str[startPos..]);
      && ok == r.Got?
      && (ok ==> startPos < next <= |str| && value == r.value && str[next..] == r.rest)
  {
    hide JsonText.Unescaped, CloseAt;
    ok, value, next := false, "", startPos;
    if |str| - startPos < 2 {
      return;
    }
    if str[startPos] != '"' {
      return;
    }
    next := startPos + 1;
    var pos := FindClose(str, startPos);
    if pos == -1 {
      return;
    }
    ghost var t := str[startPos..];
    assert t[1..pos - startPos] == str[next..pos];
    assert t[pos - startPos + 1..] == str[pos + 1..];
    value := JsonText.UnescapeString(str[next..pos]);
    next := pos + 1;
    ok := true;
  }

  lemma {:induction false} CloseUnfold(t: string, from: nat)
    requires from > 0
    ensures CloseAt(t, from) == if from >= |t| then -1
                                else if t[from] == '"' && t[from - 1] != '\\' then from
                                else CloseAt(t, from + 1)
  {
  }

  lemma {:induction false} NumberStep(t: string)
    ensures t == "" ==> NumberLength(t) == 0
    ensures t != "" ==> (IsDigit(t[0]) <==> '0' <= t[0] <= '9')
    ensures t != "" ==> NumberLength(t) == if IsDigit(t[0]) || t[0] == '.' then 1 + NumberLength(t[1..]) else 0
  {
  }

  /** `read_number`. */
  method ReadNumberAt(str: string, startPos: nat) returns (ok: bool, result: Value, pos: nat)
    requires startPos <= |str|
    ensures var r := ReadNumber(str[startPos..]);
      && ok == r.Got?
      && (ok ==> startPos < pos <= |str| && result == r.value && str[pos..] == r.rest)
  {
    hide NumberLength, ToLong, IsDigit;
    var floatStr, isFloat := "", false;
    pos, result := startPos, Undefined;
    while pos < |str|
      invariant startPos <= pos <= |str| && floatStr == str[startPos..pos]
      invariant forall i :: 0 <= i < |floatStr| ==> IsDigit(floatStr[i]) || floatStr[i] == '.'
      invariant isFloat <==> '.' in floatStr
      invariant NumberLength(str[startPos..]) == pos - startPos + NumberLength(str[pos..])
    {
      NumberStep(str[pos..]);
      assert str[pos..][1..] == str[pos + 1..];
      if str[pos] < '0' || str[pos] > '9' {
        if str[pos] == '.' {
          isFloat := true;
        } else {
          break;
        }
      }
      floatStr := floatStr + [str[pos]];
      pos := pos + 1;
    }
    NumberStep(str[pos..]);
    assert str[startPos..][..pos - startPos] == floatStr;
    assert str[startPos..][pos - startPos..] == str[pos..];
    if floatStr == "" {
      return false, result, pos;
    }
    ok := true;
    if isFloat {
      result := Double(floatStr);
    } else {
      result := Int(ToLong(floatStr));
    }
  }

  /** `read_bool` and `read_null`: the wanted word in lower case. */
  method ReadWordAt(str: string, startPos: nat, wanted: string, v: Value)
    returns (ok: bool, result: Value, pos: nat)
    requires startPos <= |str| && wanted != ""
    ensures var r := ReadWord(str[startPos..], wanted, v);
      && ok == r.Got?
      && (ok ==> startPos < pos <= |str| && result == r.value && str[pos..] == r.rest)
  {
    result, pos := Undefined, startPos;
    if |str| - startPos < |wanted| {
      return false, result, pos;
    }
    var temp := Lower(str[startPos..startPos + |wanted|]);
    assert str[startPos..][..|wanted|] == str[startPos..startPos + |wanted|];
    if temp != wanted {
      return false, result, pos;
    }
    pos := startPos + |wanted|;
    assert str[startPos..][|wanted|..] == str[pos..];
    return true, v, pos;
  }

  // ------------------------------------------------------------------
  // Objects

  /** An opening character and what follows it. */
  function ReadOpened(t: string, ms: seq<Member>, isArray: bool): Loading {
    if |t| < 2 || t[0] != (if isArray then '[' else '{') then Loading(false, ms, t)
    else if isArray then ReadElements(t[1..], ms)
    else ReadMembers(t[1..], ms)
  }

  lemma {:induction false} OpenedIsValue(u: string)
    requires u != "" && (u[0] == '{' || u[0] == '[')
    ensures var isArray, l := u[0] == '[', ReadOpened(u, [], u[0] == '[');
            ReadValue(u) == if l.ok then Got(Tree(Object(isArray, l.members)), l.rest) else Fail
  {
    hide ReadElements, ReadMembers;
  }

  class JsonObject {
    var members: seq<Member>
    var isArray: bool

    constructor ()
      ensures members == [] && !isArray
    {
      members, isArray := [], false;
    }

    /** The copy constructor. */
    constructor Copy(o: Object)
      ensures members == o.members && isArray == o.isArray
    {
      members, isArray := o.members, o.isArray;
    }

    /** `push`. */
    method Push(value: Value)
      modifies this
      ensures isArray == old(isArray)
      ensures members == if isArray then Put(old(members), Digits(|old(members)|), value) else old(members)
    {
      if !isArray {
        return;
      }
      members := Put(members, Digits(|members|), value);
    }

    /** `read_json_key_value`, which does not use the object it is called on. */
    static method ReadJsonKeyValue(str: string, startPos: nat) returns (ok: bool, result: Value, pos: nat)
      requires startPos <= |str|
      ensures var r := ReadValue(str[startPos..]);
        && ok == r.Got?
        && (ok ==> startPos < pos <= |str| && result == r.value && str[pos..] == r.rest)
      decreases |str| - startPos, 1
    {
      hide ReadMembers, ReadElements, SkipSpace, ReadOpened;
      result, pos := Undefined, startPos;
      if startPos >= |str| {
        return false, result, pos;
      }
      pos := ReadWhitespace(str, startPos);
      ghost var u := str[pos..];
      ValueSkips(str[startPos..]);
      if pos == |str| {
        return false, result, pos;
      }
      var c := str[pos];
      if c == '"' {
        var s;
        ok, s, pos := ReadString(str, pos);
        result := Text(s);
      } else if c == '-' || IsDigit(c) {
        ok, result, pos := ReadNumberAt(str, pos);
      } else if c == '{' || c == '[' {
        OpenedIsValue(u);
        var obj := new JsonObject();
        if c == '{' {
          ok, pos := obj.ReadObject(str, pos);
        } else {
          ok, pos := obj.ReadArray(str, pos);
        }
        result := Tree(Object(obj.isArray, obj.members));
      } else if c == 't' || c == 'T' {
        ok, result, pos := ReadWordAt(str, pos, "true", Bool(true));
      } else if c == 'f' || c == 'F' {
        ok, result, pos := ReadWordAt(str, pos, "false", Bool(false));
      } else if c == 'n' || c == 'N' {
        ok, result, pos := ReadWordAt(str, pos, "null", Undefined);
      } else {
        ok := false;
      }
    }

    /** `read_object`. */
    method ReadObject(str: string, startPos: nat) returns (ok: bool, pos: nat)
      requires startPos <= |str|
      modifies this
      ensures isArray == old(isArray)
      ensures var l := ReadOpened(str[startPos..], old(members), false);
        && ok == l.ok && members == l.members
        && (ok ==> startPos < pos <= |str| && str[pos..] == l.rest)
      decreases |str| - startPos, 0
    {
      hide ReadMembers;
      pos := startPos;
      if |str| - startPos < 2 {
        return false, pos;
      }
      if str[startPos] != '{' {
        return false, pos;
      }
      pos := pos + 1;
      assert str[startPos..][1..] == str[pos..];
      ghost var l := ReadMembers(str[pos..], members);
      while pos < |str|
        invariant startPos < pos <= |str| && isArray == old(isArray)
        invariant l == ReadMembers(str[pos..], members)
        decreases |str| - pos
      {
        ghost var t := str[pos..];
        MembersUnfold(t, members);
        if str[pos] == '}' {
          assert t[1..] == str[pos + 1..];
          return true, pos + 1;
        }
        var read;
        read, pos := ReadMember(str, pos);
        if !read {
          return false, pos;
        }
        var again;
        ok, again, pos := AfterValue(str, pos, '}', members, false, t);
        if !again {
          return;
        }
      }
      MembersUnfold(str[pos..], members);
      ok := false;
    }

    /** Key, colon, value and the store of one turn of the loop. */
    method ReadMember(str: string, startPos: nat) returns (ok: bool, pos: nat)
      requires startPos < |str| && str[startPos] != '}'
      modifies this
      ensures isArray == old(isArray)
      ensures var t := str[startPos..];
        && (!ok ==> ReadMembers(t, old(members)) == Loading(false, members, t))
        && (ok ==> startPos < pos <= |str|
                   && ReadMembers(t, old(members)) == AfterMember(t, str[pos..], '}', members, false))
      decreases |str| - startPos, 2
    {
      hide ReadMembers, ReadValue, AfterMember;
      MembersUnfold(str[startPos..], members);
      var key, value, c;
      ok, key, pos := ReadJsonKeyValue(str, startPos);
      if !ok {
        return;
      }
      if !key.Text? {
        return false, pos;
      }
      ok, c, pos := ReadDelimiterAt(str, pos);
      if !ok {
        return;
      }
      if c != ':' {
        return false, pos;
      }
      ok, value, pos := ReadJsonKeyValue(str, pos);
      if !ok {
        return;
      }
      members := Put(members, key.text, value);
    }

    /** `read_array`, in both its forms. */
    method ReadArray(str: string, startPos: nat) returns (ok: bool, pos: nat)
      requires startPos <= |str|
      modifies this
      ensures isArray
      ensures var l := ReadOpened(str[startPos..], old(members), true);
        && ok == l.ok && members == l.members
        && (ok ==> startPos < pos <= |str| && str[pos..] == l.rest)
      decreases |str| - startPos, 0
    {
      hide ReadElements, ReadValue, AfterMember;
      isArray := true;
      pos := startPos;
      if |str| - startPos < 2 {
        return false, pos;
      }
      if str[startPos] != '[' {
        return false, pos;
      }
      pos := pos + 1;
      assert str[startPos..][1..] == str[pos..];
      ghost var l := ReadElements(str[pos..], members);
      while pos < |str|
        invariant startPos < pos <= |str| && isArray
        invariant l == ReadElements(str[pos..], members)
        decreases |str| - pos
      {
        ghost var t := str[pos..];
        ElementsUnfold(t, members);
        if str[pos] == ']' {
          assert t[1..] == str[pos + 1..];
          return true, pos + 1;
        }
        var read, value;
        read, value, pos := ReadJsonKeyValue(str, pos);
        if !read {
          return false, pos;
        }
        Push(value);
        var again;
        ok, again, pos := AfterValue(str, pos, ']', members, true, t);
        if !again {
          return;
        }
      }
      ElementsUnfold(str[pos..], members);
      ok := false;
    }

    /** `read_from_string`: earlier members stay. */
    method ReadFromString(str: string) returns (ok: bool)
      modifies this
      ensures ReadFrom(str, Object(old(isArray), old(members))) == Loaded(ok, Object(isArray, members))
    {
      hide ReadMembers, ReadElements, SkipSpace;
      if |str| == 0 {
        EmptySkips();
        return false;
      }
      assert str[0..] == str;
      var startPos := ReadWhitespace(str, 0);
      if startPos == |str| {
        return false;
      }
      if str[startPos] == '{' {
        ok, startPos := ReadObject(str, startPos);
      } else if str[startPos] == '[' {
        ok, startPos := ReadArray(str, startPos);
      } else {
        ok := false;
      }
    }

    /** `write_to_string`: the text, and the strings escaped where they are stored. */
    method WriteToString() returns (ok: bool, str: string)
      requires NoDoubles(members)
      modifies this
      ensures ok == AllWritable(old(members))
      ensures ok ==> str == ShowObject(Object(old(isArray), old(members)))
      ensures isArray == old(isArray) && members == TouchedMembers(old(members))
      decreases members
    {
      hide ShowMembers, ShowMember, AllWritable, TouchedMembers, NoDoubles, Writable, Touched;
      ghost var ms := members;
      var ss := if isArray then "[" else "{";
      ghost var shown := ss + ShowMembers(isArray, ms, true);
      ghost var done: seq<Member> := [];
      var i := 0;
      assert ms[0..] == ms;
      while i < |members|
        invariant |done| == i <= |ms| && members == done + ms[i..]
        invariant isArray == old(isArray) && NoDoubles(ms[i..])
        invariant shown == ss + ShowMembers(isArray, ms[i..], i == 0)
        invariant AllWritable(ms) == AllWritable(ms[i..])
        invariant TouchedMembers(ms) == done + TouchedMembers(ms[i..])
        decreases |ms| - i
      {
        OneOn(isArray, ms, done, i, ss);
        if i != 0 {
          ss := ss + ",";
        }
        var text;
        ok, text := WriteMember(i);
        done := done + [Member(ms[i].key, Touched(ms[i].value))];
        i := i + 1;
        if !ok {
          return false, "";
        }
        ss := ss + text;
      }
      Nothing(isArray, ms[i..], i == 0);
      str := ss + if isArray then "]" else "}";
      ok := true;
    }

    /** One member: its text, and its value rewritten in place. */
    method WriteMember(i: nat) returns (ok: bool, text: string)
      requires i < |members| && NoDouble(members[i].value)
      modifies this
      ensures isArray == old(isArray)
      ensures var m := old(members)[i];
        && members == old(members)[i := Member(m.key, Touched(m.value))]
        && ok == Writable(m.value)
        && (ok ==> text == ShowMember(isArray, m))
      decreases members[i]
    {
      hide Touched, Writable;
      var shown, after;
      text := "";
      if !isArray {
        text := text + "\"" + members[i].key + "\":";
      }
      ok, shown, after := WriteValue(members[i].value);
      members := members[i := Member(members[i].key, after)];
      text := text + shown;
    }

    /** One stored value: its text, and what is stored afterwards. */
    static method WriteValue(v: Value) returns (ok: bool, text: string, after: Value)
      requires NoDouble(v)
      ensures ok == Writable(v) && after == Touched(v)
      ensures ok ==> text == Show(v)
      decreases v
    {
      hide JsonText.Escaped;
      ok, text, after := true, "", v;
      if v.Tree? {
        var inner := new JsonObject.Copy(v.tree);
        ok, text := inner.WriteToString();
        after := Tree(Object(inner.isArray, inner.members));
      } else if v.Text? {
        var escaped := JsonText.EscapeString(v.text);
        text := "\"" + escaped + "\"";
        after := Text(escaped);
      } else if v.Undefined? {
        ok := false;
      } else if v.Null? {
        text := "null";
      } else if v.Bool? {
        text := if v.flag then "true" else "false";
      } else {
        text := ShowInt(v.number);
      }
    }
  }

  lemma {:induction false} ValueSkips(t: string)
    ensures ReadValue(SkipSpace(t)) == ReadValue(t)
  {
    assert SkipSpace(SkipSpace(t)) == SkipSpace(t);
  }

  lemma {:induction false} EmptySkips()
    ensures SkipSpace("") == ""
  {
  }

  lemma {:induction false} MembersUnfold(t: string, ms: seq<Member>)
    ensures ReadMembers(t, ms) ==
      if t == "" then Loading(false, ms, t)
      else if t[0] == '}' then Loading(true, ms, t[1..])
      else
        var k := ReadValue(t);
        if k.Fail? || !k.value.Text? then Loading(false, ms, t)
        else
          var c := ReadDelimiter(k.rest);
          if c.Fail? || c.value != ':' then Loading(false, ms, t)
          else
            var v := ReadValue(c.rest);
            if v.Fail? then Loading(false, ms, t)
            else AfterMember(t, v.rest, '}', Put(ms, k.value.text, v.value), false)
  {
    hide ReadValue, AfterMember, ReadDelimiter;
  }

  lemma {:induction false} ElementsUnfold(t: string, ms: seq<Member>)
    ensures ReadElements(t, ms) ==
      if t == "" then Loading(false, ms, t)
      else if t[0] == ']' then Loading(true, ms, t[1..])
      else
        var v := ReadValue(t);
        if v.Fail? then Loading(false, ms, t)
        else AfterMember(t, v.rest, ']', Put(ms, Digits(|ms|), v.value), true)
  {
    hide ReadValue, AfterMember;
  }

  /** The end of one turn: stop well, stop badly, or go on behind a comma. */
  method AfterValue(str: string, startPos: nat, close: char, ghost ms: seq<Member>, ghost isArray: bool,
                    ghost t: string)
    returns (ok: bool, again: bool, pos: nat)
    requires startPos <= |str| && |str| - startPos < |t| && close != ','
    ensures var l := AfterMember(t, str[startPos..], close, ms, isArray);
      && (again ==> startPos < pos <= |str|
                    && l == if isArray then ReadElements(str[pos..], ms) else ReadMembers(str[pos..], ms))
      && (!again ==> ok == l.ok && l.members == ms
                     && (ok ==> startPos < pos <= |str| && l.rest == str[pos..]))
  {
    hide ReadMembers, ReadElements, ReadDelimiter;
    var c;
    ok, c, pos := ReadDelimiterAt(str, startPos);
    again := false;
    if !ok {
      return;
    }
    if c == close {
      return;
    } else if c == ',' {
      again := true;
    } else {
      ok := false;
    }
  }

  /** The functions of the printer, one member on. */
  lemma {:induction false} Step(isArray: bool, ms: seq<Member>, i: nat)
    requires i < |ms|
    ensures var m, rest := ms[i], ms[i + 1..];
      && NoDoubles(ms[i..]) == (NoDouble(m.value) && NoDoubles(rest))
      && AllWritable(ms[i..]) == (Writable(m.value) && AllWritable(rest))
      && TouchedMembers(ms[i..])
         == [Member(m.key, Touched(m.value))] + (if Writable(m.value) then TouchedMembers(rest) else rest)
      && ShowMembers(isArray, ms[i..], i == 0)
         == (if i == 0 then "" else ",") + ShowMember(isArray, m) + ShowMembers(isArray, rest, false)
  {
    hide NoDouble, Writable, Touched, ShowMember;
    assert ms[i..][1..] == ms[i + 1..];
  }

  lemma {:induction false} Nothing(isArray: bool, ms: seq<Member>, first: bool)
    requires ms == []
    ensures AllWritable(ms) && TouchedMembers(ms) == [] && ShowMembers(isArray, ms, first) == ""
  {
  }

  /** The same behind the members that are done. */
  lemma {:induction false} OneOn(isArray: bool, ms: seq<Member>, done: seq<Member>, i: nat, ss: string)
    requires |done| == i < |ms|
    ensures var m, rest := ms[i], ms[i + 1..];
      var touched := Member(m.key, Touched(m.value));
      && (done + ms[i..])[i] == m && (done + ms[i..])[i := touched] == done + [touched] + rest
      && NoDoubles(ms[i..]) == (NoDouble(m.value) && NoDoubles(rest))
      && AllWritable(ms[i..]) == (Writable(m.value) && AllWritable(rest))
      && done + TouchedMembers(ms[i..])
         == done + [touched] + (if Writable(m.value) then TouchedMembers(rest) else rest)
      && ss + ShowMembers(isArray, ms[i..], i == 0)
         == (if i == 0 then ss else ss + ",") + ShowMember(isArray, m) + ShowMembers(isArray, rest, false)
  {
    hide NoDouble, NoDoubles, Writable, AllWritable, Touched, TouchedMembers, ShowMember, ShowMembers;
    var m, rest := ms[i], ms[i + 1..];
    Step(isArray, ms, i);
    Associate(done, [Member(m.key, Touched(m.value))], if Writable(m.value) then TouchedMembers(rest) else rest);
    assert i == 0 ==> "" + ShowMember(isArray, m) == ShowMember(isArray, m);
  }
}
