/**
 * The JSON printer of src/common/common_json.cpp, and what it leaves behind: it
 * escapes the strings it prints where they are stored.
 */
module JsonWriter {
  import opened Bytes
  import opened Json
  import JsonText

  /** The printed form; a value that is undefined, or holds one, has none. */
  function Show(v: Value): string
    decreases v
  {
    match v
    case Undefined => ""
    case Null => "null"
    case Bool(b) => if b then "true" else "false"
    case Int(n) => ShowInt(n)
    case Double(_) => ""
    case Text(s) => "\"" + JsonText.Escaped(s) + "\""
    case Tree(o) => ShowObject(o)
  }

  function ShowObject(o: Object): string
    decreases o
  {
    (if o.isArray then "[" else "{") + ShowMembers(o.isArray, o.members, true) +
    (if o.isArray then "]" else "}")
  }

  function ShowMember(isArray: bool, m: Member): string
    decreases m
  {
    (if isArray then "" else "\"" + m.key + "\":") + Show(m.value)
  }

  /** Members from the first or a later one on, a comma before each but the first. */
  function ShowMembers(isArray: bool, ms: seq<Member>, first: bool): string
    decreases ms
  {
    if ms == [] then ""
    else (if first then "" else ",") + ShowMember(isArray, ms[0]) + ShowMembers(isArray, ms[1..], false)
  }

  /** Nothing undefined anywhere. */
  predicate Writable(v: Value) {
    match v
    case Undefined => false
    case Tree(o) => AllWritable(o.members)
    case _ => true
  }

  predicate AllWritable(ms: seq<Member>) {
    ms == [] || (Writable(ms[0].value) && AllWritable(ms[1..]))
  }

  /** No `double` anywhere: how those are printed is not part of this model. */
  predicate NoDouble(v: Value) {
    match v
    case Double(_) => false
    case Tree(o) => NoDoubles(o.members)
    case _ => true
  }

  predicate NoDoubles(ms: seq<Member>) {
    ms == [] || (NoDouble(ms[0].value) && NoDoubles(ms[1..]))
  }

  /** A stored value once the printer has been over it. */
  function Touched(v: Value): Value {
    match v
    case Text(s) => Text(JsonText.Escaped(s))
    case Tree(o) => Tree(Object(o.isArray, TouchedMembers(o.members)))
    case _ => v
  }

  /** The printer goes no further than the first member it cannot print. */
  function TouchedMembers(ms: seq<Member>): (r: seq<Member>)
    ensures |r| == |ms|
  {
    if ms == [] then []
    else
      [Member(ms[0].key, Touched(ms[0].value))] +
      (if Writable(ms[0].value) then TouchedMembers(ms[1..]) else ms[1..])
  }

  /** Up to the first member that cannot be printed strings are left escaped; behind it nothing changes. */
  lemma {:induction false} TouchedUntil(ms: seq<Member>, i: nat)
    requires i < |ms| && !Writable(ms[i].value) && forall j :: 0 <= j < i ==> Writable(ms[j].value)
    ensures forall j :: 0 <= j < |ms| ==>
              TouchedMembers(ms)[j] == if j <= i then Member(ms[j].key, Touched(ms[j].value)) else ms[j]
    decreases i
  {
    hide Writable, Touched;
    if i > 0 {
      var rest := ms[1..];
      TouchedUntil(rest, i - 1);
      forall j | 1 <= j < |ms|
        ensures TouchedMembers(ms)[j] == if j <= i then Member(ms[j].key, Touched(ms[j].value)) else ms[j]
      {
        assert rest[j - 1] == ms[j] && TouchedMembers(ms)[j] == TouchedMembers(rest)[j - 1];
      }
    }
  }

  // ------------------------------------------------------------------
  // Printing twice

  lemma {:induction false} EscapedGrows(s: string)
    ensures |JsonText.Escaped(s)| >= |s|
    ensures |JsonText.Escaped(s)| == |s| ==> JsonText.Escaped(s) == s
    decreases |s|
  {
    if s != "" {
      EscapedGrows(s[1..]);
      assert JsonText.Escaped(s) == JsonText.CodedChar(s[0], 0, 7) + JsonText.Escaped(s[1..]);
      assert s == [s[0]] + s[1..];
    }
  }

  /** A second printing is as long as the first only if the first changed nothing. */
  lemma {:induction false} ShowGrows(v: Value)
    requires Writable(v)
    ensures |Show(Touched(v))| >= |Show(v)|
    ensures |Show(Touched(v))| == |Show(v)| ==> Touched(v) == v
    decreases v, 0
  {
    hide JsonText.Escaped;
    match v
    case Text(s) => EscapedGrows(JsonText.Escaped(s)); EscapedGrows(s); EscapedAgain(s);
    case Tree(o) => MembersGrow(o.isArray, o.members, true);
    case _ =>
  }

  lemma {:induction false} MembersGrow(isArray: bool, ms: seq<Member>, first: bool)
    requires AllWritable(ms)
    ensures |ShowMembers(isArray, TouchedMembers(ms), first)| >= |ShowMembers(isArray, ms, first)|
    ensures |ShowMembers(isArray, TouchedMembers(ms), first)| == |ShowMembers(isArray, ms, first)|
            ==> TouchedMembers(ms) == ms
    decreases ms, 1
  {
    hide Show, Touched, Writable;
    if ms != [] {
      ShowGrows(ms[0].value);
      MembersGrow(isArray, ms[1..], false);
      var r := TouchedMembers(ms);
      assert r[1..] == TouchedMembers(ms[1..]);
      assert ms == [ms[0]] + ms[1..];
    }
  }

  /** A string that escaping changes is changed again by escaping it twice. */
  lemma {:induction false} EscapedAgain(s: string)
    ensures |JsonText.Escaped(JsonText.Escaped(s))| == |JsonText.Escaped(s)| ==> JsonText.Escaped(s) == s
    decreases |s|
  {
    hide JsonText.Rank, JsonText.Letter;
    if s != "" {
      var c, rest := JsonText.CodedChar(s[0], 0, 7), JsonText.Escaped(s[1..]);
      EscapedAgain(s[1..]);
      EscapedConcat(c, rest);
      EscapedGrows(c);
      EscapedGrows(rest);
      if c != [s[0]] {
        assert c[0] == '\\';
        EscapedGrows(c[1..]);
      }
      assert s == [s[0]] + s[1..];
    }
  }

  lemma {:induction false} EscapedConcat(a: string, b: string)
    ensures JsonText.Escaped(a + b) == JsonText.Escaped(a) + JsonText.Escaped(b)
    decreases |a|
  {
    hide JsonText.CodedChar;
    if a != "" {
      EscapedConcat(a[1..], b);
      assert (a + b)[1..] == a[1..] + b;
      Associate(JsonText.CodedChar(a[0], 0, 7), JsonText.Escaped(a[1..]), JsonText.Escaped(b));
    } else {
      assert a + b == b;
    }
  }

  /** No character of the string needs a backslash. */
  predicate Quiet(s: string) {
    forall i :: 0 <= i < |s| ==> s[i] != '\\' && JsonText.Rank(s[i]) == 7
  }

  predicate QuietValue(v: Value) {
    match v
    case Text(s) => Quiet(s)
    case Tree(o) => AllQuiet(o.members)
    case _ => true
  }

  predicate AllQuiet(ms: seq<Member>) {
    ms == [] || (QuietValue(ms[0].value) && AllQuiet(ms[1..]))
  }

  lemma {:induction false} EscapedSameIff(s: string)
    ensures JsonText.Escaped(s) == s <==> Quiet(s)
    decreases |s|
  {
    hide JsonText.Rank, JsonText.Letter;
    if s != "" {
      var code, rest := JsonText.CodedChar(s[0], 0, 7), JsonText.Escaped(s[1..]);
      EscapedSameIff(s[1..]);
      EscapedGrows(s[1..]);
      assert s == [s[0]] + s[1..];
      if |code| == 1 {
        assert JsonText.Escaped(s)[1..] == rest;
      }
      assert Quiet(s) <==> s[0] != '\\' && JsonText.Rank(s[0]) == 7 && Quiet(s[1..]) by {
        QuietStep(s);
      }
    }
  }

  lemma {:induction false} QuietStep(s: string)
    requires s != ""
    ensures Quiet(s) <==> s[0] != '\\' && JsonText.Rank(s[0]) == 7 && Quiet(s[1..])
  {
    hide JsonText.Rank;
    if s[0] != '\\' && JsonText.Rank(s[0]) == 7 && Quiet(s[1..]) {
      forall i | 0 <= i < |s|
        ensures s[i] != '\\' && JsonText.Rank(s[i]) == 7
      {
        if i > 0 {
          assert s[1..][i - 1] == s[i];
        }
      }
    }
  }

  lemma {:induction false} TouchedSameIff(v: Value)
    requires Writable(v)
    ensures Touched(v) == v <==> QuietValue(v)
    decreases v, 0
  {
    hide JsonText.Escaped, Quiet;
    match v
    case Text(s) => EscapedSameIff(s);
    case Tree(o) => MembersSameIff(o.members);
    case _ =>
  }

  lemma {:induction false} MembersSameIff(ms: seq<Member>)
    requires AllWritable(ms)
    ensures TouchedMembers(ms) == ms <==> AllQuiet(ms)
    decreases ms, 1
  {
    hide Touched, QuietValue, Writable;
    if ms != [] {
      TouchedSameIff(ms[0].value);
      MembersSameIff(ms[1..]);
      var r := TouchedMembers(ms);
      assert r[0] == Member(ms[0].key, Touched(ms[0].value)) && r[1..] == TouchedMembers(ms[1..]);
      assert ms == [ms[0]] + ms[1..];
    }
  }

  /** Printing an object twice gives the same text exactly when no stored string needs a backslash. */
  lemma {:induction false} SecondWriteIff(o: Object)
    requires AllWritable(o.members)
    ensures var after := Object(o.isArray, TouchedMembers(o.members));
            ShowObject(after) == ShowObject(o) <==> AllQuiet(o.members)
  {
    hide AllQuiet;
    MembersGrow(o.isArray, o.members, true);
    MembersSameIff(o.members);
  }
}
