/**
 * The JSON parser of src/common/common_json.cpp. The functions say what is read
 * off the front of a text and what is left; the methods keep a position instead.
 */
module JsonReader {
  import opened Json
  import JsonText

  datatype Result<T> = Fail | Got(value: T, rest: string)

  /** What a loop over members leaves: also on failure, those already stored. */
  datatype Loading = Loading(ok: bool, members: seq<Member>, rest: string)

  // ------------------------------------------------------------------
  // Pieces

  predicate IsSpace(c: char) {
    c == ' ' || c == '\t' || c == '\r' || c == '\n'
  }

  function SkipSpace(t: string): (r: string)
    ensures |r| <= |t| && (r != "" ==> !IsSpace(r[0]))
    decreases |t|
  {
    if t != "" && IsSpace(t[0]) then SkipSpace(t[1..]) else t
  }

  /** One character between blanks. */
  function ReadDelimiter(t: string): (r: Result<char>)
    ensures r.Got? ==> |r.rest| < |t|
  {
    var u := SkipSpace(t);
    if u == "" then Fail else Got(u[0], SkipSpace(u[1..]))
  }

  /** The first quote from `from` on that no backslash precedes, or -1. */
  function CloseAt(t: string, from: nat): (q: int)
    requires from > 0
    ensures q == -1 || from <= q < |t|
    decreases |t| - from
  {
    if from >= |t| then -1
    else if t[from] == '"' && t[from - 1] != '\\' then from
    else CloseAt(t, from + 1)
  }

  function ReadText(t: string): (r: Result<string>)
    ensures r.Got? ==> |r.rest| < |t|
  {
    if |t| < 2 || t[0] != '"' then Fail
    else
      var q := CloseAt(t, 1);
      if q < 0 then Fail else Got(JsonText.Unescaped(t[1..q]), t[q + 1..])
  }

  /** How many digits and points stand at the front. */
  function NumberLength(t: string): (n: nat)
    ensures n <= |t| && forall i :: 0 <= i < n ==> IsDigit(t[i]) || t[i] == '.'
    decreases |t|
  {
    if t != "" && (IsDigit(t[0]) || t[0] == '.') then 1 + NumberLength(t[1..]) else 0
  }

  /** `atol` with a 64-bit `long`: what does not fit becomes the greatest value. */
  function ToLong(s: string): int
    requires forall i :: 0 <= i < |s| ==> IsDigit(s[i])
  {
    var n := DecimalValue(s);
    if n >= 0x8000_0000_0000_0000 then 0x7FFF_FFFF_FFFF_FFFF else n
  }

  function Number(literal: string): Value
    requires forall i :: 0 <= i < |literal| ==> IsDigit(literal[i]) || literal[i] == '.'
  {
    if '.' in literal then Double(literal) else Int(ToLong(literal))
  }

  function ReadNumber(t: string): (r: Result<Value>)
    ensures r.Got? ==> |r.rest| < |t|
  {
    var n := NumberLength(t);
    if n == 0 then Fail else Got(Number(t[..n]), t[n..])
  }

  function LowerChar(c: char): char {
    if 'A' <= c <= 'Z' then (c as int + 32) as char else c
  }

  function Lower(s: string): (r: string)
    ensures |r| == |s|
  {
    seq(|s|, i requires 0 <= i < |s| => LowerChar(s[i]))
  }

  /** A word in any mixture of cases. */
  function ReadWord(t: string, wanted: string, v: Value): (r: Result<Value>)
    requires wanted != ""
    ensures r.Got? ==> |r.rest| < |t|
  {
    if |t| < |wanted| || Lower(t[..|wanted|]) != wanted then Fail else Got(v, t[|wanted|..])
  }

  // ------------------------------------------------------------------
  // Values

  /** By the first character; reading `null` leaves the value undefined. */
  function ReadValue(t: string): (r: Result<Value>)
    ensures r.Got? ==> |r.rest| < |t|
    decreases |t|, 0
  {
    var u := SkipSpace(t);
    if u == "" then Fail
    else if u[0] == '"' then
      var s := ReadText(u);
      if s.Fail? then Fail else Got(Text(s.value), s.rest)
    else if u[0] == '-' || IsDigit(u[0]) then ReadNumber(u)
    else if u[0] == '{' then
      if |u| < 2 then Fail
      else
        var l := ReadMembers(u[1..], []);
        if l.ok then Got(Tree(Object(false, l.members)), l.rest) else Fail
    else if u[0] == '[' then
      if |u| < 2 then Fail
      else
        var l := ReadElements(u[1..], []);
        if l.ok then Got(Tree(Object(true, l.members)), l.rest) else Fail
    else if u[0] == 't' || u[0] == 'T' then ReadWord(u, "true", Bool(true))
    else if u[0] == 'f' || u[0] == 'F' then ReadWord(u, "false", Bool(false))
    else if u[0] == 'n' || u[0] == 'N' then ReadWord(u, "null", Undefined)
    else Fail
  }

  /** The members behind an opening brace, stored one by one. */
  function ReadMembers(t: string, ms: seq<Member>): (l: Loading)
    ensures l.ok ==> |l.rest| < |t|
    decreases |t|, 1
  {
    if t == "" then Loading(false, ms, t)
    else if t[0] == '}' then Loading(true, ms, t[1..])
    else
      var k := ReadValue(t);
      if k.Fail? || !k.value.Text? then Loading(false, ms, t)
      else
        var c := ReadDelimiter(k.rest);
        if c.Fail? || c.value != ':' then Loading(false, ms, t)
        else
          var v := ReadValue(c.rest);
          if v.Fail? then Loading(false, ms, t)
          else AfterMember(t, v.rest, '}', Put(ms, k.value.text, v.value), false)
  }

  /** The elements behind an opening bracket, under their decimal numbers. */
  function ReadElements(t: string, ms: seq<Member>): (l: Loading)
    ensures l.ok ==> |l.rest| < |t|
    decreases |t|, 1
  {
    if t == "" then Loading(false, ms, t)
    else if t[0] == ']' then Loading(true, ms, t[1..])
    else
      var v := ReadValue(t);
      if v.Fail? then Loading(false, ms, t)
      else AfterMember(t, v.rest, ']', Put(ms, Digits(|ms|), v.value), true)
  }

  /** After a value: the end, or a comma and more. */
  function AfterMember(t: string, u: string, close: char, ms: seq<Member>, isArray: bool): (l: Loading)
    requires |u| < |t|
    ensures l.ok ==> |l.rest| < |t|
    decreases |t|, 0
  {
    var c := ReadDelimiter(u);
    if c.Fail? then Loading(false, ms, t)
    else if c.value == close then Loading(true, ms, c.rest)
    else if c.value == ',' then
      if isArray then ReadElements(c.rest, ms) else ReadMembers(c.rest, ms)
    else Loading(false, ms, t)
  }

  datatype Loaded = Loaded(ok: bool, state: Object)

  /** A whole text read into an object, whose earlier members stay. */
  function ReadFrom(t: string, o: Object): Loaded {
    var u := SkipSpace(t);
    if u != "" && u[0] == '{' then
      if |u| < 2 then Loaded(false, o)
      else
        var l := ReadMembers(u[1..], o.members);
        Loaded(l.ok, Object(o.isArray, l.members))
    else if u != "" && u[0] == '[' then
      if |u| < 2 then Loaded(false, Object(true, o.members))
      else
        var l := ReadElements(u[1..], o.members);
        Loaded(l.ok, Object(true, l.members))
    else Loaded(false, o)
  }
}
