/**
 * The values of src/common/common_json.h. A `std::map` is the sequence of its
 * members in iteration order, which is the order of their keys.
 */
module Json {

  /** Integers of every width are one case; a `double` is known by the text it was read from. */
  datatype Value =
    | Undefined
    | Null
    | Bool(flag: bool)
    | Int(number: int)
    | Double(literal: string)
    | Text(text: string)
    | Tree(tree: Object)

  datatype Object = Object(isArray: bool, members: seq<Member>)

  datatype Member = Member(key: string, value: Value)

  // ------------------------------------------------------------------
  // The order of keys

  predicate Less(a: string, b: string)
    decreases |a|
  {
    b != "" && (a == "" || a[0] < b[0] || (a[0] == b[0] && Less(a[1..], b[1..])))
  }

  lemma {:induction false} LessOrder(a: string, b: string)
    ensures !(Less(a, b) && Less(b, a))
    ensures a != b ==> Less(a, b) || Less(b, a)
    ensures !Less(a, a)
    decreases |a|
  {
    if a != "" && b != "" {
      LessOrder(a[1..], b[1..]);
      LessOrder(a[1..], a[1..]);
      if a[0] == b[0] && a[1..] == b[1..] {
        assert a == [a[0]] + a[1..] && b == [b[0]] + b[1..];
      }
    } else if a != "" {
      LessOrder(a[1..], a[1..]);
    }
  }

  lemma {:induction false} LessTransitive(a: string, b: string, c: string)
    requires Less(a, b) && Less(b, c)
    ensures Less(a, c)
    decreases |a|
  {
    if a != "" && a[0] == b[0] && b[0] == c[0] {
      LessTransitive(a[1..], b[1..], c[1..]);
    }
  }

  /** The order of `std::string`: a proper prefix comes first, else the first character that differs decides. */
  lemma {:induction false} LessIff(a: string, b: string)
    ensures Less(a, b) <==>
            exists n: nat :: n <= |a| && n < |b| && a[..n] == b[..n] && (n < |a| ==> a[n] < b[n])
    decreases |a|
  {
    if a == "" || b == "" {
      if b != "" {
        assert a[..0] == b[..0];
      }
    } else if a[0] == b[0] {
      LessIff(a[1..], b[1..]);
      if n: nat :| n <= |a[1..]| && n < |b[1..]| && a[1..][..n] == b[1..][..n] && (n < |a[1..]| ==> a[1..][n] < b[1..][n]) {
        assert a[..n + 1] == [a[0]] + a[1..][..n] && b[..n + 1] == [b[0]] + b[1..][..n];
      }
      if n: nat :| n <= |a| && n < |b| && a[..n] == b[..n] && (n < |a| ==> a[n] < b[n]) {
        assert n > 0;
        assert a[1..][..n - 1] == a[..n][1..] && b[1..][..n - 1] == b[..n][1..];
      }
    } else {
      assert a[..0] == b[..0];
      forall n: nat | 0 < n <= |a| && n < |b|
        ensures a[..n] != b[..n]
      {
        assert a[..n][0] == a[0] && b[..n][0] == b[0];
      }
    }
  }

  // ------------------------------------------------------------------
  // The map

  predicate Sorted(ms: seq<Member>) {
    forall i, j :: 0 <= i < j < |ms| ==> Less(ms[i].key, ms[j].key)
  }

  /** `m[k] = v`. */
  function Put(ms: seq<Member>, k: string, v: Value): (r: seq<Member>)
    ensures r != []
    decreases |ms|
  {
    if ms == [] || Less(k, ms[0].key) then [Member(k, v)] + ms
    else if ms[0].key == k then [Member(k, v)] + ms[1..]
    else [ms[0]] + Put(ms[1..], k, v)
  }

  datatype Lookup = Missing | Found(value: Value)

  /** `m.find(k)`. */
  function Get(ms: seq<Member>, k: string): Lookup
    decreases |ms|
  {
    if ms == [] then Missing
    else if ms[0].key == k then Found(ms[0].value)
    else Get(ms[1..], k)
  }

  lemma {:induction false} PutKeys(ms: seq<Member>, k: string, v: Value)
    ensures forall m :: m in Put(ms, k, v) ==> m.key == k || m in ms
    decreases |ms|
  {
    if ms != [] && !Less(k, ms[0].key) && ms[0].key != k {
      PutKeys(ms[1..], k, v);
    }
  }

  /** Setting a key keeps the order ... */
  lemma {:induction false} PutKeepsSorted(ms: seq<Member>, k: string, v: Value)
    requires Sorted(ms)
    ensures Sorted(Put(ms, k, v))
    decreases |ms|
  {
    hide Less;
    if ms != [] {
      LessOrder(k, ms[0].key);
      if Less(k, ms[0].key) {
        forall j | 0 <= j < |ms|
          ensures Less(k, ms[j].key)
        {
          if j > 0 {
            LessTransitive(k, ms[0].key, ms[j].key);
          }
        }
      } else if ms[0].key != k {
        PutKeepsSorted(ms[1..], k, v);
        PutKeys(ms[1..], k, v);
        var r := Put(ms[1..], k, v);
        forall j | 0 <= j < |r|
          ensures Less(ms[0].key, r[j].key)
        {
          assert r[j] in r;
        }
      }
    }
  }

  /** ... and afterwards that key has the value, and every other what it had. */
  lemma {:induction false} PutGets(ms: seq<Member>, k: string, v: Value, x: string)
    requires Sorted(ms)
    ensures Get(Put(ms, k, v), x) == if x == k then Found(v) else Get(ms, x)
    decreases |ms|
  {
    hide Less, Sorted;
    if ms != [] && !Less(k, ms[0].key) && ms[0].key != k {
      SortedTail(ms);
      PutGets(ms[1..], k, v, x);
      assert ([ms[0]] + Put(ms[1..], k, v))[1..] == Put(ms[1..], k, v);
    } else {
      var rest := if ms == [] || Less(k, ms[0].key) then ms else ms[1..];
      assert ([Member(k, v)] + rest)[1..] == rest;
    }
  }

  lemma {:induction false} SortedTail(ms: seq<Member>)
    requires Sorted(ms) && ms != []
    ensures Sorted(ms[1..])
  {
  }

  /** A key above all others goes to the end. */
  lemma {:induction false} PutLast(ms: seq<Member>, k: string, v: Value)
    requires forall i :: 0 <= i < |ms| ==> Less(ms[i].key, k)
    ensures Put(ms, k, v) == ms + [Member(k, v)]
    decreases |ms|
  {
    hide Less;
    if ms != [] {
      LessOrder(ms[0].key, k);
      PutLast(ms[1..], k, v);
      assert [ms[0]] + (ms[1..] + [Member(k, v)]) == ms + [Member(k, v)];
    }
  }

  // ------------------------------------------------------------------
  // Decimal numbers

  function DigitChar(d: nat): (c: char)
    requires d < 10
    ensures '0' <= c <= '9' && c as int - '0' as int == d
  {
    ('0' as int + d) as char
  }

  predicate IsDigit(c: char) {
    '0' <= c <= '9'
  }

  /** `%d` of a non-negative number. */
  function Digits(n: nat): (s: string)
    ensures s != "" && forall i :: 0 <= i < |s| ==> IsDigit(s[i])
  {
    if n < 10 then [DigitChar(n)] else Digits(n / 10) + [DigitChar(n % 10)]
  }

  function ShowInt(n: int): string {
    if n < 0 then "-" + Digits(-n) else Digits(n)
  }

  /** The number a run of digits stands for. */
  function DecimalValue(s: string): nat
    requires forall i :: 0 <= i < |s| ==> IsDigit(s[i])
    decreases |s|
  {
    if s == "" then 0
    else
      assert IsDigit(s[|s| - 1]);
      DecimalValue(s[..|s| - 1]) * 10 + (s[|s| - 1] as int - '0' as int)
  }

  /** The decimal places: a figure stands for itself, and moves up ten times for each one behind it. */
  lemma {:induction false} DecimalPlaces(s: string, c: char)
    requires '0' <= c <= '9' && forall i :: 0 <= i < |s| ==> IsDigit(s[i])
    ensures forall i :: 0 <= i < |s + [c]| ==> IsDigit((s + [c])[i])
    ensures DecimalValue(s + [c]) == 10 * DecimalValue(s) + (c as int - 48)
    ensures DecimalValue("") == 0
  {
    assert (s + [c])[..|s|] == s;
  }

  /** No number but zero starts with the figure 0. */
  lemma {:induction false} NoLeadingZero(n: nat)
    ensures Digits(n)[0] == '0' <==> n == 0
    ensures n == 0 ==> Digits(n) == "0"
  {
    if n >= 10 {
      NoLeadingZero(n / 10);
    }
  }

  lemma {:induction false} DigitsValue(n: nat)
    ensures DecimalValue(Digits(n)) == n
  {
    if n < 10 {
      assert Digits(n)[..0] == "";
    } else {
      DigitsValue(n / 10);
      assert Digits(n)[..|Digits(n)| - 1] == Digits(n / 10);
    }
  }

  lemma {:induction false} DigitsDiffer(i: nat, j: nat)
    requires i != j
    ensures Digits(i) != Digits(j)
  {
    DigitsValue(i);
    DigitsValue(j);
  }

  lemma {:induction false} DigitsOrder(i: nat, j: nat)
    requires i < j < 10
    ensures Less(Digits(i), Digits(j))
  {
  }

  lemma {:induction false} TenIsBelowTwo()
    ensures Digits(10) == "10" && Digits(2) == "2" && Less("10", "2")
  {
    assert Digits(10) == Digits(1) + Digits(0);
  }

  lemma {:induction false} LeadDigit(n: nat)
    requires n > 0
    ensures Digits(n)[0] != '0' && (n >= 10 ==> |Digits(n)| >= 2)
  {
    if n >= 10 {
      LeadDigit(n / 10);
    }
  }

  /** Only 0 and 1 come before 10. */
  lemma {:induction false} BelowTen(n: nat)
    ensures Less(Digits(n), Digits(10)) <==> n < 2
  {
    TenIsBelowTwo();
    var d := Digits(n);
    if n > 0 {
      LeadDigit(n);
      assert IsDigit(d[0]);
    }
    if n >= 10 {
      NotBelowTen(d);
    }
  }

  lemma {:induction false} NotBelowTen(d: string)
    requires |d| >= 2 && d[0] > '0' && d[1] >= '0'
    ensures !Less(d, "10")
  {
    var t := d[1..];
    assert "10"[1..] == "0" && "0"[1..] == "" && t[0] == d[1];
    assert !Less(t[1..], "");
    assert !Less(t, "0");
  }

  // ------------------------------------------------------------------
  // Arrays

  /** The keys are the numbers from 0 on, in the order of a map. */
  ghost predicate ArrayKeys(ms: seq<Member>) {
    && Sorted(ms)
    && (forall m :: m in ms ==> exists j: nat :: j < |ms| && m.key == Digits(j))
    && (forall j: nat :: j < |ms| ==> HasKey(ms, Digits(j)))
  }

  ghost predicate HasKey(ms: seq<Member>, k: string) {
    exists i :: 0 <= i < |ms| && ms[i].key == k
  }

  lemma {:induction false} SortedAt(ms: seq<Member>, i: nat, j: nat)
    requires Sorted(ms) && i < |ms| && j < |ms|
    ensures Less(ms[i].key, ms[j].key) <==> i < j
    ensures ms[i].key == ms[j].key <==> i == j
  {
    hide Less;
    LessOrder(ms[i].key, ms[j].key);
    LessOrder(ms[j].key, ms[i].key);
  }

  /** Up to ten elements the key at position `i` is `i`. */
  lemma {:induction false} SmallArrayKey(ms: seq<Member>, i: nat)
    requires ArrayKeys(ms) && i < |ms| <= 10
    ensures ms[i].key == Digits(i)
    decreases i
  {
    hide Less, Digits;
    var p :| 0 <= p < |ms| && ms[p].key == Digits(i);
    assert ms[i] in ms;
    var j: nat :| j < |ms| && ms[i].key == Digits(j);
    if p < i {
      SmallArrayKey(ms, p);
      DigitsDiffer(p, i);
    } else if p > i {
      SortedAt(ms, i, p);
      if j < i {
        SmallArrayKey(ms, j);
        SortedAt(ms, i, j);
      } else {
        KeepsBelow(i, j);
      }
    }
  }

  lemma {:induction false} KeepsBelow(i: nat, j: nat)
    requires i <= j < 10
    ensures !Less(Digits(j), Digits(i))
  {
    hide Less, Digits;
    LessOrder(Digits(i), Digits(j));
    if i < j {
      DigitsOrder(i, j);
    }
  }

  /** From eleven elements on the third key is 10. */
  lemma {:induction false} LargeArrayKey(ms: seq<Member>)
    requires ArrayKeys(ms) && |ms| >= 11
    ensures ms[2].key == Digits(10)
  {
    hide Less, Digits, Sorted;
    var p :| 0 <= p < |ms| && ms[p].key == Digits(10);
    var a :| 0 <= a < |ms| && ms[a].key == Digits(0);
    var b :| 0 <= b < |ms| && ms[b].key == Digits(1);
    BelowTen(0);
    BelowTen(1);
    SortedAt(ms, a, p);
    SortedAt(ms, b, p);
    DigitsDiffer(0, 1);
    SortedAt(ms, a, b);
    if p > 2 {
      BeforeTen(ms, 0, p, a, b);
      BeforeTen(ms, 1, p, a, b);
      BeforeTen(ms, 2, p, a, b);
    }
  }

  lemma {:induction false} BeforeTen(ms: seq<Member>, i: nat, p: nat, a: nat, b: nat)
    requires ArrayKeys(ms) && i < p < |ms| && a < |ms| && b < |ms|
    requires ms[p].key == Digits(10) && ms[a].key == Digits(0) && ms[b].key == Digits(1)
    ensures i == a || i == b
  {
    hide Less, Digits, Sorted;
    assert ms[i] in ms;
    var j: nat :| j < |ms| && ms[i].key == Digits(j);
    SortedAt(ms, i, p);
    BelowTen(j);
    SortedAt(ms, i, a);
    SortedAt(ms, i, b);
  }

  /** The order of the keys is the order of the numbers exactly up to ten elements. */
  lemma {:induction false} ArrayOrderIff(ms: seq<Member>)
    requires ArrayKeys(ms)
    ensures (forall i :: 0 <= i < |ms| ==> ms[i].key == Digits(i)) <==> |ms| <= 10
  {
    hide ArrayKeys, Digits;
    if |ms| <= 10 {
      forall i | 0 <= i < |ms|
        ensures ms[i].key == Digits(i)
      {
        SmallArrayKey(ms, i);
      }
    } else {
      LargeArrayKey(ms);
      DigitsDiffer(2, 10);
    }
  }

  lemma {:induction false} PutNew(ms: seq<Member>, k: string, v: Value)
    requires !HasKey(ms, k)
    ensures |Put(ms, k, v)| == |ms| + 1
    ensures HasKey(Put(ms, k, v), k)
    ensures forall x :: HasKey(ms, x) ==> HasKey(Put(ms, k, v), x)
    decreases |ms|
  {
    hide Less;
    var r := Put(ms, k, v);
    if ms == [] || Less(k, ms[0].key) {
      assert r[0].key == k;
      forall x | HasKey(ms, x)
        ensures HasKey(r, x)
      {
        var i :| 0 <= i < |ms| && ms[i].key == x;
        assert r[i + 1].key == x;
      }
    } else {
      var t := Put(ms[1..], k, v);
      forall i | 0 <= i < |ms[1..]|
        ensures ms[1..][i].key != k
      {
        assert ms[i + 1].key != k;
      }
      PutNew(ms[1..], k, v);
      var p :| 0 <= p < |t| && t[p].key == k;
      assert r[p + 1].key == k;
      forall x | HasKey(ms, x)
        ensures HasKey(r, x)
      {
        var i :| 0 <= i < |ms| && ms[i].key == x;
        if i == 0 {
          assert r[0].key == x;
        } else {
          assert ms[1..][i - 1].key == x;
          assert HasKey(ms[1..], x);
          var q :| 0 <= q < |t| && t[q].key == x;
          assert r[q + 1].key == x;
        }
      }
    }
  }

  /** Pushing under the size keeps the keys of an array ... */
  lemma {:induction false} PushKeepsArrayKeys(ms: seq<Member>, v: Value)
    requires ArrayKeys(ms)
    ensures ArrayKeys(Put(ms, Digits(|ms|), v)) && |Put(ms, Digits(|ms|), v)| == |ms| + 1
  {
    hide Digits, Put, Sorted;
    var n, r := |ms|, Put(ms, Digits(|ms|), v);
    forall i | 0 <= i < n
      ensures ms[i].key != Digits(n)
    {
      assert ms[i] in ms;
      var j: nat :| j < n && ms[i].key == Digits(j);
      DigitsDiffer(j, n);
    }
    PutNew(ms, Digits(n), v);
    PutKeepsSorted(ms, Digits(n), v);
    PutKeys(ms, Digits(n), v);
    forall m | m in r
      ensures exists j: nat :: j < n + 1 && m.key == Digits(j)
    {
      if m.key != Digits(n) {
        var j: nat :| j < n && m.key == Digits(j);
      }
    }
  }

  /** The array that pushing these values one after another makes. */
  function PushedAll(values: seq<Value>): seq<Member> {
    if values == [] then []
    else
      var ms, last := PushedAll(values[..|values| - 1]), values[|values| - 1];
      Put(ms, Digits(|ms|), last)
  }

  /** ... so every array built that way has them, and holds each value under the number of its push. */
  lemma {:induction false} PushedArray(values: seq<Value>)
    ensures ArrayKeys(PushedAll(values)) && |PushedAll(values)| == |values|
    ensures forall i: nat :: i < |values| ==> Get(PushedAll(values), Digits(i)) == Found(values[i])
    decreases |values|
  {
    hide Digits, Put, Get, ArrayKeys;
    if values != [] {
      var init, n := values[..|values| - 1], |values| - 1;
      var ms := PushedAll(init);
      PushedArray(init);
      PushKeepsArrayKeys(ms, values[n]);
      assert Sorted(ms) by { ArraySorted(ms); }
      forall i: nat | i <= n
        ensures Get(PushedAll(values), Digits(i)) == Found(values[i])
      {
        PutGets(ms, Digits(n), values[n], Digits(i));
        if i < n {
          DigitsDiffer(i, n);
          assert init[i] == values[i];
        }
      }
    } else {
      NoKeys();
    }
  }

  lemma {:induction false} ArraySorted(ms: seq<Member>)
    requires ArrayKeys(ms)
    ensures Sorted(ms)
  {
  }

  lemma {:induction false} NoKeys()
    ensures ArrayKeys([])
  {
  }
}
