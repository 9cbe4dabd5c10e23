/** Octets, the fixed-width big-endian numbers of the wire formats, and flattening. */
module Bytes {

  newtype byte = x: int | 0 <= x < 256

  type uint16 = x: int | 0 <= x < 0x1_0000
  type uint32 = x: int | 0 <= x < 0x1_0000_0000

  /** The low five bits, `b & 0x1F`. */
  function Low5(b: byte): byte {
    b % 32
  }

  /** The high three bits in place, `b & 0xE0`. */
  function High3(b: byte): byte {
    b / 32 * 32
  }

  /** The two octets of `htons(n)` in memory order. */
  function Be16(n: uint16): (s: seq<byte>)
    ensures |s| == 2
  {
    [(n / 256) as byte, (n % 256) as byte]
  }

  function FromBe16(hi: byte, lo: byte): uint16 {
    hi as int * 256 + lo as int
  }

  /** The four octets of `htonl(n)` in memory order. */
  function Be32(n: uint32): (s: seq<byte>)
    ensures |s| == 4
  {
    Be16(n / 0x1_0000) + Be16(n % 0x1_0000)
  }

  function FromBe32(b0: byte, b1: byte, b2: byte, b3: byte): uint32 {
    FromBe16(b0, b1) * 0x1_0000 + FromBe16(b2, b3)
  }

  /** The 16-bit word at offset `i` of a buffer, in network order. */
  function At16(b: seq<byte>, i: nat): uint16
    requires i + 2 <= |b|
  {
    FromBe16(b[i], b[i + 1])
  }

  /** The 32-bit word at offset `i` of a buffer, in network order. */
  function At32(b: seq<byte>, i: nat): uint32
    requires i + 4 <= |b|
  {
    FromBe32(b[i], b[i + 1], b[i + 2], b[i + 3])
  }

  /** `ntohs` undoes `htons`. */
  lemma Be16RoundTrip(n: uint16)
    ensures FromBe16(Be16(n)[0], Be16(n)[1]) == n
  {
  }

  /** `ntohl` undoes `htonl`. */
  lemma Be32RoundTrip(n: uint32)
    ensures var s := Be32(n); FromBe32(s[0], s[1], s[2], s[3]) == n
  {
    Be16RoundTrip(n / 0x1_0000);
    Be16RoundTrip(n % 0x1_0000);
  }

  /** The number that some octets spell, most significant first. */
  function Number(s: seq<byte>): nat {
    if s == [] then 0 else 256 * Number(s[..|s| - 1]) + s[|s| - 1] as nat
  }

  lemma {:induction false} NumberOfTwo(s: seq<byte>)
    requires |s| == 2
    ensures Number(s) == s[0] as nat * 256 + s[1] as nat
  {
    assert s[..1][..0] == [];
    assert Number(s[..1]) == s[0] as nat;
  }

  lemma {:induction false} NumberOfFour(s: seq<byte>)
    requires |s| == 4
    ensures Number(s) == s[0] as nat * 0x100_0000 + s[1] as nat * 0x1_0000 + s[2] as nat * 256 + s[3] as nat
  {
    NumberOfTwo(s[..2]);
    assert s[..3][..2] == s[..2];
  }

  /** Network order: what `htons` and `htonl` put into memory spells the number. */
  lemma {:induction false} NetworkOrder16(n: uint16)
    ensures Number(Be16(n)) == n
  {
    NumberOfTwo(Be16(n));
  }

  lemma {:induction false} NetworkOrder32(n: uint32)
    ensures Number(Be32(n)) == n
  {
    NumberOfFour(Be32(n));
    NetworkOrder16(n / 0x1_0000);
    NetworkOrder16(n % 0x1_0000);
  }

  /** And a word of a buffer is the number that its octets spell. */
  lemma {:induction false} WordsSpelled(b: seq<byte>, i: nat)
    requires i + 4 <= |b|
    ensures At16(b, i) == Number(b[i..i + 2]) && At32(b, i) == Number(b[i..i + 4])
  {
    NumberOfTwo(b[i..i + 2]);
    NumberOfFour(b[i..i + 4]);
  }

  function Zeros(n: nat): (s: seq<byte>)
    ensures |s| == n
    ensures forall i :: 0 <= i < n ==> s[i] == 0
  {
    seq(n, _ => 0)
  }

  /** Quotient and remainder by a word are determined by what makes them up. */
  lemma {:induction false} Mod32(x: nat, k: nat, r: nat)
    requires x == k * 0x1_0000_0000 + r && r < 0x1_0000_0000
    ensures x % 0x1_0000_0000 == r && x / 0x1_0000_0000 == k
  {
  }

  lemma {:induction false} Mod64(x: nat, k: int, r: nat)
    requires x == k * 0x1_0000_0000_0000_0000 + r && r < 0x1_0000_0000_0000_0000
    ensures x % 0x1_0000_0000_0000_0000 == r
  {
  }

  function Pow2(n: nat): (p: nat)
    ensures p > 0
  {
    if n == 0 then 1 else 2 * Pow2(n - 1)
  }

  lemma Associate<T>(a: seq<T>, b: seq<T>, c: seq<T>)
    ensures a + b + c == a + (b + c)
  {
  }

  function Flatten<T>(parts: seq<seq<T>>): (s: seq<T>) {
    if parts == [] then [] else parts[0] + Flatten(parts[1..])
  }

  lemma {:induction false} FlattenConcat<T>(a: seq<seq<T>>, b: seq<seq<T>>)
    ensures Flatten(a + b) == Flatten(a) + Flatten(b)
  {
    if a == [] {
      assert a + b == b;
    } else {
      assert (a + b)[1..] == a[1..] + b;
      FlattenConcat(a[1..], b);
    }
  }

  /** Cutting the front part off a tail of a sequence. */
  lemma CutFront<T>(s: seq<T>, p: nat, a: seq<T>, b: seq<T>)
    requires p <= |s| && s[p..] == a + b
    ensures p + |a| <= |s|
    ensures s[p..p + |a|] == a
    ensures s[p + |a|..] == b
    ensures forall k :: p <= k < p + |a| ==> s[k] == a[k - p]
  {
    var t := s[p..];
    assert t[..|a|] == a && t[|a|..] == b;
    assert forall k :: p <= k < p + |a| ==> s[k] == t[k - p];
  }

  lemma SplitTail<T>(s: seq<T>, p: nat, n: nat, q: nat)
    requires p <= n <= q <= |s|
    ensures s[p..] == s[p..n] + s[n..q] + s[q..]
  {
  }
}
