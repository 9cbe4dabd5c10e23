/**
 * The bounded reorder list of src/rtp/rtp_session_receiver.cpp: packets are
 * inserted by sequence number from the back and the front is returned once the
 * list holds more than `reorderLen`.
 */
module ReorderWindow {
  import opened Bytes
  import opened RtpPacket

  datatype Option<T> = None | Some(value: T)

  /** A packet object that was never parsed: sequence 0, no payload. */
  const BLANK: View := PacketView(false, 0, 0, 0, 0, 0, 0, [])

  /** Insertion from the back; an equal sequence number drops the newcomer. */
  function Insert(w: seq<View>, v: View): seq<View>
    decreases |w|
  {
    if w == [] then [v]
    else
      var n := |w| - 1;
      if w[n].sequence > v.sequence then
        var front := Insert(w[..n], v);
        front + [w[n]]
      else if w[n].sequence < v.sequence then w + [v]
      else w
  }

  /** The list after an arrival: a blank packet into an empty list, else the packet read. */
  function Arrived(w: seq<View>, arrival: Option<View>): seq<View> {
    if w == [] then [BLANK] else if arrival.Some? then Insert(w, arrival.value) else w
  }

  /** The list afterwards, and the packets returned so far. */
  datatype Outcome = Outcome(list: seq<View>, out: seq<View>)

  /** The front goes out when the list is longer than k. */
  function Pop(k: nat, w: seq<View>): Outcome {
    if |w| > k then Outcome(w[1..], [w[0]]) else Outcome(w, [])
  }

  /** One call returns at most one packet. */
  function Step(k: nat, w: seq<View>, arrival: Option<View>): Outcome {
    Pop(k, Arrived(w, arrival))
  }

  /** What a read amounts to: nothing, or a packet. */
  function Arrival(received: seq<byte>): Option<View>
    requires AnnouncedHeadersPresent(received)
  {
    if |received| > 0 && Parses(received) then Some(ParsedView(received)) else None
  }

  // ------------------------------------------------------------------
  // The receiver object

  function Views(list: seq<RTPPacket>): (r: seq<View>)
    reads list
    ensures |r| == |list|
  {
    if list == [] then [] else Views(list[..|list| - 1]) + [list[|list| - 1].View()]
  }

  lemma {:induction false} ViewsAt(list: seq<RTPPacket>, i: nat)
    requires i < |list|
    ensures Views(list)[i] == list[i].View()
  {
    if i < |list| - 1 {
      ViewsAt(list[..|list| - 1], i);
    }
  }

  lemma {:induction false} ViewsConcat(a: seq<RTPPacket>, b: seq<RTPPacket>)
    ensures Views(a + b) == Views(a) + Views(b)
    decreases b
  {
    if b == [] {
      assert a + b == a;
    } else {
      assert (a + b)[..|a + b| - 1] == a + b[..|b| - 1];
      ViewsConcat(a, b[..|b| - 1]);
    }
  }

  class RTPSessionReceiver {
    var reorder: bool
    var rtpPacket: RTPPacket
    var list: seq<RTPPacket>

    ghost predicate Valid()
      reads this
    {
      rtpPacket !in list
    }

    constructor (reorderPackets: bool)
      ensures Valid() && reorder == reorderPackets && list == [] && fresh(rtpPacket)
    {
      reorder := reorderPackets;
      rtpPacket := new RTPPacket();
      list := [];
    }

    /** Without reordering every packet is parsed into the one shared object. */
    method ReceiveRtpPacket(received: seq<byte>) returns (packet: RTPPacket?)
      requires Valid() && AnnouncedHeadersPresent(received)
      modifies rtpPacket
      ensures packet != null <==> Arrival(received).Some?
      ensures packet != null ==> packet == rtpPacket && packet.View() == Arrival(received).value
    {
      if |received| == 0 {
        return null;
      }
      var ret := rtpPacket.Parse(received);
      if !ret {
        return null;
      }
      return rtpPacket;
    }

    /** `received` is what the transmitter read, empty when nothing came in time. */
    method ReceiveReordered(reorderLen: int, received: seq<byte>) returns (packet: RTPPacket?)
      requires Valid() && AnnouncedHeadersPresent(received)
      modifies this`list, rtpPacket
      ensures Valid() && reorder == old(reorder) && rtpPacket == old(rtpPacket)
      ensures reorderLen <= 0 || !reorder ==>
                && list == old(list)
                && (packet != null <==> Arrival(received).Some?)
                && (packet != null ==> packet == rtpPacket && packet.View() == Arrival(received).value)
      ensures reorderLen > 0 && reorder ==>
                Outcome(Views(list), if packet == null then [] else [packet.View()])
                == Step(reorderLen, old(Views(list)), Arrival(received))
    {
      if reorderLen <= 0 || !reorder {
        packet := ReceiveRtpPacket(received);
        return;
      }
      hide Insert;
      Arrive(received);
      if |list| > reorderLen {
        packet := list[0];
        ViewsHead(list);
        list := list[1..];
        return packet;
      }
      return null;
    }

    /** The first part of a call: a blank packet into an empty list, else the packet read. */
    method Arrive(received: seq<byte>)
      requires Valid() && AnnouncedHeadersPresent(received)
      modifies this`list
      ensures Valid()
      ensures Views(list) == Arrived(old(Views(list)), Arrival(received))
    {
      hide Insert;
      if |list| == 0 {
        var tmp := new RTPPacket();
        list := list + [tmp];
        ViewsAt(list, 0);
      } else if |received| > 0 {
        var tmp := new RTPPacket();
        var ret := tmp.Parse(received);
        if ret {
          InsertPacket(tmp);
        }
      }
    }

    /** The iterator loop from the end of the list. */
    method InsertPacket(tmp: RTPPacket)
      requires Valid() && list != [] && tmp !in list && tmp != rtpPacket
      modifies this`list
      ensures Valid()
      ensures Views(list) == Insert(old(Views(list)), tmp.View())
    {
      hide Insert, Views;
      ghost var w, v := Views(list), tmp.View();
      var sequence := tmp.sequence;
      var it := |list| - 1;
      while true
        invariant 0 <= it < |list| && list == old(list)
        invariant forall j :: it < j < |list| ==> w[j].sequence > sequence
        decreases it
      {
        var p := list[it];
        var seqnr := p.sequence;
        ViewsAt(list, it);
        if seqnr > sequence {
          if it != 0 {
            it := it - 1;
          } else {
            InsertAt(w, v, 0);
            ViewsSplice(list, tmp, 0);
            list := [tmp] + list;
            return;
          }
        } else if seqnr < sequence {
          it := it + 1;
          InsertAt(w, v, it);
          ViewsSplice(list, tmp, it);
          list := list[..it] + [tmp] + list[it..];
          return;
        } else {
          InsertEqual(w, v, it);
          return;
        }
      }
    }
  }

  lemma {:induction false} ViewsHead(list: seq<RTPPacket>)
    requires list != []
    ensures Views(list)[0] == list[0].View() && Views(list[1..]) == Views(list)[1..]
  {
    ViewsAt(list, 0);
    assert list == [list[0]] + list[1..];
    ViewsConcat([list[0]], list[1..]);
  }

  lemma {:induction false} ViewsSplice(list: seq<RTPPacket>, p: RTPPacket, i: nat)
    requires i <= |list|
    ensures Views(list[..i] + [p] + list[i..]) == Views(list)[..i] + [p.View()] + Views(list)[i..]
    ensures i == 0 ==> list[..i] + [p] + list[i..] == [p] + list
  {
    assert list == list[..i] + list[i..];
    ViewsConcat(list[..i], list[i..]);
    ViewsConcat(list[..i] + [p], list[i..]);
    ViewsConcat(list[..i], [p]);
    assert Views([p]) == [p.View()] by {
      ViewsAt([p], 0);
    }
  }

  /** Where the newcomer goes: before all larger sequence numbers, after a smaller one. */
  lemma {:induction false} InsertAt(w: seq<View>, v: View, i: nat)
    requires i <= |w|
    requires forall j :: i <= j < |w| ==> w[j].sequence > v.sequence
    requires i > 0 ==> w[i - 1].sequence < v.sequence
    ensures Insert(w, v) == w[..i] + [v] + w[i..]
    decreases |w|
  {
    var n := |w| - 1;
    if i < |w| {
      InsertAt(w[..n], v, i);
      assert w[..n][i..] + [w[n]] == w[i..] && w[..n][..i] == w[..i];
    }
  }

  lemma {:induction false} InsertEqual(w: seq<View>, v: View, i: nat)
    requires i < |w| && w[i].sequence == v.sequence
    requires forall j :: i < j < |w| ==> w[j].sequence > v.sequence
    ensures Insert(w, v) == w
    decreases |w|
  {
    hide Insert;
    var n := |w| - 1;
    InsertStep(w, v);
    if i < n {
      assert w[n].sequence > v.sequence;
      InsertEqual(w[..n], v, i);
      assert w[..n] + [w[n]] == w;
    }
  }

  lemma {:induction false} InsertStep(w: seq<View>, v: View)
    requires w != []
    ensures var n := |w| - 1;
      && (w[n].sequence > v.sequence ==> Insert(w, v) == Insert(w[..n], v) + [w[n]])
      && (w[n].sequence == v.sequence ==> Insert(w, v) == w)
  {
  }

  // ------------------------------------------------------------------
  // Whole runs

  /** All calls of a run: the list at the end and the packets returned, in order. */
  function Run(k: nat, w: seq<View>, arrivals: seq<Option<View>>): Outcome
    decreases arrivals
  {
    if arrivals == [] then Outcome(w, [])
    else
      var one := Step(k, w, arrivals[0]);
      var rest := Run(k, one.list, arrivals[1..]);
      Outcome(rest.list, one.out + rest.out)
  }

  predicate Holds(w: seq<View>, sequence: uint32) {
    exists i :: 0 <= i < |w| && w[i].sequence == sequence
  }

  /** The packet a call adds to the list, if it is not dropped. */
  function TakenNow(w: seq<View>, arrival: Option<View>): seq<View> {
    if w == [] then [BLANK]
    else if arrival.Some? && !Holds(w, arrival.value.sequence) then [arrival.value]
    else []
  }

  /** The packets of a run that were not dropped on arrival, the blank one included. */
  function Taken(k: nat, w: seq<View>, arrivals: seq<Option<View>>): seq<View>
    decreases arrivals
  {
    if arrivals == [] then []
    else TakenNow(w, arrivals[0]) + Taken(k, Step(k, w, arrivals[0]).list, arrivals[1..])
  }

  predicate Increasing(w: seq<View>) {
    forall i, j :: 0 <= i < j < |w| ==> w[i].sequence < w[j].sequence
  }

  /** Where a number belongs in a sorted list: after all that are not larger. */
  function Place(w: seq<View>, sequence: uint32): (i: nat)
    ensures i <= |w|
    ensures forall j :: i <= j < |w| ==> w[j].sequence > sequence
    ensures i > 0 ==> w[i - 1].sequence <= sequence
    decreases |w|
  {
    if w != [] && w[|w| - 1].sequence > sequence then Place(w[..|w| - 1], sequence) else |w|
  }

  lemma {:induction false} HoldsIff(w: seq<View>, sequence: uint32)
    requires Increasing(w)
    ensures var i := Place(w, sequence);
            Holds(w, sequence) <==> i > 0 && w[i - 1].sequence == sequence
  {
    var i := Place(w, sequence);
    if Holds(w, sequence) {
      var j :| 0 <= j < |w| && w[j].sequence == sequence;
      assert j <= i - 1;
    }
  }

  /** A sorted list takes a new number in its place, and is unchanged by one it holds. */
  lemma {:induction false} InsertKeepsOrder(w: seq<View>, v: View)
    requires Increasing(w)
    ensures var i := Place(w, v.sequence);
            Insert(w, v) == if Holds(w, v.sequence) then w else w[..i] + [v] + w[i..]
    ensures Increasing(Insert(w, v))
  {
    hide Insert, Holds;
    var i := Place(w, v.sequence);
    HoldsIff(w, v.sequence);
    if Holds(w, v.sequence) {
      InsertEqual(w, v, i - 1);
    } else {
      InsertAt(w, v, i);
      forall j | 0 <= j < i
        ensures w[j].sequence < v.sequence
      {
        assert w[j].sequence <= w[i - 1].sequence;
      }
    }
  }

  lemma {:induction false} SpliceMultiset(w: seq<View>, v: View, i: nat)
    requires i <= |w|
    ensures multiset(w[..i] + [v] + w[i..]) == multiset(w) + multiset([v])
  {
    assert w == w[..i] + w[i..];
  }

  lemma {:induction false} ArrivedInvariant(w: seq<View>, arrival: Option<View>)
    requires Increasing(w)
    ensures var w1 := Arrived(w, arrival);
            && Increasing(w1) && 1 <= |w1| <= |w| + 1
            && multiset(w1) == multiset(w) + multiset(TakenNow(w, arrival))
  {
    hide Insert, Holds, Increasing;
    if w != [] && arrival.Some? {
      InsertKeepsOrder(w, arrival.value);
      SpliceMultiset(w, arrival.value, Place(w, arrival.value.sequence));
    } else if w == [] {
      assert Increasing([BLANK]) by {
        OneIncreasing(BLANK);
      }
    }
  }

  lemma {:induction false} OneIncreasing(v: View)
    ensures Increasing([v])
  {
  }

  /** The front is smaller than what stays. */
  lemma {:induction false} PopInvariant(k: nat, w: seq<View>)
    requires k >= 1 && Increasing(w) && 1 <= |w| <= k + 1
    ensures var p := Pop(k, w);
            && Increasing(p.list) && 1 <= |p.list| <= k && |p.out| <= 1
            && (p.out != [] ==> |p.list| == k && forall i :: 0 <= i < k ==> p.out[0].sequence < p.list[i].sequence)
            && multiset(p.list) + multiset(p.out) == multiset(w)
  {
    if |w| > k {
      assert w == [w[0]] + w[1..];
    }
  }

  lemma {:induction false} Balance<T>(
      held: multiset<T>, out: multiset<T>, list: multiset<T>, first: multiset<T>, later: multiset<T>,
      w: multiset<T>, now: multiset<T>)
    requires held + out == list + later && list + first == w + now
    ensures held + (first + out) == w + (now + later)
  {
    assert held + (first + out) == (held + out) + first;
    assert (list + later) + first == (list + first) + later;
  }

  /**
   * On every reachable state the list is strictly increasing, holds at most k
   * packets and, from the first call on, is not empty; and nothing is lost or
   * invented: returned and held packets are the taken ones.
   */
  lemma {:induction false} RunInvariant(k: nat, w: seq<View>, arrivals: seq<Option<View>>)
    requires k >= 1 && Increasing(w) && |w| <= k
    ensures var end := Run(k, w, arrivals);
            && Increasing(end.list) && |end.list| <= k && (w != [] || arrivals != [] ==> end.list != [])
            && multiset(end.list) + multiset(end.out) == multiset(w) + multiset(Taken(k, w, arrivals))
    decreases arrivals
  {
    hide Arrived, Pop, TakenNow, Increasing;
    if arrivals != [] {
      ArrivedInvariant(w, arrivals[0]);
      PopInvariant(k, Arrived(w, arrivals[0]));
      var one := Step(k, w, arrivals[0]);
      var rest := Run(k, one.list, arrivals[1..]);
      RunInvariant(k, one.list, arrivals[1..]);
      assert multiset(one.out + rest.out) == multiset(one.out) + multiset(rest.out);
      var now, later := TakenNow(w, arrivals[0]), Taken(k, one.list, arrivals[1..]);
      assert multiset(now + later) == multiset(now) + multiset(later);
      Balance(multiset(rest.list), multiset(rest.out), multiset(one.list), multiset(one.out), multiset(later),
              multiset(w), multiset(now));
    }
  }

  /** The blank packet is created exactly once in a run from the empty list: by its first call. */
  lemma {:induction false} BlankOnce(k: nat, arrivals: seq<Option<View>>)
    requires k >= 1 && arrivals != []
    ensures BLANK == PacketView(false, 0, 0, 0, 0, 0, 0, [])
    ensures Taken(k, [], arrivals) == [BLANK] + Taken(k, [BLANK], arrivals[1..])
    ensures Run(k, [], arrivals) == Run(k, [BLANK], arrivals[1..])
    ensures forall n :: 1 <= n <= |arrivals| ==> Run(k, [], arrivals[..n]).list != []
  {
    forall n | 1 <= n <= |arrivals|
      ensures Run(k, [], arrivals[..n]).list != []
    {
      RunInvariant(k, [], arrivals[..n]);
    }
    assert Step(k, [], arrivals[0]) == Outcome([BLANK], []);
    var rest := Run(k, [BLANK], arrivals[1..]);
    assert [] + rest.out == rest.out;
  }

  // ------------------------------------------------------------------
  // When a run sorts

  function PacketsOf(arrivals: seq<Option<View>>): seq<View> {
    if arrivals == [] then []
    else (if arrivals[0].Some? then [arrivals[0].value] else []) + PacketsOf(arrivals[1..])
  }

  /** A run in which every call brings a packet. */
  function RunPackets(k: nat, w: seq<View>, a: seq<View>): Outcome
    decreases a
  {
    if a == [] then Outcome(w, [])
    else
      var one := Pop(k, Insert(w, a[0]));
      var rest := RunPackets(k, one.list, a[1..]);
      Outcome(rest.list, one.out + rest.out)
  }

  /** Calls that bring nothing change nothing and return nothing. */
  lemma {:induction false} EmptyCallsDoNothing(k: nat, w: seq<View>, arrivals: seq<Option<View>>)
    requires k >= 1 && Increasing(w) && 1 <= |w| <= k
    ensures Run(k, w, arrivals) == RunPackets(k, w, PacketsOf(arrivals))
    decreases arrivals
  {
    hide Insert, Pop, Increasing;
    if arrivals != [] {
      ArrivedInvariant(w, arrivals[0]);
      PopInvariant(k, Arrived(w, arrivals[0]));
      var rest := arrivals[1..];
      if arrivals[0].Some? {
        assert PacketsOf(arrivals)[1..] == PacketsOf(rest);
        EmptyCallsDoNothing(k, Step(k, w, arrivals[0]).list, rest);
      } else {
        assert Pop(k, w) == Outcome(w, []) by {
          NoPop(k, w);
        }
        assert PacketsOf(arrivals) == PacketsOf(rest);
        EmptyCallsDoNothing(k, w, rest);
        assert [] + Run(k, w, rest).out == Run(k, w, rest).out;
      }
    }
  }

  lemma {:induction false} NoPop(k: nat, w: seq<View>)
    requires |w| <= k
    ensures Pop(k, w) == Outcome(w, [])
  {
  }

  /** How many of some packets have a number larger than `x`. */
  function CountLarger(s: seq<View>, x: uint32): (n: nat)
    ensures n <= |s|
  {
    if s == [] then 0
    else (if s[0].sequence > x then 1 else 0) + CountLarger(s[1..], x)
  }

  lemma {:induction false} CountLargerConcat(a: seq<View>, b: seq<View>, x: uint32)
    ensures CountLarger(a + b, x) == CountLarger(a, x) + CountLarger(b, x)
  {
    if a == [] {
      assert a + b == b;
    } else {
      assert (a + b)[1..] == a[1..] + b;
      CountLargerConcat(a[1..], b, x);
    }
  }

  lemma {:induction false} CountLargerNone(s: seq<View>, x: uint32)
    requires forall i :: 0 <= i < |s| ==> s[i].sequence <= x
    ensures CountLarger(s, x) == 0
  {
    if s != [] {
      CountLargerNone(s[1..], x);
    }
  }

  lemma {:induction false} CountLargerAll(s: seq<View>, x: uint32)
    requires forall i :: 0 <= i < |s| ==> s[i].sequence > x
    ensures CountLarger(s, x) == |s|
  {
    if s != [] {
      CountLargerAll(s[1..], x);
    }
  }

  lemma {:induction false} CountLargerOne(v: View, x: uint32)
    ensures CountLarger([v], x) == if v.sequence > x then 1 else 0
  {
  }

  /** Every packet is preceded in arrival by at most k packets with larger numbers. */
  predicate WithinWindow(k: nat, a: seq<View>) {
    forall j :: 0 <= j < |a| ==> CountLarger(a[..j], a[j].sequence) <= k
  }

  /** Packets that arrive in order are within any window. */
  lemma {:induction false} InOrderIsWithin(k: nat, a: seq<View>)
    requires Increasing(a)
    ensures WithinWindow(k, a)
  {
    forall j | 0 <= j < |a|
      ensures CountLarger(a[..j], a[j].sequence) <= k
    {
      CountLargerNone(a[..j], a[j].sequence);
    }
  }

  /** The same, for the packets of `a` that arrive after those of `h`. */
  predicate WithinAfter(k: nat, h: seq<View>, a: seq<View>) {
    forall j :: 0 <= j < |a| ==> CountLarger(h + a[..j], a[j].sequence) <= k
  }

  lemma {:induction false} WithinAfterStep(k: nat, h: seq<View>, a: seq<View>)
    requires a != []
    ensures WithinAfter(k, h, a) <==>
            CountLarger(h, a[0].sequence) <= k && WithinAfter(k, h + [a[0]], a[1..])
  {
    hide CountLarger;
    var h1, rest := h + [a[0]], a[1..];
    assert h + a[..0] == h;
    forall j | 0 <= j < |rest|
      ensures h1 + rest[..j] == h + a[..j + 1] && rest[j] == a[j + 1]
    {
      assert a[..j + 1] == [a[0]] + rest[..j];
    }
    if WithinAfter(k, h, a) {
      assert CountLarger(h + a[..0], a[0].sequence) <= k;
      forall j | 0 <= j < |rest|
        ensures CountLarger(h1 + rest[..j], rest[j].sequence) <= k
      {
        assert CountLarger(h + a[..j + 1], a[j + 1].sequence) <= k;
      }
    } else {
      var j :| 0 <= j < |a| && CountLarger(h + a[..j], a[j].sequence) > k;
      if j > 0 {
        assert CountLarger(h1 + rest[..j - 1], rest[j - 1].sequence) > k;
      }
    }
  }

  /** Distinct positive numbers, none of them among those that came before. */
  predicate Fresh(h: seq<View>, a: seq<View>) {
    && (forall i :: 0 <= i < |a| ==> a[i].sequence > 0 && !Holds(h, a[i].sequence))
    && (forall i, j :: 0 <= i < j < |a| ==> a[i].sequence != a[j].sequence)
  }

  lemma {:induction false} FreshStep(h: seq<View>, a: seq<View>)
    requires a != [] && Fresh(h, a)
    ensures a[0].sequence > 0 && !Holds(h, a[0].sequence)
    ensures Fresh(h + [a[0]], a[1..])
  {
    var h1, rest := h + [a[0]], a[1..];
    forall i | 0 <= i < |rest|
      ensures rest[i].sequence > 0 && !Holds(h1, rest[i].sequence)
    {
      assert rest[i] == a[i + 1] && !Holds(h, a[i + 1].sequence);
      assert forall n :: 0 <= n < |h| ==> h1[n] == h[n];
    }
  }

  predicate SameCounts(s: seq<View>, h: seq<View>) {
    forall x: uint32 :: CountLarger(s, x) == CountLarger(h, x)
  }

  predicate SameContents(s: seq<View>, h: seq<View>) {
    multiset(s) == multiset([BLANK]) + multiset(h)
  }

  /** The blank packet, then the arrivals `h` in increasing order. */
  predicate Chain(s: seq<View>, h: seq<View>) {
    s != [] && s[0] == BLANK && Increasing(s) && SameCounts(s, h) && SameContents(s, h)
  }

  lemma {:induction false} NotInChain(s: seq<View>, h: seq<View>, x: uint32)
    requires Chain(s, h) && x > 0 && !Holds(h, x)
    ensures !Holds(s, x)
  {
    forall i | 0 <= i < |s|
      ensures s[i].sequence != x
    {
      assert s[i] in multiset(s);
      if s[i] != BLANK {
        assert s[i] in multiset(h);
        var n :| 0 <= n < |h| && h[n] == s[i];
      }
    }
  }

  lemma {:induction false} SpliceCounts(s: seq<View>, v: View, m: nat, x: uint32)
    requires m <= |s|
    ensures CountLarger(s[..m] + [v] + s[m..], x) == CountLarger(s + [v], x)
  {
    assert s == s[..m] + s[m..];
    CountLargerConcat(s[..m], s[m..], x);
    CountLargerConcat(s[..m] + [v], s[m..], x);
    CountLargerConcat(s[..m], [v], x);
    CountLargerConcat(s, [v], x);
  }

  lemma {:induction false} SpliceSameCounts(s: seq<View>, h: seq<View>, v: View, m: nat)
    requires m <= |s| && SameCounts(s, h)
    ensures SameCounts(s[..m] + [v] + s[m..], h + [v])
  {
    hide CountLarger;
    forall x: uint32
      ensures CountLarger(s[..m] + [v] + s[m..], x) == CountLarger(h + [v], x)
    {
      SpliceCounts(s, v, m, x);
      CountLargerConcat(s, [v], x);
      CountLargerConcat(h, [v], x);
      assert CountLarger(s, x) == CountLarger(h, x);
    }
  }

  lemma {:induction false} SpliceContents(s: seq<View>, h: seq<View>, v: View, m: nat)
    requires m <= |s| && SameContents(s, h)
    ensures SameContents(s[..m] + [v] + s[m..], h + [v])
  {
    SpliceMultiset(s, v, m);
    assert multiset(h + [v]) == multiset(h) + multiset([v]);
  }

  lemma {:induction false} ChainInsert(s: seq<View>, h: seq<View>, v: View)
    requires Chain(s, h) && v.sequence > 0 && !Holds(h, v.sequence)
    ensures var m := Place(s, v.sequence);
            1 <= m && Chain(s[..m] + [v] + s[m..], h + [v])
  {
    hide Insert, Holds, SameContents, SameCounts, Increasing;
    var m := Place(s, v.sequence);
    assert s[0].sequence == 0;
    NotInChain(s, h, v.sequence);
    InsertKeepsOrder(s, v);
    SpliceSameCounts(s, h, v, m);
    SpliceContents(s, h, v, m);
  }

  /** So far sorted; and once something was returned, the window is full. */
  predicate Sorting(k: nat, out: seq<View>, w: seq<View>, h: seq<View>) {
    k >= 1 && 1 <= |w| <= k && (out != [] ==> |w| == k) && Chain(out + w, h)
  }

  /** After the returned packets, the place in the window is the place in the whole. */
  lemma {:induction false} PlaceAfter(out: seq<View>, w: seq<View>, x: uint32)
    requires out == [] || out[|out| - 1].sequence < x
    ensures Place(out + w, x) == |out| + Place(w, x)
    decreases |w|
  {
    if w == [] {
      assert out + w == out;
    } else {
      assert (out + w)[..|out + w| - 1] == out + w[..|w| - 1];
      PlaceAfter(out, w[..|w| - 1], x);
    }
  }

  /** A packet that is not late continues the sorting. */
  lemma {:induction false} SortingStep(k: nat, out: seq<View>, w: seq<View>, h: seq<View>, v: View)
    requires Sorting(k, out, w, h) && v.sequence > 0 && !Holds(h, v.sequence)
    requires out == [] || out[|out| - 1].sequence < v.sequence
    ensures CountLarger(h, v.sequence) <= k
    ensures var one := Pop(k, Insert(w, v));
            Sorting(k, out + one.out, one.list, h + [v])
  {
    hide Insert, Holds, SameContents, SameCounts, CountLarger, Place, Increasing;
    var x, s := v.sequence, out + w;
    OnTime(k, out, w, h, x);
    ChainInsert(s, h, v);
    PlaceAfter(out, w, x);
    var i := Place(w, x);
    var w1 := w[..i] + [v] + w[i..];
    SpliceAfter(out, w, v, i);
    NotInWindow(out, w, h, x);
    InsertKeepsOrder(w, v);
    assert Insert(w, v) == w1;
    var one := Pop(k, w1);
    PopSplits(k, w1);
    Reassociate(out, one.out, one.list);
  }

  lemma {:induction false} Reassociate(a: seq<View>, b: seq<View>, c: seq<View>)
    ensures (a + b) + c == a + (b + c)
  {
  }

  lemma {:induction false} PopSplits(k: nat, w: seq<View>)
    requires k >= 1 && 1 <= |w| <= k + 1
    ensures var p := Pop(k, w);
            p.out + p.list == w && 1 <= |p.list| <= k && |p.list| == if |w| > k then k else |w|
  {
    if |w| > k {
      assert w == [w[0]] + w[1..];
    }
  }

  lemma {:induction false} SpliceAfter(out: seq<View>, w: seq<View>, v: View, i: nat)
    requires i <= |w|
    ensures var s, m := out + w, |out| + i;
            s[..m] + [v] + s[m..] == out + (w[..i] + [v] + w[i..])
  {
    var s, m := out + w, |out| + i;
    assert s[..m] == out + w[..i] && s[m..] == w[i..];
  }

  lemma {:induction false} SplitIncreasing(a: seq<View>, b: seq<View>)
    requires Increasing(a + b)
    ensures Increasing(a) && Increasing(b)
    ensures forall i, j :: 0 <= i < |a| && 0 <= j < |b| ==> a[i].sequence < b[j].sequence
  {
    var s := a + b;
    forall i, j | 0 <= i < |a| && 0 <= j < |b|
      ensures a[i].sequence < b[j].sequence
    {
      assert s[i] == a[i] && s[|a| + j] == b[j];
    }
    forall i, j | 0 <= i < j < |a|
      ensures a[i].sequence < a[j].sequence
    {
      assert s[i] == a[i] && s[j] == a[j];
    }
    forall i, j | 0 <= i < j < |b|
      ensures b[i].sequence < b[j].sequence
    {
      assert s[|a| + i] == b[i] && s[|a| + j] == b[j];
    }
  }

  lemma {:induction false} NotInWindow(out: seq<View>, w: seq<View>, h: seq<View>, x: uint32)
    requires Chain(out + w, h) && x > 0 && !Holds(h, x)
    ensures Increasing(w) && !Holds(w, x)
  {
    hide SameCounts, SameContents;
    var s := out + w;
    SplitIncreasing(out, w);
    NotInChain(s, h, x);
    forall i | 0 <= i < |w|
      ensures w[i].sequence != x
    {
      assert s[|out| + i] == w[i];
    }
  }

  /** A packet above everything returned is within its window. */
  lemma {:induction false} OnTime(k: nat, out: seq<View>, w: seq<View>, h: seq<View>, x: uint32)
    requires |w| <= k && Chain(out + w, h)
    requires out == [] || out[|out| - 1].sequence < x
    ensures CountLarger(h, x) <= k
  {
    hide CountLarger, SameContents;
    SplitIncreasing(out, w);
    CountLargerNone(out, x);
    CountLargerConcat(out, w, x);
    assert CountLarger(out + w, x) == CountLarger(h, x);
  }

  /** A packet below the last one returned is outside its window, and the next return is below it too. */
  lemma {:induction false} Late(k: nat, out: seq<View>, w: seq<View>, h: seq<View>, v: View)
    requires Sorting(k, out, w, h) && v.sequence > 0 && !Holds(h, v.sequence)
    requires out != [] && out[|out| - 1].sequence >= v.sequence
    ensures CountLarger(h, v.sequence) > k
    ensures var one := Pop(k, Insert(w, v));
            one.out != [] && one.out[0].sequence <= out[|out| - 1].sequence
  {
    hide Insert, Holds, SameContents, CountLarger;
    var x, s, n := v.sequence, out + w, |out| - 1;
    SplitIncreasing(out, w);
    NotInChain(s, h, x);
    assert out[n].sequence > x by {
      if out[n].sequence == x {
        HeldAt(s, n, out[n], x);
      }
    }
    CountLargerAll(w, x);
    CountLargerConcat(out, w, x);
    CountLargerConcat(out[..n], [out[n]], x);
    CountLargerOne(out[n], x);
    assert out == out[..n] + [out[n]];
    assert CountLarger(s, x) == CountLarger(h, x);
    InsertAt(w, v, 0);
  }

  lemma {:induction false} HeldAt(s: seq<View>, i: nat, v: View, x: uint32)
    requires i < |s| && s[i] == v && v.sequence == x
    ensures Holds(s, x)
  {
  }

  lemma {:induction false} NothingLate(k: nat, h: seq<View>)
    ensures WithinAfter(k, h, [])
  {
  }

  lemma {:induction false} BlankFirst(k: nat, out: seq<View>, w: seq<View>, h: seq<View>)
    requires Sorting(k, out, w, h)
    ensures Increasing(out) && (out != [] ==> out[0] == BLANK)
  {
    hide Holds, SameCounts, SameContents;
    SplitIncreasing(out, w);
    assert out != [] ==> (out + w)[0] == out[0];
  }

  /** From a sorting state on, the returned packets stay sorted exactly when all arrivals are within the window. */
  lemma {:induction false} SortsIff(k: nat, out: seq<View>, w: seq<View>, h: seq<View>, a: seq<View>)
    requires Sorting(k, out, w, h) && Fresh(h, a)
    ensures var end := RunPackets(k, w, a);
            && (Increasing(out + end.out) <==> WithinAfter(k, h, a))
            && (WithinAfter(k, h, a) ==> Sorting(k, out + end.out, end.list, h + a))
            && (end.out != [] && out == [] ==> end.out[0] == BLANK)
    decreases a
  {
    hide Insert, Holds, Chain, CountLarger, WithinAfter, Pop;
    if a == [] {
      assert out + [] == out && h + a == h;
      NothingLate(k, h);
      BlankFirst(k, out, w, h);
    } else {
      var v, rest := a[0], a[1..];
      FreshStep(h, a);
      WithinAfterStep(k, h, a);
      var one := Pop(k, Insert(w, v));
      var later := RunPackets(k, one.list, rest);
      Reassociate(out, one.out, later.out);
      if out == [] || out[|out| - 1].sequence < v.sequence {
        SortingStep(k, out, w, h, v);
        SortsIff(k, out + one.out, one.list, h + [v], rest);
        assert (h + [v]) + rest == h + a;
        BlankFirst(k, out + one.out, one.list, h + [v]);
      } else {
        Late(k, out, w, h, v);
        var all := out + (one.out + later.out);
        assert all[|out| - 1] == out[|out| - 1] && all[|out|] == one.out[0];
        assert !Increasing(all);
      }
    }
  }

  lemma {:induction false} WindowFromStart(k: nat, a: seq<View>)
    ensures WithinAfter(k, [], a) <==> WithinWindow(k, a)
  {
    hide CountLarger;
    forall j | 0 <= j < |a|
      ensures [] + a[..j] == a[..j]
    {
    }
  }

  lemma {:induction false} SortingStart(k: nat)
    requires k >= 1
    ensures Sorting(k, [], [BLANK], [])
  {
    assert [] + [BLANK] == [BLANK];
  }

  /**
   * The reorder window sorts exactly what it can: the packets returned over a
   * whole run are strictly increasing, the blank one first, if and only if every
   * packet is preceded in arrival by at most k packets with larger numbers.
   */
  lemma {:induction false} WindowSorts(k: nat, arrivals: seq<Option<View>>)
    requires k >= 1 && arrivals != [] && Fresh([], PacketsOf(arrivals[1..]))
    ensures var end := Run(k, [], arrivals);
            && (Increasing(end.out) <==> WithinWindow(k, PacketsOf(arrivals[1..])))
            && (end.out != [] ==> end.out[0] == BLANK)
            && (Increasing(end.out) ==> Chain(end.out + end.list, PacketsOf(arrivals[1..])))
  {
    hide WithinAfter, Chain, WithinWindow, Increasing, Fresh;
    var a := PacketsOf(arrivals[1..]);
    BlankOnce(k, arrivals);
    assert Increasing([BLANK]) by {
      OneIncreasing(BLANK);
    }
    EmptyCallsDoNothing(k, [BLANK], arrivals[1..]);
    SortingStart(k);
    SortsIff(k, [], [BLANK], [], a);
    WindowFromStart(k, a);
    var end := RunPackets(k, [BLANK], a);
    assert [] + end.out == end.out && [] + a == a;
  }

  lemma {:induction false} LeastUnique(s: seq<View>, t: seq<View>)
    requires Increasing(s) && Increasing(t) && multiset(s) == multiset(t) && s != [] && t != []
    ensures s[0] == t[0]
  {
    assert s[0] in multiset(t) && t[0] in multiset(s);
    var i :| 0 <= i < |t| && t[i] == s[0];
    var j :| 0 <= j < |s| && s[j] == t[0];
  }

  lemma {:induction false} TailContents(s: seq<View>)
    requires s != []
    ensures multiset(s[1..]) == multiset(s) - multiset([s[0]])
  {
    assert s == [s[0]] + s[1..];
  }

  /** Two increasing lists of the same packets are the same list. */
  lemma {:induction false} IncreasingUnique(s: seq<View>, t: seq<View>)
    requires Increasing(s) && Increasing(t) && multiset(s) == multiset(t)
    ensures s == t
    decreases |s|
  {
    if s == [] || t == [] {
      assert |multiset(s)| == |s| && |multiset(t)| == |t|;
    } else {
      LeastUnique(s, t);
      TailContents(s);
      TailContents(t);
      IncreasingUnique(s[1..], t[1..]);
      assert s == [s[0]] + s[1..] && t == [t[0]] + t[1..];
    }
  }

  /**
   * Restoring the order sent: if packets sent in increasing order arrive within
   * the window in any order, the run has returned and still holds, in this
   * sequence, the blank packet and the packets as sent.
   */
  lemma {:induction false} WindowRestores(k: nat, arrivals: seq<Option<View>>, sent: seq<View>)
    requires k >= 1 && arrivals != []
    requires Increasing(sent) && (sent != [] ==> sent[0].sequence > 0)
    requires multiset(PacketsOf(arrivals[1..])) == multiset(sent)
    requires WithinWindow(k, PacketsOf(arrivals[1..]))
    ensures var end := Run(k, [], arrivals);
            && end.out + end.list == [BLANK] + sent
            && |end.list| <= k
  {
    hide WithinWindow, CountLarger, Run, SameCounts, PacketsOf;
    var a := PacketsOf(arrivals[1..]);
    PermutedFresh(a, sent);
    WindowSorts(k, arrivals);
    var end := Run(k, [], arrivals);
    RunInvariantFromEmpty(k, arrivals);
    var s, t := end.out + end.list, [BLANK] + sent;
    assert multiset(t) == multiset([BLANK]) + multiset(sent);
    IncreasingUnique(s, t);
  }

  lemma {:induction false} RunInvariantFromEmpty(k: nat, arrivals: seq<Option<View>>)
    requires k >= 1
    ensures |Run(k, [], arrivals).list| <= k
  {
    RunInvariant(k, [], arrivals);
  }

  /** A rearrangement of increasing positive numbers is fresh. */
  lemma {:induction false} PermutedFresh(a: seq<View>, sent: seq<View>)
    requires Increasing(sent) && (sent != [] ==> sent[0].sequence > 0)
    requires multiset(a) == multiset(sent)
    ensures Fresh([], a)
  {
    forall i | 0 <= i < |a|
      ensures a[i].sequence > 0 && !Holds([], a[i].sequence)
    {
      assert a[i] in multiset(sent);
      var n :| 0 <= n < |sent| && sent[n] == a[i];
    }
    forall i, j | 0 <= i < j < |a|
      ensures a[i].sequence != a[j].sequence
    {
      assert a[i] in multiset(sent) && a[j] in multiset(sent);
      var n :| 0 <= n < |sent| && sent[n] == a[i];
      var m :| 0 <= m < |sent| && sent[m] == a[j];
      if n == m {
        TwiceIn(a, i, j);
        OnceIn(sent, n);
      }
    }
  }

  lemma {:induction false} TwiceIn(a: seq<View>, i: nat, j: nat)
    requires i < j < |a| && a[i] == a[j]
    ensures multiset(a)[a[i]] >= 2
  {
    assert a == a[..j] + [a[j]] + a[j + 1..];
    assert a[i] in a[..j];
    assert multiset(a) == multiset(a[..j]) + multiset([a[j]]) + multiset(a[j + 1..]);
  }

  lemma {:induction false} OnceIn(s: seq<View>, n: nat)
    requires Increasing(s) && n < |s|
    ensures multiset(s)[s[n]] == 1
  {
    assert s == s[..n] + [s[n]] + s[n + 1..];
    assert s[n] !in s[..n] && s[n] !in s[n + 1..];
    assert multiset(s) == multiset(s[..n]) + multiset([s[n]]) + multiset(s[n + 1..]);
  }

  // ------------------------------------------------------------------
  // Numbers that start over

  /** A packet with the greatest number there is can never be the front of two. */
  lemma {:induction false} TopStays(k: nat, w: seq<View>, a: seq<View>, top: uint32)
    requires k >= 1 && Increasing(w) && 1 <= |w| <= k
    requires forall i :: 0 <= i < |w| ==> w[i].sequence <= top
    requires forall i :: 0 <= i < |a| ==> a[i].sequence <= top
    ensures var end := RunPackets(k, w, a);
      && Increasing(end.list) && (forall i :: 0 <= i < |end.list| ==> end.list[i].sequence <= top)
      && (forall i :: 0 <= i < |end.out| ==> end.out[i].sequence < top)
    decreases a
  {
    hide Insert, Pop, Increasing;
    if a != [] {
      var in1 := Insert(w, a[0]);
      ArrivedInvariant(w, Some(a[0]));
      PopInvariant(k, in1);
      InsertKeepsOrder(w, a[0]);
      forall i | 0 <= i < |in1|
        ensures in1[i].sequence <= top
      {
      }
      PopBelow(k, in1, top);
      TopStays(k, Pop(k, in1).list, a[1..], top);
    }
  }

  lemma {:induction false} PopBelow(k: nat, w: seq<View>, top: uint32)
    requires k >= 1 && Increasing(w) && forall i :: 0 <= i < |w| ==> w[i].sequence <= top
    ensures var p := Pop(k, w);
      && (forall i :: 0 <= i < |p.list| ==> p.list[i].sequence <= top)
      && (forall i :: 0 <= i < |p.out| ==> p.out[i].sequence < top)
  {
    if |w| > k {
      assert w[0].sequence < w[1].sequence;
    }
  }

  lemma {:induction false} TopOnlyLast(out: seq<View>, list: seq<View>, top: uint32)
    requires Increasing(list) && forall i :: 0 <= i < |list| ==> list[i].sequence <= top
    requires forall i :: 0 <= i < |out| ==> out[i].sequence < top
    ensures forall p :: 0 <= p < |out| + |list| - 1 ==> (out + list)[p].sequence < top
  {
    forall p | 0 <= p < |out| + |list| - 1
      ensures (out + list)[p].sequence < top
    {
      if p >= |out| {
        assert list[p - |out|].sequence < list[p - |out| + 1].sequence;
      }
    }
  }

  /** Nothing is returned or held that was not there or did not arrive. */
  lemma {:induction false} RunLength(k: nat, w: seq<View>, a: seq<View>)
    ensures var end := RunPackets(k, w, a); |end.out| + |end.list| <= |w| + |a|
    decreases a
  {
    hide Insert;
    if a != [] {
      InsertLength(w, a[0]);
      RunLength(k, Pop(k, Insert(w, a[0])).list, a[1..]);
    }
  }

  lemma {:induction false} InsertLength(w: seq<View>, v: View)
    ensures |Insert(w, v)| <= |w| + 1
    decreases |w|
  {
    if w != [] {
      InsertLength(w[..|w| - 1], v);
    }
  }
}
