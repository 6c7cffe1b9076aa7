/** Loss accounting of received RTP packets: lostcalc of baresip/src/stream.c, after appendix A.1 of
  RFC 3550.

  The procedure sees 16-bit sequence numbers only.  The main result relates it to the numbers that
  a sender would count without wrapping around. */
module RtpLoss {

  const NONE := 0xFFFF_FFFF

  type uint16 = x: int | 0 <= x < 0x1_0000
  type uint32 = x: int | 0 <= x < 0x1_0000_0000

  /** No packet yet, or the number of the newest packet. */
  ghost predicate Inv(pseq: uint32) {
    pseq == NONE || pseq < 0x1_0000
  }

  /** The difference of a 16-bit and a 32-bit number, stored in 16 bits. */
  function Delta(pseq: uint32, s: uint16): uint16 {
    (s - pseq) % 0x1_0000
  }

  /** The newest packet and the result after a packet. */
  function Step(pseq: uint32, s: uint16): (r: (uint32, int))
    ensures Inv(pseq) ==> Inv(r.0)
    ensures r.1 < 0 ==> r.0 == pseq
    ensures r.1 >= 0 ==> r.0 == s
  {
    var delta := Delta(pseq, s);
    if pseq == NONE then (s, 0)
    else if delta == 0 then (pseq, -1)
    else if delta < 3000 then (s, delta - 1)
    else if delta < 0xff9c then (s, 0)
    else (pseq, -2)
  }

  /** lostcalc's state. */
  class Receiver {
    var pseq: uint32

    constructor ()
      ensures pseq == NONE
    {
      pseq := NONE;
    }

    method LostCalc(s: uint16) returns (lostc: int)
      modifies this
      ensures (pseq, lostc) == old(Step(pseq, s))
      ensures old(Inv(pseq)) ==> Inv(pseq)
    {
      var delta := Delta(pseq, s);
      if pseq == NONE {
        lostc := 0;
      } else if delta == 0 {
        return -1;
      } else if delta < 3000 {
        lostc := delta - 1;
      } else if delta < 0xff9c {
        lostc := 0;
      } else {
        return -2;
      }
      pseq := s;
    }
  }

  // ---------------------------------------------------------------- against unwrapped numbers

  /** The 16 bits of a number that are transmitted. */
  function Wire(e: nat): uint16 {
    e % 0x1_0000
  }

  function Max(a: nat, b: nat): (m: nat)
    ensures m >= a && m >= b && (m == a || m == b)
  {
    if a < b then b else a
  }

  /** What the result says of a packet, for unwrapped numbers: `e` is the packet's, `h` the newest.
      Exactly the packets that are at most 100 behind are refused, and exactly those less than 3000
      ahead have their gap counted, as long as e stays within 65436 of h. */
  lemma StepMeans(h: nat, e: nat)
    requires h - 100 <= e < h + 0xff9c
    ensures var (p, lostc) := Step(Wire(h), Wire(e));
            p == Wire(Max(h, e)) &&
            (lostc == -1 <==> e == h) &&
            (lostc == -2 <==> e < h) &&
            (h < e < h + 3000 ==> lostc == e - h - 1) &&
            (h + 3000 <= e ==> lostc == 0)
  {
    var d := Delta(Wire(h), Wire(e));
    assert d == (e - h) % 0x1_0000 by {
      WireDifference(h, e);
    }
  }

  lemma WireDifference(h: nat, e: nat)
    ensures (Wire(e) - Wire(h)) % 0x1_0000 == (e - h) % 0x1_0000
  {
    var n := 0x1_0000;
    assert e == n * (e / n) + e % n && h == n * (h / n) + h % n;
    assert e - h == n * (e / n - h / n) + (e % n - h % n);
    ModuloShift(e % n - h % n, e / n - h / n);
  }

  lemma {:induction false} ModuloShift(x: int, k: int)
    ensures (0x1_0000 * k + x) % 0x1_0000 == x % 0x1_0000
    decreases if k < 0 then -k else k
  {
    if k > 0 {
      ModuloShift(x, k - 1);
      assert 0x1_0000 * k + x == (0x1_0000 * (k - 1) + x) + 0x1_0000;
    } else if k < 0 {
      ModuloShift(x, k + 1);
      assert 0x1_0000 * k + x == (0x1_0000 * (k + 1) + x) - 0x1_0000;
    }
  }

  function Run(pseq: uint32, s: seq<uint16>): (r: (uint32, seq<int>))
    ensures Inv(pseq) ==> Inv(r.0)
    ensures |r.1| == |s|
    decreases |s|
  {
    if s == [] then (pseq, []) else
      var (p, lostc) := Step(pseq, s[0]);
      var (q, rest) := Run(p, s[1..]);
      (q, [lostc] + rest)
  }

  function Wires(es: seq<nat>): (s: seq<uint16>)
    ensures |s| == |es|
  {
    seq(|es|, i requires 0 <= i < |es| => Wire(es[i]))
  }

  /** Packets and losses accounted for: lost + 1 for every packet that was accepted. */
  function Accounted(results: seq<int>): (n: nat)
    decreases |results|
  {
    if results == [] then 0 else (if results[0] < 0 then 0 else results[0] + 1) + Accounted(results[1..])
  }

  function Newest(h: nat, es: seq<nat>): (m: nat)
    ensures m >= h
    decreases |es|
  {
    if es == [] then h else Newest(Max(h, es[0]), es[1..])
  }

  /** Every packet is at most 100 behind and less than 3000 ahead of the newest one before it. */
  ghost predicate NoJump(h: nat, es: seq<nat>)
    decreases |es|
  {
    es == [] || (h - 100 <= es[0] < h + 3000 && NoJump(Max(h, es[0]), es[1..]))
  }

  /** Conservation: between jumps, whatever the reordering and duplication and however often the
      16-bit numbers wrap around, packets accepted plus packets counted as lost are the advance of
      the sender's numbers, and the receiver knows the newest of them. */
  lemma {:induction false} Conservation(h: nat, es: seq<nat>)
    requires NoJump(h, es)
    ensures var (p, results) := Run(Wire(h), Wires(es));
            p == Wire(Newest(h, es)) && Accounted(results) == Newest(h, es) - h
    decreases |es|
  {
    if es != [] {
      StepMeans(h, es[0]);
      Conservation(Max(h, es[0]), es[1..]);
      assert Wires(es)[1..] == Wires(es[1..]);
      var (p, lostc) := Step(Wire(h), Wires(es)[0]);
      var (q, rest) := Run(p, Wires(es)[1..]);
      assert ([lostc] + rest)[1..] == rest;
    }
  }

  /** The same from the creation of the stream: the first packet itself counts one. */
  lemma ConservationFromStart(first: nat, es: seq<nat>)
    requires NoJump(first, es)
    ensures var (p, results) := Run(NONE, Wires([first] + es));
            p == Wire(Newest(first, es)) && Accounted(results) == Newest(first, es) - first + 1
  {
    Conservation(first, es);
    var all := Wires([first] + es);
    assert all[0] == Wire(first) && all[1..] == Wires(es);
    var (p, results) := Run(Wire(first), all[1..]);
    assert ([0] + results)[1..] == results;
  }

  /** Packets that are refused leave no trace: a run gives the same state and the same account
      without them. */
  lemma {:induction false} RefusedLeaveNoTrace(pseq: uint32, s: seq<uint16>, t: seq<uint16>, x: uint16)
    requires Step(Run(pseq, s).0, x).1 < 0
    ensures Run(pseq, s + [x] + t).0 == Run(pseq, s + t).0
    ensures Accounted(Run(pseq, s + [x] + t).1) == Accounted(Run(pseq, s + t).1)
    decreases |s|
  {
    hide Step;
    if s == [] {
      assert s + [x] + t == [x] + t && s + t == t && ([x] + t)[1..] == t;
      var rest := Run(pseq, t).1;
      assert ([Step(pseq, x).1] + rest)[1..] == rest;
    } else {
      var (p, lostc) := Step(pseq, s[0]);
      RefusedLeaveNoTrace(p, s[1..], t, x);
      assert (s + [x] + t)[1..] == s[1..] + [x] + t && (s + t)[1..] == s[1..] + t;
      var a, b := Run(p, s[1..] + [x] + t).1, Run(p, s[1..] + t).1;
      assert ([lostc] + a)[1..] == a && ([lostc] + b)[1..] == b;
    }
  }
}
