/**
 * Two concrete runs of the server, from start-up, stated over the wake
 * function: a message forwarded among three clients, and a client leaving
 * with the sentinel and its slot being taken again.
 */
module Scenarios {
  import opened ConnectionRegistry
  import opened MessageReader
  import opened Frames
  import opened Dispatcher
  import opened Multiplexer

  /** A receive buffer holding only NUL bytes. */
  function Zeroes(): (b: seq<char>)
    ensures |b| == BufLen && forall k :: 0 <= k < |b| ==> b[k] == '\0'
  {
    seq(BufLen, _ => '\0')
  }

  /** The registry after clients `a`, `b` and `c` (from `pa`, `pb`, `pc`)
      have connected, in that order, to a fresh server. */
  function ThreeClients(listener: int, a: int, b: int, c: int, pa: string, pb: string, pc: string): Registry
  {
    var r0 := Initial(listener);
    var r1 := r0.(slots := r0.slots[0 := a], addrs := r0.addrs[0 := pa], interest := r0.interest + {a},
                  maxfd := if a > r0.maxfd then a else r0.maxfd, maxi := 0);
    var r2 := r1.(slots := r1.slots[1 := b], addrs := r1.addrs[1 := pb], interest := r1.interest + {b},
                  maxfd := if b > r1.maxfd then b else r1.maxfd, maxi := 1);
    r2.(slots := r2.slots[2 := c], addrs := r2.addrs[2 := pc], interest := r2.interest + {c},
        maxfd := if c > r2.maxfd then c else r2.maxfd, maxi := 2)
  }

  /** Admission into slot `i` when it is the lowest free one. */
  lemma AdmissionAt(r: Registry, sd: int, peer: string, i: nat)
    requires |r.addrs| == |r.slots| && i < |r.slots| && r.slots[i] < 0
    requires forall j :: 0 <= j < i ==> r.slots[j] >= 0
    ensures Admission(r, sd, peer)
         == Admitted(r.(slots := r.slots[i := sd], addrs := r.addrs[i := peer], interest := r.interest + {sd},
                        maxfd := if sd > r.maxfd then sd else r.maxfd, maxi := if i > r.maxi then i else r.maxi), i)
  {
    FirstFreeAt(r.slots, 0, i);
  }

  /** Three connections are admitted as slots 0, 1 and 2. */
  lemma ThreeAdmissions(listener: int, a: int, b: int, c: int, pa: string, pb: string, pc: string)
    requires 0 <= listener && 0 <= a && 0 <= b && 0 <= c
    ensures var r0 := Initial(listener);
      var a1 := Admission(r0, a, pa);
      && a1.Admitted? && a1.index == 0
      && var a2 := Admission(a1.reg, b, pb);
      && a2.Admitted? && a2.index == 1
      && var a3 := Admission(a2.reg, c, pc);
      && a3.Admitted? && a3.index == 2
      && a3.reg == ThreeClients(listener, a, b, c, pa, pb, pc)
  {
    var r0 := Initial(listener);
    AdmissionAt(r0, a, pa, 0);
    var r1 := Admission(r0, a, pa).reg;
    AdmissionAt(r1, b, pb, 1);
    var r2 := Admission(r1, b, pb).reg;
    AdmissionAt(r2, c, pc, 2);
  }

  /** The registry of three clients with distinct descriptors, none of them
      the listener's, is sound. */
  lemma ThreeClientsOk(listener: int, a: int, b: int, c: int, pa: string, pb: string, pc: string)
    requires 0 <= listener && 0 <= a && 0 <= b && 0 <= c
    requires listener != a && listener != b && listener != c && a != b && a != c && b != c
    ensures RegistryOk(ThreeClients(listener, a, b, c, pa, pb, pc))
  {
    ThreeAdmissions(listener, a, b, c, pa, pb, pc);
    var r0 := Initial(listener);
    InitialIsEmpty(listener);
    AdmissionKeepsOk(r0, a, pa);
    var r1 := Admission(r0, a, pa).reg;
    AdmissionKeepsOk(r1, b, pb);
    var r2 := Admission(r1, b, pb).reg;
    AdmissionKeepsOk(r2, c, pc);
  }

  /** "hello" read into an all-NUL buffer is the C string "hello" and is
      not the sentinel. */
  lemma HelloInBuffer()
    ensures var buf' := Fill(Zeroes(), "hello");
      |buf'| == BufLen && !ExitRequested(buf') && CString(buf') == "hello"
  {
    var buf' := Fill(Zeroes(), "hello");
    assert buf'[5] == '\0';
    UntilOf("hello", buf'[5..], '\0');
    assert buf' == "hello" + buf'[5..];
  }

  /** Slot 1's frame goes to slots 0 and 2, in that order. */
  lemma BroadcastFromMiddle(slots: seq<int>, a: int, b: int, c: int, f: string)
    requires |slots| > 2 && slots[0] == a && slots[1] == b && slots[2] == c
    requires 0 <= a && 0 <= c && a != b && c != b
    ensures Broadcast(slots, 2, b, f, 0) == [Send(a, f), Send(c, f)]
  {
    assert Broadcast(slots, 2, b, f, 3) == [];
    assert Broadcast(slots, 2, b, f, 1) == [Send(c, f)];
  }

  /** A wake in which only client `b` (slot 1) is ready and sends "hello":
      clients `a` and `c` each receive "1::::<pb>:::hello", in that order, and
      `b` receives nothing. */
  lemma HelloReachesTheOthers(listener: int, a: int, b: int, c: int, pa: string, pb: string, pc: string)
    requires 0 <= listener && 0 <= a && 0 <= b && 0 <= c
    requires listener != a && listener != b && listener != c && a != b && a != c && b != c
    ensures var r := ThreeClients(listener, a, b, c, pa, pb, pc);
      var feed := map[b := [ReadReturn(5, "hello"), ReadReturn(0, "")]];
      && RegistryOk(r)
      && var w := Wake(r, Zeroes(), {b}, -1, "", feed);
      && w.outcome == Running && w.reg == r
      && w.events == [Received(1, pb, "hello")]
      && w.sends == [Send(a, "1::::" + pb + ":::hello"), Send(c, "1::::" + pb + ":::hello")]
  {
    ThreeClientsOk(listener, a, b, c, pa, pb, pc);
    var r := ThreeClients(listener, a, b, c, pa, pb, pc);
    var feed := map[b := [ReadReturn(5, "hello"), ReadReturn(0, "")]];
    assert Drained(feed[b]) == "hello";
    HelloInBuffer();
    var f := Frame(1, pb, "hello");
    assert f == "1::::" + pb + ":::hello";
    BroadcastFromMiddle(r.slots, a, b, c, f);
    assert r.addrs[1] == pb && r.slots[0] !in {b} && r.slots[1] in {b};
    assert Scan(r, Zeroes(), {b}, feed, 1, 0) == Scan(r, Zeroes(), {b}, feed, 1, 1);
    assert |{b}| == 1 && r.listener !in {b};
  }

  /** "~!" read into an all-NUL buffer is the sentinel. */
  lemma SentinelInBuffer()
    ensures var buf' := Fill(Zeroes(), "~!");
      |buf'| == BufLen && ExitRequested(buf')
  {
  }

  /** A wake in which only client `a` (slot 0) is ready and sends "~!": the
      slot is retired, its descriptor leaves the interest set, nothing is
      written, and the next connection is admitted into slot 0 again. */
  lemma SentinelFreesSlotForReuse(listener: int, a: int, b: int, c: int, pa: string, pb: string, pc: string,
                                  d: int, pd: string)
    requires 0 <= listener && 0 <= a && 0 <= b && 0 <= c
    requires listener != a && listener != b && listener != c && a != b && a != c && b != c
    ensures var r := ThreeClients(listener, a, b, c, pa, pb, pc);
      var feed := map[a := [ReadReturn(2, "~!"), ReadReturn(0, "")]];
      && RegistryOk(r)
      && var w := Wake(r, Zeroes(), {a}, -1, "", feed);
      && w.outcome == Running
      && w.events == [Departed(0, pa)] && w.sends == []
      && |w.reg.slots| == FdSetSize && w.reg.slots[0] == Free && a !in w.reg.interest
      && |w.reg.addrs| == FdSetSize
      && Admission(w.reg, d, pd).Admitted? && Admission(w.reg, d, pd).index == 0
  {
    ThreeClientsOk(listener, a, b, c, pa, pb, pc);
    var r := ThreeClients(listener, a, b, c, pa, pb, pc);
    var feed := map[a := [ReadReturn(2, "~!"), ReadReturn(0, "")]];
    assert |{a}| == 1 && r.listener !in {a};
    var s := Scan(r, Zeroes(), {a}, feed, 1, 0);
    WakeJoin(r, Zeroes(), {a}, -1, "", feed, [], r, 1, s);
    assert Drained(feed[a]) == "~!";
    SentinelInBuffer();
    assert r.slots[0] == a && r.addrs[0] == pa && r.slots[0] in {a};
    assert s == WakeResult(Running, Cleaned(r, 0, a), Fill(Zeroes(), "~!"), [Departed(0, pa)], []);
    AdmissionAt(s.reg, d, pd, 0);
  }
}
