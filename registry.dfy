/**
 * The connection registry of the chat server: the descriptor table
 * `client[FD_SETSIZE]` (a free slot holds -1), the peer address of every
 * slot, the interest set `allset` handed to `select`, and the two scan
 * bounds `maxi` (highest index ever used) and `maxfd` (highest descriptor).
 *
 * This module describes the registry as a value; the class in module
 * ChatServer holds the same state in place and its methods are proved
 * against the functions defined here.
 */
module ConnectionRegistry {

  /** FD_SETSIZE on Linux: the number of slots of the descriptor table. */
  const FdSetSize: nat := 1024

  /** What a free slot of the descriptor table holds. */
  const Free: int := -1

  /** A snapshot of the registry. `slots[j]` is `client[j]`, `addrs[j]` is
      `client_address_arr[j]` (kept as opaque text). */
  datatype Registry = Registry(
    listener: int,
    slots: seq<int>,
    addrs: seq<string>,
    interest: set<int>,
    maxi: int,
    maxfd: int)

  /** The descriptors held by occupied slots. */
  function ActiveFds(slots: seq<int>): set<int>
  {
    set j | 0 <= j < |slots| && slots[j] >= 0 :: slots[j]
  }

  /** The registry invariant: the interest set is exactly the listener plus
      every occupied slot's descriptor, every occupied index is within the
      scan bound `maxi`, every descriptor is within `maxfd`, and no descriptor
      is held twice or by the listener and a slot at once. */
  ghost predicate RegistryOk(r: Registry)
  {
    && |r.slots| == FdSetSize
    && |r.addrs| == FdSetSize
    && 0 <= r.listener <= r.maxfd
    && -1 <= r.maxi < FdSetSize
    && (forall j :: 0 <= j < |r.slots| ==> r.slots[j] == Free || r.slots[j] >= 0)
    && (forall j :: 0 <= j < |r.slots| && r.slots[j] >= 0 ==>
          j <= r.maxi && r.slots[j] <= r.maxfd && r.slots[j] != r.listener)
    && (forall j, k :: 0 <= j < k < |r.slots| && r.slots[j] >= 0 ==> r.slots[j] != r.slots[k])
    && r.interest == {r.listener} + ActiveFds(r.slots)
  }

  /** The registry right after start-up (server.cpp:101-108). */
  function Initial(listener: int): Registry
  {
    Registry(listener, seq(FdSetSize, _ => Free), seq(FdSetSize, _ => ""), {listener}, -1, listener)
  }

  /** Every slot free, `maxi` is -1, the interest set holds only the
      listener, and the first admission goes to slot 0. */
  lemma InitialIsEmpty(listener: int)
    requires listener >= 0
    ensures var r := Initial(listener);
      && RegistryOk(r)
      && (forall j :: 0 <= j < FdSetSize ==> r.slots[j] == Free)
      && r.maxi == -1 && r.maxfd == listener
      && r.interest == {listener}
      && FirstFree(r.slots, 0) == 0
  {
    var r := Initial(listener);
    assert ActiveFds(r.slots) == {};
  }

  /** The lowest free slot at or after `from`, or `|slots|` when every such
      slot is taken: the search loop of server.cpp:123-130. */
  function FirstFree(slots: seq<int>, from: nat): (i: nat)
    requires from <= |slots|
    ensures from <= i <= |slots|
    ensures forall j :: from <= j < i ==> slots[j] >= 0
    ensures i < |slots| ==> slots[i] < 0
    decreases |slots| - from
  {
    if from == |slots| then from
    else if slots[from] < 0 then from
    else FirstFree(slots, from + 1)
  }

  /** A free slot with every slot before it taken is the lowest free one. */
  lemma {:induction false} FirstFreeAt(slots: seq<int>, from: nat, i: nat)
    requires from <= i < |slots| && slots[i] < 0
    requires forall j :: from <= j < i ==> slots[j] >= 0
    ensures FirstFree(slots, from) == i
    decreases i - from
  {
    if from < i {
      FirstFreeAt(slots, from + 1, i);
    }
  }

  /** The outcome of admitting a descriptor: the new registry and the slot
      used, or a full table (the fatal "Too many clients" path). */
  datatype AdmitOutcome = Admitted(reg: Registry, index: nat) | TableFull

  /** Admission of an accepted descriptor (server.cpp:123-142). */
  function Admission(r: Registry, sd: int, peer: string): AdmitOutcome
    requires |r.addrs| == |r.slots|
  {
    var i := FirstFree(r.slots, 0);
    if i == |r.slots| then TableFull
    else
      Admitted(r.(slots := r.slots[i := sd],
                  addrs := r.addrs[i := peer],
                  interest := r.interest + {sd},
                  maxfd := if sd > r.maxfd then sd else r.maxfd,
                  maxi := if i > r.maxi then i else r.maxi), i)
  }

  /** Admission fails exactly when every slot is taken; otherwise it stores
      the descriptor and the address in the lowest free slot, changes no other
      slot, adds the descriptor to the interest set and raises the scan bounds
      to cover it without ever lowering them. */
  lemma AdmissionUsesLowestFree(r: Registry, sd: int, peer: string)
    requires |r.addrs| == |r.slots|
    ensures Admission(r, sd, peer).TableFull? <==> forall j :: 0 <= j < |r.slots| ==> r.slots[j] >= 0
    ensures Admission(r, sd, peer).Admitted? ==>
      var a := Admission(r, sd, peer);
      var i := a.index;
      && i < |r.slots| && r.slots[i] < 0
      && (forall j :: 0 <= j < i ==> r.slots[j] >= 0)
      && |a.reg.slots| == |r.slots| && |a.reg.addrs| == |r.addrs|
      && a.reg.slots[i] == sd && a.reg.addrs[i] == peer
      && (forall j :: 0 <= j < |r.slots| && j != i ==>
            a.reg.slots[j] == r.slots[j] && a.reg.addrs[j] == r.addrs[j])
      && a.reg.interest == r.interest + {sd}
      && a.reg.listener == r.listener
      && sd <= a.reg.maxfd && i <= a.reg.maxi
      && r.maxfd <= a.reg.maxfd && r.maxi <= a.reg.maxi
  {
    var i := FirstFree(r.slots, 0);
    if forall j :: 0 <= j < |r.slots| ==> r.slots[j] >= 0 {
      assert i == |r.slots|;
    }
  }

  /** Filling a free slot adds exactly the new descriptor to ActiveFds. */
  lemma ActiveAfterFill(slots: seq<int>, i: nat, sd: int)
    requires i < |slots| && slots[i] < 0 && sd >= 0
    ensures ActiveFds(slots[i := sd]) == ActiveFds(slots) + {sd}
  {
    var s := slots[i := sd];
    forall x | x in ActiveFds(s) ensures x in ActiveFds(slots) + {sd} {
      var j :| 0 <= j < |s| && s[j] >= 0 && s[j] == x;
      if j != i {
        assert slots[j] >= 0 && slots[j] == x;
      }
    }
    forall x | x in ActiveFds(slots) + {sd} ensures x in ActiveFds(s) {
      if x == sd {
        assert s[i] == sd;
      } else {
        var j :| 0 <= j < |slots| && slots[j] >= 0 && slots[j] == x;
        assert j != i && s[j] == x;
      }
    }
  }

  /** Freeing a slot whose descriptor no other slot holds removes exactly
      that descriptor from ActiveFds. */
  lemma ActiveAfterFree(slots: seq<int>, i: nat)
    requires i < |slots| && slots[i] >= 0
    requires forall j :: 0 <= j < |slots| && j != i ==> slots[j] != slots[i]
    ensures ActiveFds(slots[i := Free]) == ActiveFds(slots) - {slots[i]}
  {
    var s := slots[i := Free];
    forall x | x in ActiveFds(s) ensures x in ActiveFds(slots) - {slots[i]} {
      var j :| 0 <= j < |s| && s[j] >= 0 && s[j] == x;
      assert j != i && slots[j] == x;
    }
    forall x | x in ActiveFds(slots) - {slots[i]} ensures x in ActiveFds(s) {
      var j :| 0 <= j < |slots| && slots[j] >= 0 && slots[j] == x;
      assert j != i && s[j] == x;
    }
  }

  /** Filling a free slot with a descriptor no slot holds keeps every
      descriptor held once. */
  lemma FillKeepsDistinct(slots: seq<int>, i: nat, sd: int)
    requires i < |slots| && slots[i] < 0 && sd >= 0 && sd !in ActiveFds(slots)
    requires forall j, k :: 0 <= j < k < |slots| && slots[j] >= 0 ==> slots[j] != slots[k]
    ensures var s := slots[i := sd];
      forall j, k :: 0 <= j < k < |s| && s[j] >= 0 ==> s[j] != s[k]
  {
    var s := slots[i := sd];
    forall j, k | 0 <= j < k < |s| && s[j] >= 0 ensures s[j] != s[k] {
      if j == i {
        assert s[k] == slots[k] && (slots[k] >= 0 ==> slots[k] in ActiveFds(slots));
      } else if k == i {
        assert slots[j] in ActiveFds(slots);
      }
    }
  }

  /** Storing a descriptor that is not open in a free slot, with the scan
      bounds raised to cover it, keeps the registry invariant. */
  lemma FillKeepsOk(r: Registry, i: nat, sd: int, peer: string)
    requires RegistryOk(r) && i < |r.slots| && r.slots[i] < 0 && sd >= 0 && sd !in r.interest
    ensures RegistryOk(r.(slots := r.slots[i := sd],
                          addrs := r.addrs[i := peer],
                          interest := r.interest + {sd},
                          maxfd := if sd > r.maxfd then sd else r.maxfd,
                          maxi := if i > r.maxi then i else r.maxi))
  {
    assert sd !in ActiveFds(r.slots);
    ActiveAfterFill(r.slots, i, sd);
    FillKeepsDistinct(r.slots, i, sd);
  }

  /** Admitting a descriptor that is not open (accept never returns one
      that is) keeps the registry invariant. */
  lemma AdmissionKeepsOk(r: Registry, sd: int, peer: string)
    requires RegistryOk(r) && sd >= 0 && sd !in r.interest
    ensures Admission(r, sd, peer).Admitted? ==> RegistryOk(Admission(r, sd, peer).reg)
  {
    var i := FirstFree(r.slots, 0);
    if i < |r.slots| {
      FillKeepsOk(r, i, sd, peer);
    }
  }

  /** Retirement of slot `i` holding `fd`: `clean` (server.cpp:233-239). */
  function Cleaned(r: Registry, i: nat, fd: int): Registry
    requires i < |r.slots|
  {
    r.(slots := r.slots[i := Free], interest := r.interest - {fd})
  }

  /** `clean` frees slot `i` and takes its descriptor out of the interest
      set; every other slot, every address, `maxi` and `maxfd` stay as they
      were, and the freed index becomes the next admission's slot unless a
      lower one is already free. */
  lemma CleanedFreesSlot(r: Registry, i: nat)
    requires i < |r.slots| && r.slots[i] >= 0
    ensures var c := Cleaned(r, i, r.slots[i]);
      && |c.slots| == |r.slots| && c.slots[i] == Free
      && (forall j :: 0 <= j < |r.slots| && j != i ==> c.slots[j] == r.slots[j])
      && r.slots[i] !in c.interest
      && c.addrs == r.addrs && c.listener == r.listener
      && c.maxi == r.maxi && c.maxfd == r.maxfd
      && FirstFree(c.slots, 0) == if FirstFree(r.slots, 0) < i then FirstFree(r.slots, 0) else i
  {
    var c := Cleaned(r, i, r.slots[i]);
    var before, after := FirstFree(r.slots, 0), FirstFree(c.slots, 0);
    if before < i {
      assert c.slots[before] < 0;
    } else {
      assert c.slots[i] < 0;
      assert forall j :: 0 <= j < i ==> c.slots[j] >= 0;
    }
  }

  /** Retiring an occupied slot keeps the registry invariant. */
  lemma CleanedKeepsOk(r: Registry, i: nat)
    requires RegistryOk(r) && i < |r.slots| && r.slots[i] >= 0
    ensures RegistryOk(Cleaned(r, i, r.slots[i]))
  {
    forall j | 0 <= j < |r.slots| && j != i ensures r.slots[j] != r.slots[i] {
      if j < i {
        assert r.slots[j] >= 0 ==> r.slots[j] != r.slots[i];
      }
    }
    ActiveAfterFree(r.slots, i);
  }

  /** One registry-changing step of the server: an accepted connection or the
      retirement of a slot. */
  datatype Op = Accept(sd: int, peer: string) | Retire(index: nat)

  /** The step can be taken: accept handed out a descriptor that is not open
      and a slot is free (a full table ends the process), or the retired slot
      is occupied (`clean` is only called on a slot being serviced). */
  ghost predicate Legal(r: Registry, op: Op)
  {
    && |r.addrs| == |r.slots|
    && match op
       case Accept(sd, peer) => sd >= 0 && sd !in r.interest && Admission(r, sd, peer).Admitted?
       case Retire(i) => i < |r.slots| && r.slots[i] >= 0
  }

  function Apply(r: Registry, op: Op): Registry
    requires Legal(r, op)
  {
    match op
    case Accept(sd, peer) => Admission(r, sd, peer).reg
    case Retire(i) => Cleaned(r, i, r.slots[i])
  }

  ghost predicate LegalHistory(r: Registry, ops: seq<Op>)
    decreases |ops|
  {
    ops == [] || (Legal(r, ops[0]) && LegalHistory(Apply(r, ops[0]), ops[1..]))
  }

  function Replay(r: Registry, ops: seq<Op>): Registry
    requires LegalHistory(r, ops)
    decreases |ops|
  {
    if ops == [] then r else Replay(Apply(r, ops[0]), ops[1..])
  }

  /** Across any sequence of admissions and retirements the registry
      invariant holds, the listener stays, and neither `maxi` nor `maxfd`
      ever decreases. */
  lemma {:induction false} ReplayKeepsOk(r: Registry, ops: seq<Op>)
    requires RegistryOk(r) && LegalHistory(r, ops)
    ensures var f := Replay(r, ops);
      RegistryOk(f) && f.listener == r.listener && f.maxi >= r.maxi && f.maxfd >= r.maxfd
    decreases |ops|
  {
    if ops != [] {
      var n := Apply(r, ops[0]);
      match ops[0] {
        case Accept(sd, peer) =>
          AdmissionKeepsOk(r, sd, peer);
          AdmissionUsesLowestFree(r, sd, peer);
        case Retire(i) =>
          CleanedKeepsOk(r, i);
      }
      ReplayKeepsOk(n, ops[1..]);
    }
  }
}
