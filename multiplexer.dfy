/**
 * One readiness wake of the server loop (server.cpp:110-184), as a
 * function of the registry, the receive buffer and what the kernel reports:
 * the ready set `rset`, the result of `accept` and, per ready descriptor,
 * the returns of its reads. `nready` is the size of the ready set, which is
 * what `select` returns.
 *
 * The class in module ChatServer performs the same wake in place and is
 * proved to end in the state and with the outputs this function gives.
 */
module Multiplexer {
  import opened ConnectionRegistry
  import opened MessageReader
  import opened Frames
  import opened Dispatcher

  /** The lifecycle notifications the server prints: a new connection, a
      client leaving with the sentinel, and a message being forwarded. */
  datatype Event =
    | Connected(index: nat, addr: string)
    | Departed(index: nat, addr: string)
    | Received(index: nat, addr: string, text: string)

  /** `SystemFatal("accept error")` and "Too many clients": both end the
      process. */
  datatype FatalReason = AcceptFailed | TooManyClients

  datatype Outcome = Running | Fatal(reason: FatalReason)

  /** What a wake leaves behind and what it did. */
  datatype WakeResult = WakeResult(
    outcome: Outcome,
    reg: Registry,
    buf: seq<char>,
    events: seq<Event>,
    sends: seq<Send>)

  /** What the data scan needs of the registry and the buffer. */
  ghost predicate ScanShape(r: Registry, buf: seq<char>)
  {
    && |r.addrs| == |r.slots|
    && -1 <= r.maxi < |r.slots|
    && |buf| == BufLen
    && r.listener >= 0
    && (forall j :: 0 <= j < |r.slots| ==> r.slots[j] != r.listener)
  }

  /** Every ready descriptor other than the listener has a read script. */
  ghost predicate Feeds(listener: int, rset: set<int>, feed: map<int, seq<ReadReturn>>)
  {
    forall fd :: fd in rset && fd != listener ==> fd in feed && ReadScript(feed[fd], BufLen)
  }

  /** What the kernel guarantees about `accept` when the listener is ready:
      it fails with -1 or returns a descriptor that is not open. */
  predicate AcceptContract(r: Registry, rset: set<int>, accepted: int)
  {
    r.listener in rset ==> accepted == -1 || (accepted >= 0 && accepted !in r.interest)
  }

  /** The data scan of server.cpp:149-183 resumed at slot `i` with `nready`
      descriptors still unserviced. */
  function Scan(r: Registry, buf: seq<char>, rset: set<int>, feed: map<int, seq<ReadReturn>>, nready: int, i: nat): WakeResult
    requires ScanShape(r, buf) && Feeds(r.listener, rset, feed)
    decreases r.maxi + 1 - i
  {
    if i > r.maxi then WakeResult(Running, r, buf, [], [])
    else
      var fd := r.slots[i];
      if fd < 0 || fd !in rset then Scan(r, buf, rset, feed, nready, i + 1)
      else
        DrainedFits(feed[fd], BufLen);
        var buf' := Fill(buf, Drained(feed[fd]));
        if ExitRequested(buf') then
          var r' := Cleaned(r, i, fd);
          var departed := Departed(i, r.addrs[i]);
          if nready - 1 <= 0 then WakeResult(Running, r', buf', [departed], [])
          else
            var rest := Scan(r', buf', rset, feed, nready - 1, i + 1);
            rest.(events := [departed] + rest.events)
        else
          // The broadcast loop reuses the scan index, so the scan ends here.
          var text := CString(buf');
          WakeResult(Running, r, buf', [Received(i, r.addrs[i], text)],
                     Broadcast(r.slots, r.maxi, fd, Frame(i, r.addrs[i], text), 0))
  }

  /** A whole wake: the listener first, then the data scan. */
  function Wake(r: Registry, buf: seq<char>, rset: set<int>, accepted: int, peer: string,
                feed: map<int, seq<ReadReturn>>): WakeResult
    requires RegistryOk(r) && |buf| == BufLen && Feeds(r.listener, rset, feed)
    requires AcceptContract(r, rset, accepted)
  {
    var nready := |rset|;
    if r.listener !in rset then Scan(r, buf, rset, feed, nready, 0)
    else if accepted == -1 then WakeResult(Fatal(AcceptFailed), r, buf, [], [])
    else
      AdmissionKeepsOk(r, accepted, peer);
      var a := Admission(r, accepted, peer);
      if a.TableFull? then WakeResult(Fatal(TooManyClients), r, buf, [], [])
      else
        var connected := Connected(a.index, peer);
        if nready - 1 <= 0 then WakeResult(Running, a.reg, buf, [connected], [])
        else
          var rest := Scan(a.reg, buf, rset, feed, nready - 1, 0);
          rest.(events := [connected] + rest.events)
  }

  /** The names of the preconditions of a wake, gathered. */
  ghost predicate WakeReady(r: Registry, buf: seq<char>, rset: set<int>, accepted: int,
                            feed: map<int, seq<ReadReturn>>)
  {
    && RegistryOk(r) && |buf| == BufLen && Feeds(r.listener, rset, feed)
    && AcceptContract(r, rset, accepted)
    && rset <= r.interest
  }

  /** A wake that ends before the data scan: a failed accept, a full table,
      or an admission with nothing else ready. */
  lemma WakeStops(r: Registry, buf: seq<char>, rset: set<int>, accepted: int, peer: string,
                  feed: map<int, seq<ReadReturn>>)
    requires RegistryOk(r) && |buf| == BufLen && Feeds(r.listener, rset, feed)
    requires AcceptContract(r, rset, accepted) && r.listener in rset
    ensures var w := Wake(r, buf, rset, accepted, peer, feed);
      && (accepted == -1 ==> w == WakeResult(Fatal(AcceptFailed), r, buf, [], []))
      && (accepted != -1 ==>
            var a := Admission(r, accepted, peer);
            && (a.TableFull? ==> w == WakeResult(Fatal(TooManyClients), r, buf, [], []))
            && (a.Admitted? && |rset| - 1 <= 0 ==>
                  w == WakeResult(Running, a.reg, buf, [Connected(a.index, peer)], [])))
  {
  }

  /** A wake that reaches the data scan ends as the scan does, after the
      admission event when the listener was ready. */
  lemma WakeJoin(r: Registry, buf: seq<char>, rset: set<int>, accepted: int, peer: string,
                 feed: map<int, seq<ReadReturn>>, pre: seq<Event>, base: Registry, n: int, s: WakeResult)
    requires WakeReady(r, buf, rset, accepted, feed)
    requires r.listener !in rset ==> pre == [] && base == r && n == |rset|
    requires r.listener in rset ==>
      && accepted != -1 && Admission(r, accepted, peer).Admitted?
      && pre == [Connected(Admission(r, accepted, peer).index, peer)]
      && base == Admission(r, accepted, peer).reg && n == |rset| - 1 && n > 0
    requires ScanShape(base, buf) && Feeds(base.listener, rset, feed) && s == Scan(base, buf, rset, feed, n, 0)
    ensures Wake(r, buf, rset, accepted, peer, feed) == s.(events := pre + s.events)
  {
    if r.listener !in rset {
      assert [] + s.events == s.events;
    }
  }

  /** A scan that has reached slot `i` with `nready` descriptors left,
      notified `events` and written `sends`, and whose remainder from `i`
      completes the whole scan `whole`. */
  ghost predicate Tracks(whole: WakeResult, r: Registry, buf: seq<char>, rset: set<int>,
                         feed: map<int, seq<ReadReturn>>, nready: int, i: nat,
                         events: seq<Event>, sends: seq<Send>)
  {
    && ScanShape(r, buf) && Feeds(r.listener, rset, feed)
    && var rest := Scan(r, buf, rset, feed, nready, i);
       whole == WakeResult(Running, rest.reg, rest.buf, events + rest.events, sends + rest.sends)
  }

  /** A scan from slot 0 that has done nothing yet tracks itself. */
  lemma TracksStart(r: Registry, buf: seq<char>, rset: set<int>, feed: map<int, seq<ReadReturn>>, nready: int)
    requires RegistryOk(r) && |buf| == BufLen && Feeds(r.listener, rset, feed)
    ensures Tracks(Scan(r, buf, rset, feed, nready, 0), r, buf, rset, feed, nready, 0, [], [])
  {
    var w := Scan(r, buf, rset, feed, nready, 0);
    ScanKeepsOk(r, buf, rset, feed, nready, 0);
    assert [] + w.events == w.events && [] + w.sends == w.sends;
  }

  /** A scan past `maxi` has nothing left to do. */
  lemma TracksDone(whole: WakeResult, r: Registry, buf: seq<char>, rset: set<int>,
                   feed: map<int, seq<ReadReturn>>, nready: int, i: nat,
                   events: seq<Event>, sends: seq<Send>)
    requires Tracks(whole, r, buf, rset, feed, nready, i, events, sends) && i > r.maxi
    ensures whole == WakeResult(Running, r, buf, events, sends)
  {
    assert events + [] == events && sends + [] == sends;
  }

  /** A free slot or one that is not ready is passed over. */
  lemma TracksSkip(whole: WakeResult, r: Registry, buf: seq<char>, rset: set<int>,
                   feed: map<int, seq<ReadReturn>>, nready: int, i: nat,
                   events: seq<Event>, sends: seq<Send>)
    requires Tracks(whole, r, buf, rset, feed, nready, i, events, sends)
    requires i <= r.maxi && (r.slots[i] < 0 || r.slots[i] !in rset)
    ensures Tracks(whole, r, buf, rset, feed, nready, i + 1, events, sends)
  {
  }

  /** A ready slot whose buffer holds the sentinel after the read departs:
      the scan ends when no descriptor is left, otherwise it goes on. */
  lemma TracksRetire(whole: WakeResult, r: Registry, buf: seq<char>, rset: set<int>,
                     feed: map<int, seq<ReadReturn>>, nready: int, i: nat,
                     events: seq<Event>, sends: seq<Send>, buf': seq<char>)
    requires Tracks(whole, r, buf, rset, feed, nready, i, events, sends)
    requires i <= r.maxi && r.slots[i] >= 0 && r.slots[i] in rset
    requires |Drained(feed[r.slots[i]])| <= |buf| && buf' == Fill(buf, Drained(feed[r.slots[i]]))
    requires ExitRequested(buf')
    ensures var r' := Cleaned(r, i, r.slots[i]);
      var events' := events + [Departed(i, r.addrs[i])];
      && (nready - 1 <= 0 ==> whole == WakeResult(Running, r', buf', events', sends))
      && (nready - 1 > 0 ==> Tracks(whole, r', buf', rset, feed, nready - 1, i + 1, events', sends))
  {
    var r' := Cleaned(r, i, r.slots[i]);
    var departed := Departed(i, r.addrs[i]);
    if nready - 1 <= 0 {
      assert sends + [] == sends;
    } else {
      var rest := Scan(r', buf', rset, feed, nready - 1, i + 1);
      assert events + ([departed] + rest.events) == (events + [departed]) + rest.events;
    }
  }

  /** A ready slot whose buffer does not hold the sentinel forwards its
      message, and the scan ends. */
  lemma TracksForward(whole: WakeResult, r: Registry, buf: seq<char>, rset: set<int>,
                      feed: map<int, seq<ReadReturn>>, nready: int, i: nat,
                      events: seq<Event>, buf': seq<char>)
    requires Tracks(whole, r, buf, rset, feed, nready, i, events, [])
    requires i <= r.maxi && r.slots[i] >= 0 && r.slots[i] in rset
    requires |Drained(feed[r.slots[i]])| <= |buf| && buf' == Fill(buf, Drained(feed[r.slots[i]]))
    requires !ExitRequested(buf')
    ensures var text := CString(buf');
      whole == WakeResult(Running, r, buf', events + [Received(i, r.addrs[i], text)],
                          Broadcast(r.slots, r.maxi, r.slots[i], Frame(i, r.addrs[i], text), 0))
  {
  }

  /** The scan keeps the registry invariant, moves neither scan bound and
      keeps every address. */
  lemma {:induction false} ScanKeepsOk(r: Registry, buf: seq<char>, rset: set<int>,
                                       feed: map<int, seq<ReadReturn>>, nready: int, i: nat)
    requires RegistryOk(r) && |buf| == BufLen && Feeds(r.listener, rset, feed)
    ensures var w := Scan(r, buf, rset, feed, nready, i);
      && RegistryOk(w.reg) && w.outcome == Running && |w.buf| == BufLen
      && w.reg.listener == r.listener && w.reg.maxi == r.maxi && w.reg.maxfd == r.maxfd
      && w.reg.addrs == r.addrs
    decreases r.maxi + 1 - i
  {
    if i <= r.maxi {
      var fd := r.slots[i];
      if fd < 0 || fd !in rset {
        ScanKeepsOk(r, buf, rset, feed, nready, i + 1);
      } else {
        DrainedFits(feed[fd], BufLen);
        var buf' := Fill(buf, Drained(feed[fd]));
        if ExitRequested(buf') {
          CleanedKeepsOk(r, i);
          if nready - 1 > 0 {
            ScanKeepsOk(Cleaned(r, i, fd), buf', rset, feed, nready - 1, i + 1);
          }
        }
      }
    }
  }

  /** The scan keeps the shape of the registry and of the buffer, moves
      neither the scan bound nor the listener, keeps every address, and only
      takes descriptors out of the interest set. */
  lemma {:induction false} ScanKeepsShape(r: Registry, buf: seq<char>, rset: set<int>,
                                          feed: map<int, seq<ReadReturn>>, nready: int, i: nat)
    requires ScanShape(r, buf) && Feeds(r.listener, rset, feed)
    ensures var w := Scan(r, buf, rset, feed, nready, i);
      && ScanShape(w.reg, w.buf) && |w.reg.slots| == |r.slots|
      && w.reg.maxi == r.maxi && w.reg.listener == r.listener && w.reg.addrs == r.addrs
      && w.reg.interest <= r.interest
    decreases r.maxi + 1 - i
  {
    if i <= r.maxi {
      var fd := r.slots[i];
      if fd < 0 || fd !in rset {
        ScanKeepsShape(r, buf, rset, feed, nready, i + 1);
      } else {
        DrainedFits(feed[fd], BufLen);
        var buf' := Fill(buf, Drained(feed[fd]));
        if ExitRequested(buf') && nready - 1 > 0 {
          ScanKeepsShape(Cleaned(r, i, fd), buf', rset, feed, nready - 1, i + 1);
        }
      }
    }
  }

  /** The events of a scan that starts at slot `i` with `nready` descriptors
      to service are ordered as ScanOrder states. */
  ghost predicate InScanOrder(events: seq<Event>, sends: seq<Send>, slots: seq<int>, addrs: seq<string>,
                              rset: set<int>, maxi: int, nready: int, i: nat)
    requires maxi < |slots| == |addrs|
  {
    && (forall k :: 0 <= k < |events| ==>
          && !events[k].Connected?
          && i <= events[k].index <= maxi
          && slots[events[k].index] >= 0 && slots[events[k].index] in rset
          && events[k].addr == addrs[events[k].index])
    && (forall a, b :: 0 <= a < b < |events| ==> events[a].index < events[b].index)
    && |events| <= (if nready < 1 then 1 else nready)
    && (forall k :: 0 <= k < |events| - 1 ==> events[k].Departed?)
    && (sends != [] ==> |events| > 0 && events[|events| - 1].Received?)
  }

  /** A departure of slot `i` put ahead of a scan that resumes at `i + 1`
      over the registry with slot `i` retired keeps the scan order. */
  lemma DepartureKeepsOrder(rest: seq<Event>, sends: seq<Send>, r: Registry, rset: set<int>, nready: int, i: nat)
    requires i <= r.maxi < |r.slots| == |r.addrs| && r.slots[i] >= 0 && r.slots[i] in rset && nready - 1 > 0
    requires var r' := Cleaned(r, i, r.slots[i]);
      InScanOrder(rest, sends, r'.slots, r'.addrs, rset, r'.maxi, nready - 1, i + 1)
    ensures InScanOrder([Departed(i, r.addrs[i])] + rest, sends, r.slots, r.addrs, rset, r.maxi, nready, i)
  {
    var events := [Departed(i, r.addrs[i])] + rest;
    forall k | 0 < k < |events| ensures events[k] == rest[k - 1] && events[k].index != i {
    }
  }

  /** The order of a scan resumed after slot `i` is an order from `i`. */
  lemma LaterKeepsOrder(events: seq<Event>, sends: seq<Send>, slots: seq<int>, addrs: seq<string>,
                        rset: set<int>, maxi: int, nready: int, i: nat)
    requires maxi < |slots| == |addrs|
    requires InScanOrder(events, sends, slots, addrs, rset, maxi, nready, i + 1)
    ensures InScanOrder(events, sends, slots, addrs, rset, maxi, nready, i)
  {
  }

  /** A scan ending with the single event `e` about slot `i` is in order. */
  lemma OneEventOrder(e: Event, sends: seq<Send>, slots: seq<int>, addrs: seq<string>,
                      rset: set<int>, maxi: int, nready: int, i: nat)
    requires i <= maxi < |slots| == |addrs| && slots[i] >= 0 && slots[i] in rset
    requires !e.Connected? && e.index == i && e.addr == addrs[i] && (sends != [] ==> e.Received?)
    ensures InScanOrder([e], sends, slots, addrs, rset, maxi, nready, i)
  {
  }

  /** Every event of the scan is a departure or a forwarded message of a
      ready, occupied slot at or after `i`, with that slot's address; the
      slots are serviced in ascending order and no more of them than
      `nready`; only the last event can be a forwarded message, and nothing
      is written unless it is one. */
  lemma {:induction false} ScanOrder(r: Registry, buf: seq<char>, rset: set<int>,
                                     feed: map<int, seq<ReadReturn>>, nready: int, i: nat)
    requires ScanShape(r, buf) && Feeds(r.listener, rset, feed)
    ensures var w := Scan(r, buf, rset, feed, nready, i);
      InScanOrder(w.events, w.sends, r.slots, r.addrs, rset, r.maxi, nready, i)
    decreases r.maxi + 1 - i
  {
    if i <= r.maxi {
      var fd := r.slots[i];
      if fd < 0 || fd !in rset {
        ScanOrder(r, buf, rset, feed, nready, i + 1);
        var w := Scan(r, buf, rset, feed, nready, i + 1);
        LaterKeepsOrder(w.events, w.sends, r.slots, r.addrs, rset, r.maxi, nready, i);
      } else {
        DrainedFits(feed[fd], BufLen);
        var buf' := Fill(buf, Drained(feed[fd]));
        var w := Scan(r, buf, rset, feed, nready, i);
        if ExitRequested(buf') && nready - 1 > 0 {
          var r' := Cleaned(r, i, fd);
          ScanOrder(r', buf', rset, feed, nready - 1, i + 1);
          var rest := Scan(r', buf', rset, feed, nready - 1, i + 1);
          DepartureKeepsOrder(rest.events, rest.sends, r, rset, nready, i);
        } else {
          OneEventOrder(w.events[0], w.sends, r.slots, r.addrs, rset, r.maxi, nready, i);
        }
      }
    }
  }

  /** The scan passes no ready slot over: every occupied slot at or after
      `i` whose descriptor is ready has an event, unless the scan stopped
      before reaching it, after a forwarded message or once `nready`
      descriptors were serviced. */
  lemma {:induction false} ScanPassesNoReadySlot(r: Registry, buf: seq<char>, rset: set<int>,
                                                 feed: map<int, seq<ReadReturn>>, nready: int, i: nat)
    requires ScanShape(r, buf) && Feeds(r.listener, rset, feed)
    ensures var w := Scan(r, buf, rset, feed, nready, i);
      forall j :: i <= j <= r.maxi && r.slots[j] >= 0 && r.slots[j] in rset ==>
        || (exists k :: 0 <= k < |w.events| && w.events[k].index == j)
        || (&& |w.events| > 0 && w.events[|w.events| - 1].index < j
            && (w.events[|w.events| - 1].Received? || |w.events| >= nready))
    decreases r.maxi + 1 - i
  {
    if i <= r.maxi {
      var fd := r.slots[i];
      if fd < 0 || fd !in rset {
        ScanPassesNoReadySlot(r, buf, rset, feed, nready, i + 1);
      } else {
        DrainedFits(feed[fd], BufLen);
        var buf' := Fill(buf, Drained(feed[fd]));
        var w := Scan(r, buf, rset, feed, nready, i);
        if ExitRequested(buf') && nready - 1 > 0 {
          var r' := Cleaned(r, i, fd);
          ScanPassesNoReadySlot(r', buf', rset, feed, nready - 1, i + 1);
          var rest := Scan(r', buf', rset, feed, nready - 1, i + 1);
          DepartureKeepsCoverage(rest.events, r, rset, nready, i);
        } else {
          assert w.events[0].index == i;
        }
      }
    }
  }

  /** A departure of slot `i` put ahead of a scan from `i + 1` over the
      registry with slot `i` retired keeps every ready slot covered. */
  lemma DepartureKeepsCoverage(rest: seq<Event>, r: Registry, rset: set<int>, nready: int, i: nat)
    requires i <= r.maxi < |r.slots| == |r.addrs| && r.slots[i] >= 0
    requires var s' := r.slots[i := Free];
      forall j :: i + 1 <= j <= r.maxi && s'[j] >= 0 && s'[j] in rset ==>
        || (exists k :: 0 <= k < |rest| && rest[k].index == j)
        || (&& |rest| > 0 && rest[|rest| - 1].index < j
            && (rest[|rest| - 1].Received? || |rest| >= nready - 1))
    ensures var events := [Departed(i, r.addrs[i])] + rest;
      forall j :: i <= j <= r.maxi && r.slots[j] >= 0 && r.slots[j] in rset ==>
        || (exists k :: 0 <= k < |events| && events[k].index == j)
        || (&& |events| > 0 && events[|events| - 1].index < j
            && (events[|events| - 1].Received? || |events| >= nready))
  {
    var events := [Departed(i, r.addrs[i])] + rest;
    forall j | i <= j <= r.maxi && r.slots[j] >= 0 && r.slots[j] in rset
      ensures || (exists k :: 0 <= k < |events| && events[k].index == j)
              || (&& |events| > 0 && events[|events| - 1].index < j
                  && (events[|events| - 1].Received? || |events| >= nready))
    {
      if j == i {
        assert events[0].index == j;
      } else {
        assert r.slots[i := Free][j] == r.slots[j];
        if k :| 0 <= k < |rest| && rest[k].index == j {
          assert events[k + 1].index == j;
        } else {
          assert events[|events| - 1] == rest[|rest| - 1];
        }
      }
    }
  }

  /** Every forwarded message among `events` is the C string at the start
      of `buf`, from a slot that holds the same descriptor in `slots` and in
      the final table `final`, and `sends` is the broadcast of its frame over
      `final` up to `lastIndex`. */
  ghost predicate ForwardsRecorded(events: seq<Event>, sends: seq<Send>, slots: seq<int>,
                                   final: seq<int>, lastIndex: int, buf: seq<char>)
  {
    forall k :: 0 <= k < |events| && events[k].Received? ==>
      var e := events[k];
      && e.index < |slots| && |final| == |slots| && lastIndex < |final|
      && final[e.index] == slots[e.index]
      && e.text == CString(buf)
      && sends == Broadcast(final, lastIndex, slots[e.index], Frame(e.index, e.addr, e.text), 0)
  }

  /** A departure of slot `i` put ahead of events of later slots recorded
      against the table with slot `i` freed keeps them recorded against the
      original table. */
  lemma DepartureAheadOfForward(rest: seq<Event>, sends: seq<Send>, slots: seq<int>, addr: string,
                                final: seq<int>, lastIndex: int, buf: seq<char>, i: nat)
    requires i < |slots|
    requires forall k :: 0 <= k < |rest| ==> i < rest[k].index
    requires ForwardsRecorded(rest, sends, slots[i := Free], final, lastIndex, buf)
    ensures ForwardsRecorded([Departed(i, addr)] + rest, sends, slots, final, lastIndex, buf)
  {
    var events := [Departed(i, addr)] + rest;
    forall k | 0 < k < |events| ensures events[k] == rest[k - 1] {
    }
  }

  /** A forwarded message is the C string at the start of the buffer as the
      scan leaves it, from a slot the scan did not free, and the writes are
      exactly the broadcast of its frame over the registry as the scan leaves
      it. */
  lemma {:induction false} ScanForwarding(r: Registry, buf: seq<char>, rset: set<int>,
                                          feed: map<int, seq<ReadReturn>>, nready: int, i: nat)
    requires ScanShape(r, buf) && Feeds(r.listener, rset, feed)
    ensures var w := Scan(r, buf, rset, feed, nready, i);
      ForwardsRecorded(w.events, w.sends, r.slots, w.reg.slots, w.reg.maxi, w.buf)
    decreases r.maxi + 1 - i
  {
    if i <= r.maxi {
      var fd := r.slots[i];
      if fd < 0 || fd !in rset {
        ScanForwarding(r, buf, rset, feed, nready, i + 1);
      } else {
        DrainedFits(feed[fd], BufLen);
        var buf' := Fill(buf, Drained(feed[fd]));
        if ExitRequested(buf') && nready - 1 > 0 {
          var r' := Cleaned(r, i, fd);
          ScanForwarding(r', buf', rset, feed, nready - 1, i + 1);
          ScanOrder(r', buf', rset, feed, nready - 1, i + 1);
          var rest := Scan(r', buf', rset, feed, nready - 1, i + 1);
          DepartureAheadOfForward(rest.events, rest.sends, r.slots, r.addrs[i], rest.reg.slots, rest.reg.maxi, rest.buf, i);
        }
      }
    }
  }

  /** `final` and `finalInterest` are the table and the interest set that
      the departures `events` leave behind from the table `slots`: every
      departed slot is free and its descriptor out of the interest set, and
      a slot differs from `slots` exactly when it departed. */
  ghost predicate DeparturesRecorded(events: seq<Event>, slots: seq<int>, addrs: seq<string>,
                                     final: seq<int>, finalInterest: set<int>)
  {
    && |final| == |slots| == |addrs|
    && (forall k :: 0 <= k < |events| && events[k].Departed? ==>
          && events[k].index < |slots|
          && final[events[k].index] == Free
          && slots[events[k].index] !in finalInterest)
    && (forall j :: 0 <= j < |slots| ==> (final[j] != slots[j] <==> Departed(j, addrs[j]) in events))
  }

  /** The departure of slot `i` put ahead of departures of later slots from
      the table with slot `i` freed is recorded against the original table. */
  lemma DepartureAhead(rest: seq<Event>, slots: seq<int>, addrs: seq<string>, final: seq<int>,
                       finalInterest: set<int>, interest': set<int>, i: nat)
    requires i < |slots| == |addrs| && slots[i] >= 0
    requires slots[i] !in interest' && finalInterest <= interest'
    requires forall k :: 0 <= k < |rest| ==> i < rest[k].index
    requires DeparturesRecorded(rest, slots[i := Free], addrs, final, finalInterest)
    ensures DeparturesRecorded([Departed(i, addrs[i])] + rest, slots, addrs, final, finalInterest)
  {
    var events := [Departed(i, addrs[i])] + rest;
    assert Departed(i, addrs[i]) !in rest;
    forall k | 0 < k < |events| ensures events[k] == rest[k - 1] {
    }
    forall j | 0 <= j < |slots| && j != i
      ensures Departed(j, addrs[j]) in events <==> Departed(j, addrs[j]) in rest
    {
    }
  }

  /** A slot changes exactly when it departs; a departed slot is free and
      its descriptor is out of the interest set. */
  lemma {:induction false} ScanDepartures(r: Registry, buf: seq<char>, rset: set<int>,
                                          feed: map<int, seq<ReadReturn>>, nready: int, i: nat)
    requires ScanShape(r, buf) && Feeds(r.listener, rset, feed)
    ensures var w := Scan(r, buf, rset, feed, nready, i);
      DeparturesRecorded(w.events, r.slots, r.addrs, w.reg.slots, w.reg.interest)
    decreases r.maxi + 1 - i
  {
    if i <= r.maxi {
      var fd := r.slots[i];
      if fd < 0 || fd !in rset {
        ScanDepartures(r, buf, rset, feed, nready, i + 1);
      } else {
        DrainedFits(feed[fd], BufLen);
        var buf' := Fill(buf, Drained(feed[fd]));
        if ExitRequested(buf') && nready - 1 > 0 {
          var r' := Cleaned(r, i, fd);
          ScanDepartures(r', buf', rset, feed, nready - 1, i + 1);
          ScanKeepsShape(r', buf', rset, feed, nready - 1, i + 1);
          ScanOrder(r', buf', rset, feed, nready - 1, i + 1);
          var rest := Scan(r', buf', rset, feed, nready - 1, i + 1);
          DepartureAhead(rest.events, r.slots, r.addrs, rest.reg.slots, rest.reg.interest, r'.interest, i);
        }
      }
    }
  }

  /** The scan services the first occupied, ready slot `j` at or after `i`
      and skips the slots before it: the first event is about `j`, and it
      is a departure, which frees the slot and sends nothing, exactly when
      the buffer after the read loop begins with the sentinel `~!`. */
  lemma {:induction false} ScanServicesFirstReady(r: Registry, buf: seq<char>, rset: set<int>,
                                                  feed: map<int, seq<ReadReturn>>, nready: int, i: nat, j: nat)
    requires ScanShape(r, buf) && Feeds(r.listener, rset, feed)
    requires i <= j <= r.maxi && r.slots[j] >= 0 && r.slots[j] in rset
    requires forall k :: i <= k < j ==> r.slots[k] < 0 || r.slots[k] !in rset
    ensures var w := Scan(r, buf, rset, feed, nready, i);
      var d := Drained(feed[r.slots[j]]);
      && |w.events| > 0 && w.events[0].index == j && w.events[0].addr == r.addrs[j]
      && |d| <= |buf|
      && (w.events[0].Departed? <==> ExitRequested(Fill(buf, d)))
      && (w.events[0].Departed? ==> j < |w.reg.slots| && w.reg.slots[j] == Free && r.slots[j] !in w.reg.interest)
      && (w.events[0].Departed? && |w.events| == 1 ==> w.sends == [])
      && (w.events[0].Received? ==> |w.events| == 1 && w.events[0].text == CString(Fill(buf, d)))
    decreases j - i
  {
    DrainedFits(feed[r.slots[j]], BufLen);
    if i < j {
      ScanServicesFirstReady(r, buf, rset, feed, nready, i + 1, j);
    } else {
      ScanDepartures(r, buf, rset, feed, nready, i);
      ScanOrder(r, buf, rset, feed, nready, i);
    }
  }

  /** A ready slot whose first read returns zero or less (the peer closed
      without the sentinel) leaves the buffer as it was, so unless it still
      begins with the sentinel the server forwards the previous message
      again, with this slot named as its sender, and keeps the slot. */
  lemma {:induction false} EmptyReadResendsBuffer(r: Registry, buf: seq<char>, rset: set<int>,
                                                  feed: map<int, seq<ReadReturn>>, nready: int, i: nat, j: nat)
    requires ScanShape(r, buf) && Feeds(r.listener, rset, feed)
    requires i <= j <= r.maxi && r.slots[j] >= 0 && r.slots[j] in rset
    requires forall k :: i <= k < j ==> r.slots[k] < 0 || r.slots[k] !in rset
    requires |feed[r.slots[j]]| > 0 && feed[r.slots[j]][0].n <= 0 && !ExitRequested(buf)
    ensures var w := Scan(r, buf, rset, feed, nready, i);
      var text := CString(buf);
      && w.events == [Received(j, r.addrs[j], text)]
      && w.reg == r && w.buf == buf
      && w.sends == Broadcast(r.slots, r.maxi, r.slots[j], Frame(j, r.addrs[j], text), 0)
    decreases j - i
  {
    if i < j {
      EmptyReadResendsBuffer(r, buf, rset, feed, nready, i + 1, j);
    } else {
      assert Fill(buf, Drained(feed[r.slots[j]])) == buf;
    }
  }

  /** A wake keeps the registry invariant, keeps the listener, never lowers
      `maxi` or `maxfd`, and ends fatally exactly when the listener is ready
      and accept fails or the table is full, in which case nothing about the
      registry or the buffer has changed and nothing was sent. */
  lemma WakeKeepsOk(r: Registry, buf: seq<char>, rset: set<int>, accepted: int, peer: string,
                    feed: map<int, seq<ReadReturn>>)
    requires WakeReady(r, buf, rset, accepted, feed)
    ensures var w := Wake(r, buf, rset, accepted, peer, feed);
      && RegistryOk(w.reg) && |w.buf| == BufLen
      && w.reg.listener == r.listener && w.reg.maxi >= r.maxi && w.reg.maxfd >= r.maxfd
      && (w.outcome == Fatal(AcceptFailed) <==> r.listener in rset && accepted == -1)
      && (w.outcome == Fatal(TooManyClients) <==>
            r.listener in rset && accepted >= 0 && forall j :: 0 <= j < |r.slots| ==> r.slots[j] >= 0)
      && (w.outcome.Fatal? ==> w.reg == r && w.buf == buf && w.events == [] && w.sends == [])
  {
    var nready := |rset|;
    if r.listener !in rset {
      ScanKeepsOk(r, buf, rset, feed, nready, 0);
    } else if accepted >= 0 {
      AdmissionKeepsOk(r, accepted, peer);
      AdmissionUsesLowestFree(r, accepted, peer);
      var a := Admission(r, accepted, peer);
      if a.Admitted? && nready - 1 > 0 {
        ScanKeepsOk(a.reg, buf, rset, feed, nready - 1, 0);
      }
    }
  }

  /** The listener is serviced before any data slot: when it is ready and
      the wake goes on, the first event is the admission into the lowest free
      slot, which still holds the accepted descriptor at the end of the wake.
      When the listener was the only ready descriptor the data scan is
      skipped. */
  lemma WakeServesListenerFirst(r: Registry, buf: seq<char>, rset: set<int>, accepted: int, peer: string,
                                feed: map<int, seq<ReadReturn>>)
    requires WakeReady(r, buf, rset, accepted, feed)
    ensures var w := Wake(r, buf, rset, accepted, peer, feed);
      && (r.listener in rset && w.outcome == Running ==>
            && |w.events| > 0
            && w.events[0] == Connected(FirstFree(r.slots, 0), peer)
            && FirstFree(r.slots, 0) < |w.reg.slots|
            && w.reg.slots[FirstFree(r.slots, 0)] == accepted)
      && (r.listener in rset && |rset| == 1 ==> w.sends == [] && |w.events| <= 1)
  {
    var nready := |rset|;
    if r.listener in rset {
      WakeStops(r, buf, rset, accepted, peer, feed);
      if accepted >= 0 {
        AdmissionKeepsOk(r, accepted, peer);
        AdmissionUsesLowestFree(r, accepted, peer);
        var a := Admission(r, accepted, peer);
        if a.Admitted? && nready - 1 > 0 {
          var rest := Scan(a.reg, buf, rset, feed, nready - 1, 0);
          WakeJoin(r, buf, rset, accepted, peer, feed, [Connected(a.index, peer)], a.reg, nready - 1, rest);
          ScanLeavesUnready(a.reg, buf, rset, feed, nready - 1, 0, a.index);
        }
      }
    }
  }

  /** Only the listener produces an admission event, and only as the first
      event of the wake. */
  lemma WakeAdmitsOnlyFirst(r: Registry, buf: seq<char>, rset: set<int>, accepted: int, peer: string,
                            feed: map<int, seq<ReadReturn>>)
    requires WakeReady(r, buf, rset, accepted, feed)
    ensures var w := Wake(r, buf, rset, accepted, peer, feed);
      forall k :: 0 <= k < |w.events| && w.events[k].Connected? ==> k == 0 && r.listener in rset
  {
    var nready := |rset|;
    if r.listener !in rset {
      ScanOrder(r, buf, rset, feed, nready, 0);
      WakeJoin(r, buf, rset, accepted, peer, feed, [], r, nready, Scan(r, buf, rset, feed, nready, 0));
    } else {
      WakeStops(r, buf, rset, accepted, peer, feed);
      if accepted >= 0 {
        AdmissionKeepsOk(r, accepted, peer);
        var a := Admission(r, accepted, peer);
        if a.Admitted? && nready - 1 > 0 {
          var rest := Scan(a.reg, buf, rset, feed, nready - 1, 0);
          WakeJoin(r, buf, rset, accepted, peer, feed, [Connected(a.index, peer)], a.reg, nready - 1, rest);
          ScanOrder(a.reg, buf, rset, feed, nready - 1, 0);
          EventAhead(Connected(a.index, peer), rest.events);
        }
      }
    }
  }

  /** The data slots are serviced in ascending index order, and a wake
      reports no more events than `select` reported ready descriptors. */
  lemma WakeServesInOrder(r: Registry, buf: seq<char>, rset: set<int>, accepted: int, peer: string,
                          feed: map<int, seq<ReadReturn>>)
    requires WakeReady(r, buf, rset, accepted, feed)
    ensures var w := Wake(r, buf, rset, accepted, peer, feed);
      && (forall a, b :: 0 <= a < b < |w.events| && !w.events[a].Connected? ==>
            w.events[a].index < w.events[b].index)
      && |w.events| <= |rset|
  {
    var nready := |rset|;
    var w := Wake(r, buf, rset, accepted, peer, feed);
    if r.listener !in rset {
      var s := Scan(r, buf, rset, feed, nready, 0);
      WakeJoin(r, buf, rset, accepted, peer, feed, [], r, nready, s);
      ScanOrder(r, buf, rset, feed, nready, 0);
      if nready == 0 {
        ScanNothingReady(r, buf, feed, nready, 0);
      }
    } else {
      WakeStops(r, buf, rset, accepted, peer, feed);
      if accepted >= 0 {
        AdmissionKeepsOk(r, accepted, peer);
        var a := Admission(r, accepted, peer);
        if a.Admitted? && nready - 1 > 0 {
          var s := Scan(a.reg, buf, rset, feed, nready - 1, 0);
          WakeJoin(r, buf, rset, accepted, peer, feed, [Connected(a.index, peer)], a.reg, nready - 1, s);
          ScanOrder(a.reg, buf, rset, feed, nready - 1, 0);
          EventAhead(Connected(a.index, peer), s.events);
        }
      }
    }
  }

  /** Putting an admission event ahead of data events in ascending slot
      order leaves it the only admission, at the front, and the data events
      in ascending order. */
  lemma EventAhead(e: Event, events: seq<Event>)
    requires e.Connected?
    requires forall k :: 0 <= k < |events| ==> !events[k].Connected?
    requires forall a, b :: 0 <= a < b < |events| ==> events[a].index < events[b].index
    ensures var all := [e] + events;
      && (forall k :: 0 <= k < |all| && all[k].Connected? ==> k == 0)
      && (forall a, b :: 0 <= a < b < |all| && !all[a].Connected? ==> all[a].index < all[b].index)
  {
    var all := [e] + events;
    forall k | 0 < k < |all| ensures !all[k].Connected? {
      assert all[k] == events[k - 1];
    }
    forall a, b | 0 <= a < b < |all| && !all[a].Connected? ensures all[a].index < all[b].index {
      assert all[a] == events[a - 1] && all[b] == events[b - 1];
    }
  }

  /** The scan never touches a slot whose descriptor was not ready. */
  lemma {:induction false} ScanLeavesUnready(r: Registry, buf: seq<char>, rset: set<int>,
                                             feed: map<int, seq<ReadReturn>>, nready: int, i: nat, j: nat)
    requires ScanShape(r, buf) && Feeds(r.listener, rset, feed)
    requires j < |r.slots| && r.slots[j] !in rset
    ensures var w := Scan(r, buf, rset, feed, nready, i);
      |w.reg.slots| == |r.slots| && w.reg.slots[j] == r.slots[j]
    decreases r.maxi + 1 - i
  {
    if i <= r.maxi {
      var fd := r.slots[i];
      if fd < 0 || fd !in rset {
        ScanLeavesUnready(r, buf, rset, feed, nready, i + 1, j);
      } else {
        DrainedFits(feed[fd], BufLen);
        var buf' := Fill(buf, Drained(feed[fd]));
        if ExitRequested(buf') && nready - 1 > 0 {
          ScanLeavesUnready(Cleaned(r, i, fd), buf', rset, feed, nready - 1, i + 1, j);
        }
      }
    }
  }

  /** With nothing ready the scan does nothing. */
  lemma {:induction false} ScanNothingReady(r: Registry, buf: seq<char>, feed: map<int, seq<ReadReturn>>, nready: int, i: nat)
    requires ScanShape(r, buf) && Feeds(r.listener, {}, feed)
    ensures Scan(r, buf, {}, feed, nready, i) == WakeResult(Running, r, buf, [], [])
    decreases r.maxi + 1 - i
  {
    if i <= r.maxi {
      ScanNothingReady(r, buf, feed, nready, i + 1);
    }
  }

  /** The data scan of a wake that goes on to scan: the registry it starts
      from, its `nready`, and how many events came before it. */
  lemma WakeScanPart(r: Registry, buf: seq<char>, rset: set<int>, accepted: int, peer: string,
                     feed: map<int, seq<ReadReturn>>)
      returns (base: Registry, n: int, first: nat)
    requires WakeReady(r, buf, rset, accepted, feed)
    ensures RegistryOk(base) && base.listener == r.listener && first <= 1
    ensures r.listener !in rset ==> base == r && n == |rset| && first == 0
    ensures r.listener in rset && accepted >= 0 && Admission(r, accepted, peer).Admitted? ==>
      base == Admission(r, accepted, peer).reg && n == |rset| - 1 && first == 1
    ensures var w := Wake(r, buf, rset, accepted, peer, feed);
      var s := Scan(base, buf, rset, feed, n, 0);
      && first <= |w.events|
      && (first == 1 ==> |w.events| > 0 && w.events[0].Connected?)
      && (w.outcome == Running && !(r.listener in rset && |rset| - 1 <= 0) ==>
            w.reg == s.reg && w.buf == s.buf && w.sends == s.sends && w.events[first..] == s.events)
      && (w.outcome.Fatal? || (r.listener in rset && |rset| - 1 <= 0) ==>
            (w.sends == [] && |w.events| <= 1 && (forall k :: 0 <= k < |w.events| ==> w.events[k].Connected?)))
  {
    var nready := |rset|;
    var w := Wake(r, buf, rset, accepted, peer, feed);
    base, n, first := r, nready, 0;
    if r.listener !in rset {
      ScanKeepsOk(r, buf, rset, feed, nready, 0);
      WakeJoin(r, buf, rset, accepted, peer, feed, [], r, nready, Scan(r, buf, rset, feed, nready, 0));
    } else {
      WakeStops(r, buf, rset, accepted, peer, feed);
      if accepted >= 0 {
        AdmissionKeepsOk(r, accepted, peer);
        var a := Admission(r, accepted, peer);
        if a.Admitted? {
          base, n, first := a.reg, nready - 1, 1;
          if n > 0 {
            var s := Scan(base, buf, rset, feed, n, 0);
            ScanKeepsOk(base, buf, rset, feed, n, 0);
            WakeJoin(r, buf, rset, accepted, peer, feed, [Connected(a.index, peer)], base, n, s);
            assert w.events == [Connected(a.index, peer)] + s.events;
            assert w.events[1..] == s.events;
          }
        }
      }
    }
  }

  /** The `k`th event of `w`, a forwarded message, is the last event; its
      slot is occupied and was ready; its text is the C string at the start
      of the buffer; the writes are the broadcast of its frame "<index>::::
      <address>:::<text>", which reaches every other occupied slot and never
      the sender. */
  ghost predicate ReachesOthers(w: WakeResult, rset: set<int>, k: nat)
    requires k < |w.events|
  {
    var e := w.events[k];
    && e.Received?
    && k == |w.events| - 1
    && e.index < |w.reg.slots| && w.reg.maxi < |w.reg.slots|
    && w.reg.slots[e.index] >= 0 && w.reg.slots[e.index] in rset
    && e.text == CString(w.buf)
    && w.sends == Broadcast(w.reg.slots, w.reg.maxi, w.reg.slots[e.index], Frame(e.index, e.addr, e.text), 0)
    && (forall m :: 0 <= m < |w.sends| ==>
          w.sends[m].fd != w.reg.slots[e.index] && w.sends[m].frame == Frame(e.index, e.addr, e.text))
    && (forall j :: 0 <= j < |w.reg.slots| && w.reg.slots[j] >= 0 && j != e.index ==>
          Send(w.reg.slots[j], Frame(e.index, e.addr, e.text)) in w.sends)
  }

  /** Nothing is written unless a message is forwarded, and every forwarded
      message reaches the others. */
  ghost predicate ForwardsToOthers(w: WakeResult, rset: set<int>)
  {
    && (w.sends != [] ==> |w.events| > 0 && w.events[|w.events| - 1].Received?)
    && (forall k :: 0 <= k < |w.events| && w.events[k].Received? ==> ReachesOthers(w, rset, k))
  }

  /** A scan from slot 0 over a sound registry forwards to the others. */
  lemma ScanForwardsToOthers(r: Registry, buf: seq<char>, rset: set<int>,
                             feed: map<int, seq<ReadReturn>>, nready: int)
    requires RegistryOk(r) && |buf| == BufLen && Feeds(r.listener, rset, feed)
    ensures ForwardsToOthers(Scan(r, buf, rset, feed, nready, 0), rset)
  {
    var w := Scan(r, buf, rset, feed, nready, 0);
    ScanKeepsOk(r, buf, rset, feed, nready, 0);
    ScanOrder(r, buf, rset, feed, nready, 0);
    ScanForwarding(r, buf, rset, feed, nready, 0);
    forall k | 0 <= k < |w.events| && w.events[k].Received? ensures ReachesOthers(w, rset, k) {
      var e := w.events[k];
      var fd := w.reg.slots[e.index];
      var frame := Frame(e.index, e.addr, e.text);
      BroadcastReachesOthers(w.reg.slots, w.reg.maxi, fd, frame);
      forall j | 0 <= j < |w.reg.slots| && w.reg.slots[j] >= 0 && j != e.index
        ensures Send(w.reg.slots[j], frame) in w.sends
      {
        assert j <= w.reg.maxi;
        if j < e.index {
          assert w.reg.slots[j] != fd;
        } else {
          assert w.reg.slots[e.index] != w.reg.slots[j];
        }
      }
    }
  }

  /** Events put ahead of a scan's events, none of them a forwarded
      message, keep a scan that forwards to the others doing so. */
  lemma ForwardsBehindPrefix(w: WakeResult, s: WakeResult, rset: set<int>, first: nat)
    requires ForwardsToOthers(s, rset)
    requires w.reg == s.reg && w.buf == s.buf && w.sends == s.sends
    requires first <= |w.events| && w.events[first..] == s.events
    requires forall k :: 0 <= k < first ==> !w.events[k].Received?
    ensures ForwardsToOthers(w, rset)
  {
    assert |w.events| == first + |s.events|;
    forall k | 0 <= k < |w.events| && w.events[k].Received? ensures ReachesOthers(w, rset, k) {
      assert s.events[k - first] == w.events[k];
      assert ReachesOthers(s, rset, k - first);
    }
    if w.sends != [] {
      assert w.events[|w.events| - 1] == s.events[|s.events| - 1];
    }
  }

  /** A whole wake forwards to the others: an admission before the scan
      changes nothing about what the scan writes. */
  lemma WakeForwardsToOthers(r: Registry, buf: seq<char>, rset: set<int>, accepted: int, peer: string,
                             feed: map<int, seq<ReadReturn>>)
    requires WakeReady(r, buf, rset, accepted, feed)
    ensures ForwardsToOthers(Wake(r, buf, rset, accepted, peer, feed), rset)
  {
    var w := Wake(r, buf, rset, accepted, peer, feed);
    var base, n, first := WakeScanPart(r, buf, rset, accepted, peer, feed);
    if w.outcome.Fatal? || (r.listener in rset && |rset| - 1 <= 0) {
      return;
    }
    ScanForwardsToOthers(base, buf, rset, feed, n);
    ForwardsBehindPrefix(w, Scan(base, buf, rset, feed, n, 0), rset, first);
  }
}
