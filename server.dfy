/**
 * The server of `enterServer` (server.cpp:68-186) as an object: the
 * descriptor table `client`, the address table, the interest set `allset`,
 * the scan bounds `maxi` and `maxfd` and the receive buffer `buf`, all
 * updated in place by the start-up code, by admission, by `clean` and by
 * one wake of the `while (TRUE)` loop.
 *
 * Every method is proved to leave the object in the state, and to produce
 * the notifications and writes, that the functions of ConnectionRegistry
 * and Multiplexer give; the properties proved about those functions carry
 * over to the object.
 */
module ChatServer {
  import opened ConnectionRegistry
  import opened MessageReader
  import opened Frames
  import opened Dispatcher
  import opened Multiplexer

  class Server {
    /** `listen_sd`, the listening socket. */
    const listenSd: int
    /** `client[FD_SETSIZE]`: the descriptor of each slot, -1 when free. */
    const client: array<int>
    /** `client_address_arr`: the peer address text of each slot. */
    var addresses: seq<string>
    /** `allset`: the descriptors handed to `select`. */
    var allset: set<int>
    /** The highest slot index ever used, -1 before the first admission. */
    var maxi: int
    /** The highest descriptor ever registered; `clean` never lowers it. */
    var maxfd: int
    /** `buf[BUFLEN]`: the receive buffer, which keeps its bytes from one
        read to the next. */
    const buf: array<char>

    /** The registry the object holds. */
    ghost function State(): Registry
      reads this, client
    {
      Registry(listenSd, client[..], addresses, allset, maxi, maxfd)
    }

    ghost predicate Valid()
      reads this, client, buf
    {
      client.Length == FdSetSize && buf.Length == BufLen && RegistryOk(State())
    }

    /** Start-up (server.cpp:101-108). `stack` is whatever the buffer holds
        before the first read. */
    constructor (listenSd: int, stack: seq<char>)
      requires listenSd >= 0 && |stack| == BufLen
      ensures Valid() && State() == Initial(listenSd) && buf[..] == stack
      ensures fresh(client) && fresh(buf)
    {
      this.listenSd := listenSd;
      maxfd := listenSd;
      maxi := -1;
      var table := new int[FdSetSize];
      var i := 0;
      while i < FdSetSize
        invariant 0 <= i <= FdSetSize
        invariant forall j :: 0 <= j < i ==> table[j] == Free
      {
        table[i] := Free;
        i := i + 1;
      }
      client := table;
      addresses := seq(FdSetSize, _ => "");
      allset := {listenSd};
      buf := new char[BufLen](k => if 0 <= k < |stack| then stack[k] else '\0');
      new;
      assert client[..] == seq(FdSetSize, _ => Free);
      assert State() == Initial(listenSd);
      InitialIsEmpty(listenSd);
      assert RegistryOk(State());
    }

    /** Admission of the accepted descriptor `newSd` from `peer`
        (server.cpp:123-142). With every slot taken the server gives up
        ("Too many clients") before it touches anything. */
    method Admit(newSd: int, peer: string) returns (admitted: bool, i: nat)
      requires Valid() && newSd >= 0 && newSd !in allset
      modifies this, client
      ensures Valid()
      ensures var a := Admission(old(State()), newSd, peer);
        && admitted == a.Admitted?
        && (admitted ==> i == a.index && State() == a.reg)
        && (!admitted ==> i == FdSetSize && State() == old(State()))
    {
      ghost var slots0, addrs0 := client[..], addresses;
      i := 0;
      while i < FdSetSize
        invariant 0 <= i <= FdSetSize
        invariant client[..] == slots0 && addresses == addrs0
        invariant FirstFree(slots0, 0) == FirstFree(slots0, i)
      {
        if client[i] < 0 {
          client[i] := newSd;
          addresses := addresses[i := peer];
          break;
        }
        i := i + 1;
      }
      if i == FdSetSize {
        return false, i;
      }
      allset := allset + {newSd};
      if newSd > maxfd {
        maxfd := newSd;
      }
      if i > maxi {
        maxi := i;
      }
      admitted := true;
      AdmissionKeepsOk(old(State()), newSd, peer);
    }

    /** `clean(clientIndex, closeSockfd)` (server.cpp:233-239): the
        descriptor leaves the interest set and the slot is freed. Called on
        the slot being serviced, it keeps the registry invariant. */
    method Clean(clientIndex: nat, closeSockfd: int)
      requires Valid() && clientIndex < client.Length
      modifies this, client
      ensures State() == Cleaned(old(State()), clientIndex, closeSockfd)
      ensures old(client[clientIndex]) >= 0 && closeSockfd == old(client[clientIndex]) ==> Valid()
    {
      allset := allset - {closeSockfd};
      client[clientIndex] := Free;
      if old(client[clientIndex]) >= 0 && closeSockfd == old(client[clientIndex]) {
        CleanedKeepsOk(old(State()), clientIndex);
      }
    }

    /** The service of ready slot `i` holding `sockfd` (server.cpp:154-178):
        the read loop drains the socket into the buffer; a buffer starting
        with the sentinel retires the slot, anything else is forwarded to the
        others. `next` is the scan index afterwards, which the broadcast loop
        shares and leaves at `maxi + 1`. */
    method ServiceSlot(i: nat, sockfd: int, rset: set<int>, feed: map<int, seq<ReadReturn>>)
        returns (event: Event, out: seq<Send>, next: int)
      requires Valid() && Feeds(listenSd, rset, feed)
      requires i <= maxi && sockfd == client[i] && sockfd >= 0 && sockfd in rset
      modifies this, client, buf
      ensures Valid() && maxi == old(maxi)
      ensures |Drained(feed[sockfd])| <= BufLen && buf[..] == Fill(old(buf[..]), Drained(feed[sockfd]))
      ensures ExitRequested(buf[..]) ==>
        && State() == Cleaned(old(State()), i, sockfd)
        && event == Departed(i, old(addresses[i])) && out == [] && next == i
      ensures !ExitRequested(buf[..]) ==>
        && State() == old(State())
        && event == Received(i, addresses[i], CString(buf[..]))
        && out == Broadcast(client[..], maxi, sockfd, Frame(i, addresses[i], CString(buf[..])), 0)
        && next == maxi + 1
    {
      DrainedFits(feed[sockfd], BufLen);
      var _, _, _ := ReadLoop(buf, feed[sockfd]);
      if buf[0] == '~' && buf[1] == '!' {
        event, out, next := Departed(i, addresses[i]), [], i;
        Clean(i, sockfd);
      } else {
        var currentSockfd := sockfd;
        var currentIndex := i;
        var text := CString(buf[..]);
        event := Received(currentIndex, addresses[currentIndex], text);
        out := WriteToOthers(currentIndex, currentSockfd, text);
        next := maxi + 1;
      }
    }

    /** One pass of the scan loop of server.cpp:149-183 at slot `i`: a free
        or idle slot is passed over, a ready one is serviced and counted off
        `nready`. `stop` is the `break` taken when no descriptor is left or
        the broadcast has run, and `next` the index the loop resumes after. */
    method ScanSlot(ghost whole: WakeResult, rset: set<int>, feed: map<int, seq<ReadReturn>>,
                    nready: int, i: nat, events: seq<Event>)
        returns (nready': int, next: int, events': seq<Event>, sends': seq<Send>, stop: bool, ghost done: bool)
      requires Valid() && Feeds(listenSd, rset, feed) && i <= maxi
      requires Tracks(whole, State(), buf[..], rset, feed, nready, i, events, [])
      modifies this, client, buf
      ensures Valid() && maxi == old(maxi)
      ensures i <= next <= maxi + 1 && (stop ==> done)
      ensures !done ==> sends' == [] && Tracks(whole, State(), buf[..], rset, feed, nready', next + 1, events', sends')
      ensures done && !stop ==> next + 1 > maxi
      ensures done ==> whole == WakeResult(Running, State(), buf[..], events', sends')
    {
      ghost var before, buf0 := State(), buf[..];
      var sockfd := client[i];
      nready', next, events', sends', stop, done := nready, i, events, [], false, false;
      if sockfd < 0 || sockfd !in rset {
        TracksSkip(whole, before, buf0, rset, feed, nready, i, events, []);
        return;
      }
      var event, out;
      event, out, next := ServiceSlot(i, sockfd, rset, feed);
      if ExitRequested(buf[..]) {
        TracksRetire(whole, before, buf0, rset, feed, nready, i, events, [], buf[..]);
        done := nready - 1 <= 0;
      } else {
        TracksForward(whole, before, buf0, rset, feed, nready, i, events, buf[..]);
        done := true;
      }
      events', sends' := events + [event], out;
      nready' := nready - 1;
      stop := nready' <= 0;
    }

    /** The data scan of one wake (server.cpp:149-183) with `nready0`
        descriptors still to service: the notifications and the writes of
        the scan, which leaves the object as `Scan` says. */
    method ScanClients(rset: set<int>, feed: map<int, seq<ReadReturn>>, nready0: int)
        returns (events: seq<Event>, sends: seq<Send>)
      requires Valid() && Feeds(listenSd, rset, feed)
      modifies this, client, buf
      ensures Valid()
      ensures WakeResult(Running, State(), buf[..], events, sends)
           == Scan(old(State()), old(buf[..]), rset, feed, nready0, 0)
    {
      ghost var whole := Scan(State(), buf[..], rset, feed, nready0, 0);
      TracksStart(State(), buf[..], rset, feed, nready0);
      var nready := nready0;
      events, sends := [], [];
      var i: int := 0;
      ghost var done := false;
      while i <= maxi
        invariant Valid() && maxi == old(maxi)
        invariant 0 <= i <= maxi + 2
        invariant !done ==> sends == [] && Tracks(whole, State(), buf[..], rset, feed, nready, i, events, sends)
        invariant done ==> i > maxi && whole == WakeResult(Running, State(), buf[..], events, sends)
        decreases maxi + 2 - i
      {
        var stop;
        nready, i, events, sends, stop, done := ScanSlot(whole, rset, feed, nready, i, events);
        if stop {
          break;
        }
        i := i + 1;
      }
      if !done {
        TracksDone(whole, State(), buf[..], rset, feed, nready, i, events, sends);
      }
    }

    /** The broadcast loop of server.cpp:170-177: the frame of the message
        `text` from slot `currentIndex` is written to every occupied slot up
        to `maxi` whose descriptor is not `currentSockfd`, in index order. */
    method WriteToOthers(currentIndex: nat, currentSockfd: int, text: string) returns (sends: seq<Send>)
      requires Valid() && currentIndex < FdSetSize
      ensures sends == Broadcast(client[..], maxi, currentSockfd, Frame(currentIndex, addresses[currentIndex], text), 0)
    {
      ghost var slots, frame := client[..], Frame(currentIndex, addresses[currentIndex], text);
      sends := [];
      var i := 0;
      while i <= maxi
        invariant 0 <= i <= maxi + 1
        invariant Broadcast(slots, maxi, currentSockfd, frame, 0) == sends + Broadcast(slots, maxi, currentSockfd, frame, i)
        decreases maxi + 1 - i
      {
        var sockfd := client[i];
        if sockfd < 0 || sockfd == currentSockfd {
          i := i + 1;
          continue;
        }
        ghost var rest := Broadcast(slots, maxi, currentSockfd, frame, i + 1);
        assert sends + ([Send(sockfd, frame)] + rest) == (sends + [Send(sockfd, frame)]) + rest;
        sends := sends + [Send(sockfd, Frame(currentIndex, addresses[currentIndex], text))];
        i := i + 1;
      }
      assert sends + [] == sends;
    }

    /** One wake of the server loop (server.cpp:110-184): the listener is
        serviced first, then the scan runs unless nothing is left to
        service. `accepted` is what `accept` returned and `peer` the address
        text of the new connection. */
    method HandleWake(rset: set<int>, accepted: int, peer: string, feed: map<int, seq<ReadReturn>>)
        returns (outcome: Outcome, events: seq<Event>, sends: seq<Send>)
      requires Valid() && rset <= allset && Feeds(listenSd, rset, feed)
      requires AcceptContract(State(), rset, accepted)
      modifies this, client, buf
      ensures Valid()
      ensures WakeResult(outcome, State(), buf[..], events, sends)
           == Wake(old(State()), old(buf[..]), rset, accepted, peer, feed)
    {
      ghost var r0, b0 := State(), buf[..];
      var nready := |rset|;
      events, sends := [], [];
      if listenSd in rset {
        WakeStops(r0, b0, rset, accepted, peer, feed);
        if accepted == -1 {
          return Fatal(AcceptFailed), events, sends;
        }
        AdmissionUsesLowestFree(r0, accepted, peer);
        var admitted, i := Admit(accepted, peer);
        if !admitted {
          return Fatal(TooManyClients), events, sends;
        }
        events := [Connected(i, peer)];
        nready := nready - 1;
        if nready <= 0 {
          return Running, events, sends;
        }
      }
      ghost var base := State();
      var more;
      more, sends := ScanClients(rset, feed, nready);
      WakeJoin(r0, b0, rset, accepted, peer, feed, events, base, nready,
               WakeResult(Running, State(), buf[..], more, sends));
      events := events + more;
      outcome := Running;
    }
  }
}
