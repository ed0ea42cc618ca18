/**
 * The broadcast dispatcher: the inner loop of server.cpp:170-177, which
 * writes the sender's frame to every occupied slot from 0 to `maxi` whose
 * descriptor differs from the sender's.
 */
module Dispatcher {

  /** One `write(sockfd, tempSendCombine, BUFLEN)`: the descriptor written to
      and the frame text. */
  datatype Send = Send(fd: int, frame: string)

  /** The indices from `from` to `maxi`, ascending, of the occupied slots
      whose descriptor is not `sender`. */
  function Recipients(slots: seq<int>, maxi: int, sender: int, from: nat): seq<nat>
    requires maxi < |slots|
    decreases maxi + 1 - from
  {
    if from > maxi then []
    else if slots[from] < 0 || slots[from] == sender then Recipients(slots, maxi, sender, from + 1)
    else [from] + Recipients(slots, maxi, sender, from + 1)
  }

  /** The recipients are exactly the occupied slots from `from` to `maxi`
      whose descriptor is not the sender's, in strictly ascending order. */
  lemma {:induction false} RecipientsAreTheOthers(slots: seq<int>, maxi: int, sender: int, from: nat)
    requires maxi < |slots|
    ensures var r := Recipients(slots, maxi, sender, from);
      && (forall k :: 0 <= k < |r| ==> from <= r[k] <= maxi && slots[r[k]] >= 0 && slots[r[k]] != sender)
      && (forall j :: from <= j <= maxi && slots[j] >= 0 && slots[j] != sender ==> j in r)
      && (forall a, b :: 0 <= a < b < |r| ==> r[a] < r[b])
    decreases maxi + 1 - from
  {
    if from <= maxi {
      RecipientsAreTheOthers(slots, maxi, sender, from + 1);
      var r, r' := Recipients(slots, maxi, sender, from), Recipients(slots, maxi, sender, from + 1);
      if slots[from] >= 0 && slots[from] != sender {
        assert r == [from] + r';
        forall k | 0 < k < |r| ensures r[k] == r'[k - 1] && from < r[k] {
          assert r[k] == r'[k - 1];
        }
      }
    }
  }

  /** The writes of the broadcast loop when it resumes at index `from`. */
  function Broadcast(slots: seq<int>, maxi: int, sender: int, frame: string, from: nat): seq<Send>
    requires maxi < |slots|
    decreases maxi + 1 - from
  {
    if from > maxi then []
    else if slots[from] < 0 || slots[from] == sender then Broadcast(slots, maxi, sender, frame, from + 1)
    else [Send(slots[from], frame)] + Broadcast(slots, maxi, sender, frame, from + 1)
  }

  /** The broadcast makes one write per recipient, in the recipients' order. */
  lemma {:induction false} BroadcastFollowsRecipients(slots: seq<int>, maxi: int, sender: int, frame: string, from: nat)
    requires maxi < |slots|
    ensures var s := Broadcast(slots, maxi, sender, frame, from);
      var r := Recipients(slots, maxi, sender, from);
      |s| == |r| && forall k :: 0 <= k < |s| ==> r[k] <= maxi && s[k] == Send(slots[r[k]], frame)
    decreases maxi + 1 - from
  {
    RecipientsAreTheOthers(slots, maxi, sender, from);
    if from <= maxi {
      BroadcastFollowsRecipients(slots, maxi, sender, frame, from + 1);
      if slots[from] >= 0 && slots[from] != sender {
        var s, r := Broadcast(slots, maxi, sender, frame, from), Recipients(slots, maxi, sender, from);
        var s', r' := Broadcast(slots, maxi, sender, frame, from + 1), Recipients(slots, maxi, sender, from + 1);
        assert s == [Send(slots[from], frame)] + s' && r == [from] + r';
        forall k | 0 < k < |s| ensures r[k] <= maxi && s[k] == Send(slots[r[k]], frame) {
          assert s[k] == s'[k - 1] && r[k] == r'[k - 1];
        }
      }
    }
  }

  /** A broadcast writes the frame to every occupied slot up to `maxi` other
      than the sender's, to each exactly once, and never to the sender. */
  lemma BroadcastReachesOthers(slots: seq<int>, maxi: int, sender: int, frame: string)
    requires maxi < |slots|
    requires forall j, k :: 0 <= j < k < |slots| && slots[j] >= 0 ==> slots[j] != slots[k]
    ensures var s := Broadcast(slots, maxi, sender, frame, 0);
      && (forall k :: 0 <= k < |s| ==> s[k].fd != sender && s[k].fd >= 0 && s[k].frame == frame)
      && (forall j :: 0 <= j <= maxi && slots[j] >= 0 && slots[j] != sender ==> Send(slots[j], frame) in s)
      && (forall a, b :: 0 <= a < b < |s| ==> s[a].fd != s[b].fd)
  {
    var s := Broadcast(slots, maxi, sender, frame, 0);
    var r := Recipients(slots, maxi, sender, 0);
    BroadcastFollowsRecipients(slots, maxi, sender, frame, 0);
    RecipientsAreTheOthers(slots, maxi, sender, 0);
    forall j | 0 <= j <= maxi && slots[j] >= 0 && slots[j] != sender
      ensures Send(slots[j], frame) in s
    {
      var k :| 0 <= k < |r| && r[k] == j;
      assert s[k] == Send(slots[j], frame);
    }
    forall a, b | 0 <= a < b < |s| ensures s[a].fd != s[b].fd {
      assert r[a] < r[b];
    }
  }
}
