/**
 * The message reader: the loop of server.cpp:154-159 that drains a ready
 * socket into the fixed buffer `buf[BUFLEN]`, advancing the write offset
 * `bp` and shrinking `bytes_to_read` until a read returns zero or less.
 *
 * The kernel's `read` is not modelled; its successive return values (and
 * the bytes it delivers) are given as a read script.
 */
module MessageReader {

  /** BUFLEN: the size of the receive buffer and of every outbound frame. */
  const BufLen: nat := 200

  /** One return of `read(sockfd, bp, bytes_to_read)`: the count `n` and,
      when `n` is positive, the bytes delivered. */
  datatype ReadReturn = ReadReturn(n: int, bytes: seq<char>)

  /** A script of read returns the kernel can produce for a reader that
      asks for `room` bytes: no call returns more than it was asked for, a
      positive return delivers exactly that many bytes, and the script ends
      with a return of zero or less (a call asking for 0 bytes gets 0). */
  predicate ReadScript(rs: seq<ReadReturn>, room: nat)
    decreases |rs|
  {
    && |rs| > 0
    && rs[0].n <= room
    && (rs[0].n > 0 ==> |rs[0].bytes| == rs[0].n && ReadScript(rs[1..], room - rs[0].n))
  }

  /** The bytes the reader collects: those of every return before the first
      one of zero or less. */
  function Drained(rs: seq<ReadReturn>): seq<char>
    decreases |rs|
  {
    if rs == [] || rs[0].n <= 0 then [] else rs[0].bytes + Drained(rs[1..])
  }

  /** Whatever the script, the reader never collects more than it asked for. */
  lemma {:induction false} DrainedFits(rs: seq<ReadReturn>, room: nat)
    requires ReadScript(rs, room)
    ensures |Drained(rs)| <= room
    decreases |rs|
  {
    if rs[0].n > 0 {
      DrainedFits(rs[1..], room - rs[0].n);
    }
  }

  /** The buffer after the reader has written `d` at its start; the bytes
      past `d` are those left over from earlier reads. */
  function Fill(buf: seq<char>, d: seq<char>): (r: seq<char>)
    requires |d| <= |buf|
  {
    d + buf[|d|..]
  }

  /** The state of the read loop after the returns before `stop`: `offset`
      bytes collected, `room` still asked for, the buffer `b` holding the
      collected bytes over the original buffer `b0`. */
  ghost predicate Progress(rs: seq<ReadReturn>, stop: nat, offset: nat, room: int, b: seq<char>, b0: seq<char>)
  {
    && stop < |rs| && offset + room == BufLen && 0 <= room
    && |b| == |b0| == BufLen
    && ReadScript(rs[stop..], room)
    && (forall k :: 0 <= k < stop ==> rs[k].n > 0)
    && Drained(rs) == b[..offset] + Drained(rs[stop..])
    && b[offset..] == b0[offset..]
  }

  /** A positive return moves the loop on: its bytes are written at the
      offset, which advances by their count while the room shrinks by it. */
  lemma {:induction false} ProgressStep(rs: seq<ReadReturn>, stop: nat, offset: nat, room: int,
                                        b: seq<char>, b0: seq<char>, b': seq<char>)
    requires Progress(rs, stop, offset, room, b, b0) && rs[stop].n > 0
    requires |b'| == |b| && offset + rs[stop].n <= |b|
    requires b'[..offset + rs[stop].n] == b[..offset] + rs[stop].bytes
    requires b'[offset + rs[stop].n..] == b[offset + rs[stop].n..]
    ensures Progress(rs, stop + 1, offset + rs[stop].n, room - rs[stop].n, b', b0)
  {
    var n, chunk := rs[stop].n, rs[stop].bytes;
    assert rs[stop..][1..] == rs[stop + 1..];
    assert ReadScript(rs[stop + 1..], room - n) && |rs[stop + 1..]| > 0;
    assert Drained(rs[stop..]) == chunk + Drained(rs[stop + 1..]);
    assert b[..offset] + (chunk + Drained(rs[stop + 1..])) == (b[..offset] + chunk) + Drained(rs[stop + 1..]);
    assert b'[offset + n..] == b0[offset + n..] by {
      assert b[offset..][n..] == b[offset + n..];
      assert b0[offset..][n..] == b0[offset + n..];
    }
  }

  /** At the first return of zero or less the buffer is the collected bytes
      over the original. */
  lemma ProgressDone(rs: seq<ReadReturn>, stop: nat, offset: nat, room: int, b: seq<char>, b0: seq<char>)
    requires Progress(rs, stop, offset, room, b, b0) && rs[stop].n <= 0
    ensures offset == |Drained(rs)| && b == Fill(b0, Drained(rs))
  {
    assert Drained(rs[stop..]) == [];
    assert b == b[..offset] + b[offset..];
  }

  /** What one successful `read` does to the buffer: the bytes it delivers
      land at the write offset `bp` and nothing else changes. */
  method Deposit(buf: array<char>, offset: nat, chunk: seq<char>)
    requires offset + |chunk| <= buf.Length
    modifies buf
    ensures buf[..offset + |chunk|] == old(buf[..offset]) + chunk
    ensures buf[offset + |chunk|..] == old(buf[offset + |chunk|..])
  {
    forall k | 0 <= k < |chunk| {
      buf[offset + k] := chunk[k];
    }
  }

  /** The read loop. `offset` is how far `bp` advanced, `bytesToRead` is
      `bytes_to_read` when the loop ends and `stop` is the index of the
      return that ended it. */
  method ReadLoop(buf: array<char>, rs: seq<ReadReturn>) returns (offset: nat, bytesToRead: int, stop: nat)
    requires buf.Length == BufLen && ReadScript(rs, BufLen)
    modifies buf
    ensures offset + bytesToRead == BufLen && 0 <= bytesToRead
    ensures stop < |rs| && rs[stop].n <= 0
    ensures forall k :: 0 <= k < stop ==> rs[k].n > 0
    ensures offset == |Drained(rs)|
    ensures buf[..] == Fill(old(buf[..]), Drained(rs))
  {
    offset, bytesToRead, stop := 0, BufLen, 0;
    var n := rs[0].n;
    while n > 0
      invariant n == if stop < |rs| then rs[stop].n else 0
      invariant Progress(rs, stop, offset, bytesToRead, buf[..], old(buf[..]))
      decreases bytesToRead
    {
      ghost var before := buf[..];
      assert ReadScript(rs[stop..], bytesToRead);
      Deposit(buf, offset, rs[stop].bytes);
      ProgressStep(rs, stop, offset, bytesToRead, before, old(buf[..]), buf[..]);
      offset, bytesToRead, stop := offset + n, bytesToRead - n, stop + 1;
      n := rs[stop].n;
    }
    ProgressDone(rs, stop, offset, bytesToRead, buf[..], old(buf[..]));
  }
}
