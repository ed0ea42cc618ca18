/**
 * The text the server handles: the C string held in the receive buffer,
 * the exit sentinel `~!`, and the outbound frame that `sprintf` builds with
 * the format "%d::::%s:::%s" (server.cpp:161, 175).
 */
module Frames {

  datatype Option<T> = None | Some(value: T)

  predicate IsDigit(c: char)
  {
    '0' <= c <= '9'
  }

  predicate AllDigits(s: string)
  {
    forall k :: 0 <= k < |s| ==> IsDigit(s[k])
  }

  function Digit(d: nat): (c: char)
    requires d < 10
    ensures IsDigit(c) && c as int - '0' as int == d
  {
    ('0' as int + d) as char
  }

  /** `%d` of a non-negative integer: its decimal digits, most significant
      first, with no leading zero. */
  function DecimalString(n: nat): (s: string)
    ensures |s| > 0 && AllDigits(s)
    ensures |s| > 1 ==> s[0] != '0'
    decreases n
  {
    if n < 10 then [Digit(n)] else DecimalString(n / 10) + [Digit(n % 10)]
  }

  /** The value of a string of decimal digits. */
  function DigitsValue(s: string): nat
    requires AllDigits(s)
    decreases |s|
  {
    if s == [] then 0 else DigitsValue(s[..|s| - 1]) * 10 + (s[|s| - 1] as int - '0' as int)
  }

  lemma {:induction false} DecimalRoundTrip(n: nat)
    ensures DigitsValue(DecimalString(n)) == n
    decreases n
  {
    if n >= 10 {
      var s := DecimalString(n);
      assert s[..|s| - 1] == DecimalString(n / 10);
      DecimalRoundTrip(n / 10);
    }
  }

  /** The longest prefix of `s` made of digits. */
  function LeadingDigits(s: string): (d: string)
    ensures d <= s && AllDigits(d)
    ensures |d| < |s| ==> !IsDigit(s[|d|])
    decreases |s|
  {
    if s == [] || !IsDigit(s[0]) then [] else [s[0]] + LeadingDigits(s[1..])
  }

  /** The prefix of `s` before the first `c`, or all of `s` when it holds no `c`. */
  function Until(s: string, c: char): (p: string)
    ensures p <= s && c !in p
    ensures |p| < |s| ==> s[|p|] == c
    decreases |s|
  {
    if s == [] || s[0] == c then [] else [s[0]] + Until(s[1..], c)
  }

  lemma {:induction false} LeadingDigitsOf(d: string, t: string)
    requires AllDigits(d) && (t == [] || !IsDigit(t[0]))
    ensures LeadingDigits(d + t) == d
    decreases |d|
  {
    if d != [] {
      assert (d + t)[1..] == d[1..] + t;
      LeadingDigitsOf(d[1..], t);
    }
  }

  lemma {:induction false} UntilOf(a: string, t: string, c: char)
    requires c !in a && (t == [] || t[0] == c)
    ensures Until(a + t, c) == a
    decreases |a|
  {
    if a != [] {
      assert (a + t)[1..] == a[1..] + t;
      UntilOf(a[1..], t, c);
    }
  }

  /** The message text printed and forwarded: the C string at the start of
      the buffer. A buffer holding no NUL is taken whole (C would read on
      past the end of the buffer). */
  function CString(buf: seq<char>): (s: seq<char>)
    ensures s <= buf && '\0' !in s
    ensures |s| < |buf| ==> buf[|s|] == '\0'
  {
    Until(buf, '\0')
  }

  /** The exit sentinel test of server.cpp:161 on the buffer as it stands
      after the read loop, which may still hold bytes of earlier messages. */
  predicate ExitRequested(buf: seq<char>)
    requires |buf| >= 2
  {
    buf[0] == '~' && buf[1] == '!'
  }

  /** The frame text "<index>::::<address>:::<message>" (server.cpp:175). */
  function Frame(index: nat, addr: string, text: string): string
  {
    DecimalString(index) + "::::" + addr + ":::" + text
  }

  datatype Parsed = Parsed(index: nat, addr: string, text: string)

  /** Splits a frame back into the sender's index, address and message. */
  function ParseFrame(f: string): Option<Parsed>
  {
    var d := LeadingDigits(f);
    if d == [] then None else ParseAfterIndex(DigitsValue(d), f[|d|..])
  }

  /** Splits what follows the index of a frame: "::::", the address up to
      the next colon, ":::" and the message. */
  function ParseAfterIndex(index: nat, rest: string): Option<Parsed>
  {
    if |rest| < 4 || rest[..4] != "::::" then None
    else
      var a := Until(rest[4..], ':');
      var tail := rest[4..][|a|..];
      if |tail| < 3 || tail[..3] != ":::" then None
      else Some(Parsed(index, a, tail[3..]))
  }

  /** The part after the index reads back an address without colons and
      the message exactly. */
  lemma AfterIndexRoundTrip(index: nat, addr: string, text: string)
    requires ':' !in addr
    ensures ParseAfterIndex(index, "::::" + (addr + (":::" + text))) == Some(Parsed(index, addr, text))
  {
    var tail := ":::" + text;
    var rest := "::::" + (addr + tail);
    assert rest[..4] == "::::";
    assert rest[4..] == addr + tail;
    UntilOf(addr, tail, ':');
    assert (addr + tail)[|addr|..] == tail;
    assert tail[..3] == ":::" && tail[3..] == text;
  }

  /** A frame names its sender unambiguously: for an address without colons
      (dotted IPv4 text has none) the index, the address and the message
      are read back exactly. */
  lemma FrameRoundTrip(index: nat, addr: string, text: string)
    requires ':' !in addr
    ensures ParseFrame(Frame(index, addr, text)) == Some(Parsed(index, addr, text))
  {
    var d := DecimalString(index);
    var rest := "::::" + (addr + (":::" + text));
    assert Frame(index, addr, text) == d + rest;
    LeadingDigitsOf(d, rest);
    assert (d + rest)[|d|..] == rest;
    DecimalRoundTrip(index);
    AfterIndexRoundTrip(index, addr, text);
  }
}
