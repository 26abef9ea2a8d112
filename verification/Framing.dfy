/** Length-prefixed frames: what `sendMessage` puts on the wire and `receiveMessage` takes off it. */
module Framing {
  import opened Bits
  import opened Decimal

  type Bytes = seq<byte>

  /** What is left of a byte sequence that passes through a C string. */
  function UpToNul(s: Bytes): (t: Bytes)
    ensures t <= s && NUL !in t
    ensures NUL !in s ==> t == s
    ensures NUL in s ==> |t| < |s| && s[|t|] == NUL
  {
    if s == [] || s[0] == NUL then [] else [s[0]] + UpToNul(s[1..])
  }

  /** What `%d` prints. */
  function Printed(n: int): Bytes
  {
    if n < 0 then [MINUS] + Digits(-n) else Digits(n)
  }

  /** What `format("%d %s", size, str)` gives. */
  function Formatted(size: int, str: Bytes): Bytes
  {
    Printed(size) + [SPACE] + UpToNul(str)
  }

  /** The bytes that sending a message produces: its length and its contents. */
  function Frame(message: Bytes): Bytes
  {
    Formatted(|message|, message)
  }

  /** What this looks like: `"%d %s"`, with the number of characters as the length of a string. */
  lemma FramesLookLike()
    ensures Frame(Ascii("hi")) == Ascii("2 hi") && Frame([]) == Ascii("0 ")
  {
    assert NUL !in Ascii("hi");
  }

  /** The same with a size of the caller's choice, and with a string that contains a NUL byte. */
  lemma OddFramesLookLike()
    ensures Formatted(-12, Ascii("hi")) == Ascii("-12 hi") && Frame(Ascii("hi") + [NUL]) == Ascii("3 hi")
  {
    assert NUL !in Ascii("hi");
    UpToFirstNul(Ascii("hi"), []);
    assert Digits(12) == Digits(1) + [ZERO + 2];
  }

  lemma {:induction false} UpToFirstNul(a: Bytes, b: Bytes)
    requires NUL !in a
    ensures UpToNul(a + [NUL] + b) == a
  {
    if a == [] {
      assert a + [NUL] + b == [NUL] + b;
    } else {
      assert (a + [NUL] + b)[1..] == a[1..] + [NUL] + b;
      UpToFirstNul(a[1..], b);
    }
  }

  datatype Decoded = Incomplete | Message(payload: Bytes, rest: Bytes)

  /** What one receive attempt does with the bytes at hand. */
  function Decode(s: Bytes): Decoded
  {
    var n := DigitRun(s);
    if n < |s| && s[n] == SPACE && |s| >= n + 1 + LeadingValue(s) then
      Message(s[n + 1..n + 1 + LeadingValue(s)], s[n + 1 + LeadingValue(s)..])
    else Incomplete
  }

  /** What a header with a plain number and any bytes behind it decode to. */
  lemma DecodeOfHeader(size: nat, tail: Bytes)
    ensures Decode(Digits(size) + [SPACE] + tail) ==
            if size <= |tail| then Message(tail[..size], tail[size..]) else Incomplete
  {
    hide DigitRun, LeadingValue, Digits;
    HeaderRoundTrip(size, tail);
    var s, header := Digits(size) + [SPACE] + tail, |Digits(size)| + 1;
    if size <= |tail| {
      Middle(Digits(size) + [SPACE], tail, size);
    }
  }

  lemma Middle(a: Bytes, b: Bytes, n: nat)
    requires n <= |b|
    ensures (a + b)[|a|..|a| + n] == b[..n] && (a + b)[|a| + n..] == b[n..]
  {
  }

  lemma DecodeOfDigits(s: Bytes)
    requires AllDigits(s)
    ensures Decode(s) == Incomplete && DigitRun(s) == |s| && LeadingValue(s) == Value(s)
  {
    assert s[..|s|] == s;
    DigitRunIs(s, |s|);
  }

  /** A cut header, or a whole one and some of the payload. */
  lemma PartOfFormatted(size: nat, str: Bytes, n: nat)
    requires n <= |Formatted(size, str)|
    ensures
      var (part, header) := (Formatted(size, str)[..n], |Digits(size)| + 1);
      if n < header then part == Digits(size)[..n]
      else n - header <= |UpToNul(str)| && part == Digits(size) + [SPACE] + UpToNul(str)[..n - header]
  {
    hide Digits, UpToNul;
  }

  lemma DecodeOfNegative(size: int, str: Bytes, n: nat)
    requires size < 0 && n <= |Formatted(size, str)|
    ensures Decode(Formatted(size, str)[..n]) == Incomplete
  {
    hide UpToNul, Digits;
    assert n > 0 ==> Formatted(size, str)[..n][0] == MINUS;
  }

  /** What the first `n` bytes of a formatted message decode to: the announced number of bytes, once they are there. */
  lemma DecodeOfPart(size: int, str: Bytes, n: nat)
    requires n <= |Formatted(size, str)|
    ensures
      var (part, header) := (Formatted(size, str)[..n], |Printed(size)| + 1);
      Decode(part) ==
        if 0 <= size <= n - header then Message(UpToNul(str)[..size], UpToNul(str)[size..n - header]) else Incomplete
  {
    hide Decode, Formatted, Digits, UpToNul;
    if size < 0 {
      DecodeOfNegative(size, str, n);
    } else {
      PartOfFormatted(size, str, n);
      var header := |Digits(size)| + 1;
      if n < header {
        DecodeOfDigits(Digits(size)[..n]);
      } else {
        var tail := UpToNul(str)[..n - header];
        DecodeOfHeader(size, tail);
        if size <= n - header {
          assert tail[..size] == UpToNul(str)[..size] && tail[size..] == UpToNul(str)[size..n - header];
        }
      }
    }
  }

  /** A frame without NUL, whatever follows it, decodes to its message. */
  lemma DecodeOfFrame(m: Bytes, rest: Bytes)
    requires NUL !in m
    ensures Decode(Frame(m) + rest) == Message(m, rest)
  {
    hide Decode;
    assert Frame(m) + rest == Digits(|m|) + [SPACE] + (m + rest);
    DecodeOfHeader(|m|, m + rest);
    assert (m + rest)[..|m|] == m && (m + rest)[|m|..] == rest;
  }

  /** Less than a whole frame does not decode. */
  lemma DecodeOfPartialFrame(m: Bytes, part: Bytes)
    requires NUL !in m && part <= Frame(m) && part != Frame(m)
    ensures Decode(part) == Incomplete
    ensures DigitRun(part) + 1 + LeadingValue(part) <= |Frame(m)|
  {
    hide Decode, Digits, UpToNul, DigitRun, LeadingValue, Value;
    assert part == Formatted(|m|, m)[..|part|] && UpToNul(m) == m;
    var header := Digits(|m|);
    PartOfFormatted(|m|, m, |part|);
    DecodeOfPart(|m|, m, |part|);
    ValueOfDigits(|m|);
    if |part| <= |header| {
      DecodeOfDigits(part);
      ValueOfPrefix(header, |part|);
    } else {
      HeaderRoundTrip(|m|, UpToNul(m)[..|part| - |header| - 1]);
    }
  }

  /** The header at the front stays within `int`, the number itself and, if a space follows, the length of the frame. */
  predicate HeaderInRange(s: Bytes)
  {
    && LeadingValue(s) <= INT_MAX
    && (DigitRun(s) < |s| && s[DigitRun(s)] == SPACE ==> DigitRun(s) + 1 + LeadingValue(s) <= INT_MAX)
  }

  /** Of a header with a plain number these are the ones that leave room for the header itself. */
  lemma HeadersInRange(n: nat, rest: Bytes)
    ensures HeaderInRange(Digits(n) + [SPACE] + rest) <==> |Digits(n)| + 1 + n <= INT_MAX
  {
    HeaderRoundTrip(n, rest);
  }

  /** So a peer can send one that is not. */
  lemma HeaderOutOfRange()
    ensures !HeaderInRange(Digits(INT_MAX) + [SPACE])
  {
    HeadersInRange(INT_MAX, []);
    assert Digits(INT_MAX) + [SPACE] + [] == Digits(INT_MAX) + [SPACE];
  }

  /** Later bytes never change what was decoded. */
  lemma DecodeExtends(s: Bytes, more: Bytes)
    requires Decode(s).Message?
    ensures Decode(s + more) == Message(Decode(s).payload, Decode(s).rest + more)
  {
    var n := DigitRun(s);
    assert (s + more)[..n] == s[..n];
    DigitRunIs(s + more, n);
  }

  /** A message read back as a C string arrives intact exactly when it has no NUL byte. */
  lemma StringRoundTripIff(m: Bytes, rest: Bytes)
    requires NUL !in m || |rest| >= |m|
    ensures var d := Decode(Frame(m) + rest); d.Message? && (UpToNul(d.payload) == m <==> NUL !in m)
  {
    if NUL !in m {
      DecodeOfFrame(m, rest);
    } else {
      var s := Frame(m) + rest;
      assert s == Digits(|m|) + [SPACE] + (UpToNul(m) + rest);
      HeaderRoundTrip(|m|, UpToNul(m) + rest);
    }
  }

  /** Messages received so far, and the bytes that are left in the buffer. */
  datatype Received = Received(messages: seq<Bytes>, left: Bytes)
  {
    function After(m: Bytes): Received
    {
      Received([m] + messages, left)
    }

    function Then(later: Received): Received
    {
      Received(messages + later.messages, later.left)
    }
  }

  /** All the messages that can be received, and the bytes that stay behind. */
  function Drain(s: Bytes): Received
    decreases |s|
  {
    match Decode(s)
    case Incomplete => Received([], s)
    case Message(m, rest) => Drain(rest).After(m)
  }

  /** Draining early, before more bytes arrive, does not matter. */
  lemma {:induction false} DrainSplit(s: Bytes, more: Bytes)
    ensures Drain(s + more) == Drain(s).Then(Drain(Drain(s).left + more))
    decreases |s|
  {
    match Decode(s)
    case Incomplete =>
      assert [] + Drain(s + more).messages == Drain(s + more).messages;
    case Message(m, rest) =>
      DecodeExtends(s, more);
      DrainSplit(rest, more);
      AfterThen(m, Drain(rest), Drain(Drain(rest).left + more));
  }

  lemma AfterThen(m: Bytes, r: Received, later: Received)
    ensures r.Then(later).After(m) == r.After(m).Then(later)
  {
    assert [m] + (r.messages + later.messages) == ([m] + r.messages) + later.messages;
  }

  /** The life of a read buffer: bytes arrive in chunks, and the user tries to receive. */
  datatype Event = Arrive(chunk: Bytes) | TryReceive

  /** The messages received along a sequence of events, and the final buffer. */
  function Play(events: seq<Event>, buffer: Bytes): Received
  {
    if events == [] then Received([], buffer)
    else match events[0]
      case Arrive(chunk) => Play(events[1..], buffer + chunk)
      case TryReceive =>
        match Decode(buffer)
        case Incomplete => Play(events[1..], buffer)
        case Message(m, rest) => Play(events[1..], rest).After(m)
  }

  function Arrived(events: seq<Event>): Bytes
  {
    if events == [] then []
    else (if events[0].Arrive? then events[0].chunk else []) + Arrived(events[1..])
  }

  /** However a stream, well-formed or not, is cut into chunks and whenever receives are tried, the
      messages received and the messages still in the buffer are those of the whole stream. */
  lemma {:induction false} ReceivedPlusPending(events: seq<Event>, buffer: Bytes)
    ensures Drain(buffer + Arrived(events)) == Play(events, buffer).Then(Drain(Play(events, buffer).left))
  {
    if events == [] {
      assert buffer + [] == buffer;
      assert [] + Drain(buffer).messages == Drain(buffer).messages;
    } else if events[0].Arrive? {
      var chunk := events[0].chunk;
      assert buffer + Arrived(events) == (buffer + chunk) + Arrived(events[1..]);
      ReceivedPlusPending(events[1..], buffer + chunk);
    } else {
      var more := Arrived(events[1..]);
      assert Arrived(events) == more;
      match Decode(buffer)
      case Incomplete => ReceivedPlusPending(events[1..], buffer);
      case Message(m, rest) =>
        ReceivedPlusPending(events[1..], rest);
        DecodeExtends(buffer, more);
        AfterThen(m, Play(events[1..], rest), Drain(Play(events[1..], rest).left));
    }
  }

  /** Two fragmentations of the same stream, both received until nothing more decodes, give the same
      messages and leave the same bytes. */
  lemma FragmentationIndependence(events1: seq<Event>, events2: seq<Event>)
    requires Arrived(events1) == Arrived(events2)
    requires Decode(Play(events1, []).left) == Incomplete && Decode(Play(events2, []).left) == Incomplete
    ensures Play(events1, []) == Play(events2, [])
  {
    ReceivedPlusPending(events1, []);
    ReceivedPlusPending(events2, []);
    DrainedMeansDone(Play(events1, []));
    DrainedMeansDone(Play(events2, []));
  }

  lemma DrainedMeansDone(r: Received)
    requires Decode(r.left) == Incomplete
    ensures r.Then(Drain(r.left)) == r
  {
  }

  /** The wire image of a list of messages. */
  function Frames(messages: seq<Bytes>): Bytes
  {
    if messages == [] then [] else Frame(messages[0]) + Frames(messages[1..])
  }

  lemma {:induction false} FramesOfOneMore(messages: seq<Bytes>, m: Bytes)
    ensures Frames(messages + [m]) == Frames(messages) + Frame(m)
  {
    hide Frame;
    if messages == [] {
      assert [m][1..] == [];
      assert Frame(m) + [] == [] + Frame(m);
    } else {
      FramesOfOneMore(messages[1..], m);
      assert (messages + [m])[1..] == messages[1..] + [m];
      assert Frame(messages[0]) + (Frames(messages[1..]) + Frame(m)) == Frames(messages) + Frame(m);
    }
  }

  predicate NoNul(messages: seq<Bytes>)
  {
    forall i :: 0 <= i < |messages| ==> NUL !in messages[i]
  }

  /** The stream of any messages without NUL decodes to exactly those messages. */
  lemma {:induction false} DrainOfFrames(messages: seq<Bytes>)
    requires NoNul(messages)
    ensures Drain(Frames(messages)) == Received(messages, [])
  {
    if messages == [] {
      assert Decode([]) == Incomplete;
    } else {
      DecodeOfFrame(messages[0], Frames(messages[1..]));
      DrainOfFrames(messages[1..]);
      assert [messages[0]] + messages[1..] == messages;
    }
  }

  /** What a receive attempt sees when the buffer holds the beginning of a stream of frames. */
  lemma DecodeOfStreamPrefix(messages: seq<Bytes>, buffer: Bytes)
    requires NoNul(messages) && buffer <= Frames(messages)
    ensures messages == [] ==> buffer == []
    ensures messages != [] && |buffer| < |Frame(messages[0])| ==> Decode(buffer) == Incomplete
    ensures messages != [] && |buffer| >= |Frame(messages[0])| ==>
              Decode(buffer) == Message(messages[0], buffer[|Frame(messages[0])|..])
  {
    if messages != [] {
      var f := Frame(messages[0]);
      if |buffer| < |f| {
        assert buffer == f[..|buffer|];
        DecodeOfPartialFrame(messages[0], buffer);
      } else {
        assert buffer[..|f|] == f;
        assert buffer == f + buffer[|f|..];
        DecodeOfFrame(messages[0], buffer[|f|..]);
      }
    }
  }
}
