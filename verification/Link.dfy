/** Two connected peers: a write buffer, the bytes in flight, and a read buffer. */
module Links {
  import opened Bits
  import opened Decimal
  import opened Framing

  /** `sent` and `got` are the messages passed to `sendMessage` and returned by `receiveMessage`. */
  datatype Link = Link(sent: seq<Bytes>, wbuf: Bytes, flight: Bytes, rbuf: Bytes, got: seq<Bytes>, wmax: nat, rmax: nat)
  {
    /** The bytes on their way, oldest first. */
    function Pipe(): Bytes
    {
      rbuf + flight + wbuf
    }

    /** The messages that have not come out yet. */
    function Pending(): seq<Bytes>
      requires got <= sent
    {
      sent[|got|..]
    }

    /** The messages that went in are those that came out and, byte for byte, those in the pipe. */
    ghost predicate Conserved()
    {
      && NoNul(sent)
      && (forall i :: 0 <= i < |sent| ==> |Frame(sent[i])| <= wmax)
      && got <= sent
      && Pipe() == Frames(Pending())
      && |rbuf| <= rmax
    }

    /** What is in the pipe decodes to what has not come out yet. */
    ghost predicate InSync()
    {
      got <= sent && Drain(Pipe()) == Received(Pending(), [])
    }
  }

  /** A message is accepted, as a string or as a C string with a size of the caller's choice, a short write takes bytes
      from the write buffer, a short read adds bytes to the read buffer, the user tries to receive. */
  datatype Move = Send(m: Bytes) | SendSized(str: Bytes, size: int) | Flush(n: nat) | Deliver(n: nat) | Receive

  /** How much of `n` bytes the write buffer accepts. */
  function Accepted(l: Link, n: nat): nat
  {
    Min(n, if |l.wbuf| <= l.wmax then l.wmax - |l.wbuf| else 0)
  }

  /** The message that a caller means who passes a string and a size. */
  function Meant(str: Bytes, size: int): Bytes
  {
    if 0 <= size <= |str| then str[..size] else str
  }

  /** The effect of a move; what does not fit in a buffer does not get into it. */
  function Do(l: Link, move: Move): Link
  {
    match move
    case Send(m) =>
      l.(sent := l.sent + [m], wbuf := l.wbuf + Frame(m)[..Accepted(l, |Frame(m)|)])
    case SendSized(str, size) =>
      var buf := Formatted(size, str);
      l.(sent := l.sent + [Meant(str, size)], wbuf := l.wbuf + buf[..Accepted(l, |buf|)])
    case Flush(k) =>
      var n := Min(k, |l.wbuf|);
      l.(wbuf := l.wbuf[n..], flight := l.flight + l.wbuf[..n])
    case Deliver(k) =>
      var n := Min(Min(k, |l.flight|), if |l.rbuf| <= l.rmax then l.rmax - |l.rbuf| else 0);
      l.(flight := l.flight[n..], rbuf := l.rbuf + l.flight[..n])
    case Receive =>
      match Decode(l.rbuf)
      case Incomplete => l
      case Message(m, rest) => l.(rbuf := rest, got := l.got + [m])
  }

  /** A delivery that the reader has space for takes exactly the next bytes. */
  lemma DeliverTakes(rbuf: Bytes, flight: Bytes, rmax: nat, n: nat)
    requires n <= |flight| && |rbuf| + n <= rmax
    ensures forall l: Link | l.rbuf == rbuf && l.flight == flight && l.rmax == rmax ::
              Do(l, Deliver(n)) == l.(rbuf := rbuf + flight[..n], flight := flight[n..])
  {
  }

  function DoAll(l: Link, moves: seq<Move>): Link
    decreases moves
  {
    if moves == [] then l else DoAll(Do(l, moves[0]), moves[1..])
  }

  /** What a sender must respect: no NUL byte in the message, and space for the whole frame. */
  predicate SendFits(l: Link, m: Bytes)
  {
    NUL !in m && |l.wbuf| + |Frame(m)| <= l.wmax
  }

  /** What a caller with a size must respect: the C string has that many bytes and its frame fits, or it has more of
      them and the buffer happens to be full right after the ones that were meant. */
  predicate SizedFits(l: Link, str: Bytes, size: int)
  {
    var frame := |Printed(size)| + 1 + size;
    && 0 <= size <= |UpToNul(str)|
    && (if size == |UpToNul(str)| then |l.wbuf| + frame <= l.wmax else |l.wbuf| + frame == l.wmax)
  }

  predicate AllSendsFit(l: Link, moves: seq<Move>)
    decreases moves
  {
    || moves == []
    || ((moves[0].Send? ==> SendFits(l, moves[0].m))
        && (moves[0].SendSized? ==> SizedFits(l, moves[0].str, moves[0].size))
        && AllSendsFit(Do(l, moves[0]), moves[1..]))
  }

  lemma SendConserves(l: Link, m: Bytes)
    requires l.Conserved() && SendFits(l, m)
    ensures Do(l, Send(m)).Conserved()
  {
    hide Frame;
    var k := Do(l, Send(m));
    assert Frame(m)[..|Frame(m)|] == Frame(m);
    assert k.Pipe() == l.Pipe() + Frame(m);
    assert k.Pending() == l.Pending() + [m];
    FramesOfOneMore(l.Pending(), m);
  }

  /** A sized send that respects this is the send of the message that was meant. */
  lemma SizedIsSend(l: Link, str: Bytes, size: int)
    requires SizedFits(l, str, size)
    ensures Do(l, SendSized(str, size)) == Do(l, Send(str[..size])) && SendFits(l, str[..size])
  {
    var m, buf := str[..size], Formatted(size, str);
    assert m == UpToNul(str)[..size] && NUL !in m;
    assert UpToNul(m) == m && |Frame(m)| == |Printed(size)| + 1 + size;
    assert buf[..Accepted(l, |buf|)] == Frame(m) == Frame(m)[..Accepted(l, |Frame(m)|)];
  }

  lemma ReceiveConserves(l: Link)
    requires l.Conserved()
    ensures Do(l, Receive).Conserved()
    ensures l.Pending() != [] && |l.rbuf| >= |Frame(l.Pending()[0])| ==> Do(l, Receive).got == l.got + [l.Pending()[0]]
    ensures l.Pending() == [] || |l.rbuf| < |Frame(l.Pending()[0])| ==> Do(l, Receive) == l
  {
    hide Frame, Decode;
    assert l.Pipe()[..|l.rbuf|] == l.rbuf;
    assert l.Pipe() == l.rbuf + (l.flight + l.wbuf);
    var pending := l.Pending();
    DecodeOfStreamPrefix(pending, l.rbuf);
    if pending == [] {
      DecodeOfNothing();
    } else if |l.rbuf| >= |Frame(pending[0])| {
      var k := Do(l, Receive);
      var f := Frame(pending[0]);
      assert k.Pending() == pending[1..];
      assert l.Pipe()[|f|..] == k.Pipe();
      assert (Frame(pending[0]) + Frames(pending[1..]))[|f|..] == Frames(pending[1..]);
    }
  }

  lemma DecodeOfNothing()
    ensures Decode([]) == Incomplete
  {
  }

  lemma TransferConserves(l: Link, move: Move)
    requires l.Conserved() && (move.Flush? || move.Deliver?)
    ensures Do(l, move).Conserved() && Do(l, move).Pipe() == l.Pipe()
  {
    hide Frame, Frames;
    assert Do(l, move).Pipe() == l.Pipe();
  }

  /** Under any interleaving of sends, partial writes, partial reads and receives, no byte is lost. */
  lemma {:induction false} RunConserves(l: Link, moves: seq<Move>)
    requires l.Conserved() && AllSendsFit(l, moves)
    ensures DoAll(l, moves).Conserved()
    decreases moves
  {
    hide Link.Conserved, Do, SendFits;
    if moves != [] {
      match moves[0] {
        case Send(m) => SendConserves(l, m);
        case SendSized(str, size) =>
          SizedIsSend(l, str, size);
          SendConserves(l, str[..size]);
        case Receive => ReceiveConserves(l);
        case _ => TransferConserves(l, moves[0]);
      }
      RunConserves(Do(l, moves[0]), moves[1..]);
    }
  }

  lemma ConservedIsInSync(l: Link)
    requires l.Conserved()
    ensures l.InSync()
  {
    DrainOfFrames(l.Pending());
  }

  /** The messages received are always a prefix of those sent, and all of them once the pipe is empty. */
  lemma EndToEnd(wmax: nat, rmax: nat, moves: seq<Move>)
    requires AllSendsFit(Link([], [], [], [], [], wmax, rmax), moves)
    ensures var l := DoAll(Link([], [], [], [], [], wmax, rmax), moves);
      && l.got <= l.sent && l.InSync()
      && Frames(l.sent) == Frames(l.got) + l.Pipe()
      && (l.got == l.sent <==> l.Pipe() == [])
  {
    var start := Link([], [], [], [], [], wmax, rmax);
    assert start.Conserved();
    RunConserves(start, moves);
    var l := DoAll(start, moves);
    ConservedIsInSync(l);
    FramesOfSplit(l.sent, |l.got|);
    assert l.sent[..|l.got|] == l.got;
    if l.got != l.sent {
      assert l.Pending() != [];
    }
  }

  lemma {:induction false} FramesOfSplit(messages: seq<Bytes>, n: nat)
    requires n <= |messages|
    ensures Frames(messages) == Frames(messages[..n]) + Frames(messages[n..])
  {
    hide Frame;
    if n == 0 {
      assert messages[0..] == messages;
    } else {
      FramesOfSplit(messages[1..], n - 1);
      assert messages[..n][1..] == messages[1..][..n - 1];
      assert messages[1..][n - 1..] == messages[n..];
    }
  }

  /** The conditions on the send of a string are exact: breaking one puts the stream out of sync. */
  lemma SendKeepsSyncIff(l: Link, m: Bytes)
    requires l.InSync() && |l.wbuf| <= l.wmax
    ensures Do(l, Send(m)).InSync() <==> SendFits(l, m)
  {
    hide Frame, Decode;
    var part := Frame(m)[..Accepted(l, |Frame(m)|)];
    FrameLength(m);
    SendDrains(l, Send(m), m, part);
    DrainOfPart(|m|, m, |part|);
  }

  lemma FrameLength(m: Bytes)
    ensures |Frame(m)| == |Printed(|m|)| + 1 + |UpToNul(m)| && (|UpToNul(m)| == |m| <==> NUL !in m)
    ensures NUL !in m ==> UpToNul(m)[..|m|] == m
    ensures Frame(m) == Formatted(|m|, m)
  {
  }

  /** So are the conditions on the send of a C string with a size. */
  lemma SizedSendKeepsSyncIff(l: Link, str: Bytes, size: int)
    requires l.InSync() && |l.wbuf| <= l.wmax
    ensures Do(l, SendSized(str, size)).InSync() <==> SizedFits(l, str, size)
  {
    hide Formatted, Decode;
    var buf := Formatted(size, str);
    var part := buf[..Accepted(l, |buf|)];
    SendDrains(l, SendSized(str, size), Meant(str, size), part);
    DrainOfPart(size, str, |part|);
    FormattedLength(size, str);
  }

  lemma FormattedLength(size: int, str: Bytes)
    ensures |Formatted(size, str)| == |Printed(size)| + 1 + |UpToNul(str)|
    ensures 0 <= size <= |UpToNul(str)| ==> Meant(str, size) == UpToNul(str)[..size]
  {
  }

  /** After a send the stream is in sync exactly if the bytes that were accepted decode to the message alone. */
  lemma SendDrains(l: Link, move: Move, m: Bytes, part: Bytes)
    requires l.InSync() && Do(l, move) == l.(sent := l.sent + [m], wbuf := l.wbuf + part)
    ensures Do(l, move).InSync() <==> Drain(part) == Received([m], [])
  {
    hide Frame, Decode, Do;
    var k := Do(l, move);
    assert k.Pipe() == l.Pipe() + part;
    assert k.Pending() == l.Pending() + [m];
    DrainSplit(l.Pipe(), part);
    assert [] + part == part;
    var r := Drain(part);
    assert Drain(k.Pipe()) == Received(l.Pending() + r.messages, r.left);
    if Drain(k.Pipe()) == Received(k.Pending(), []) {
      assert r.messages == (l.Pending() + r.messages)[|l.Pending()|..] == (l.Pending() + [m])[|l.Pending()|..] == [m];
    }
  }

  /** The first `n` bytes of a formatted message are exactly one message just if the announced number of payload bytes
      is there and nothing else. */
  lemma DrainOfPart(size: int, str: Bytes, n: nat)
    requires n <= |Formatted(size, str)|
    ensures
      var part := Formatted(size, str)[..n];
      forall m :: Drain(part) == Received([m], []) <==>
        size >= 0 && n == |Printed(size)| + 1 + size && size <= |UpToNul(str)| && m == UpToNul(str)[..size]
  {
    var part := Formatted(size, str)[..n];
    DecodeOfPart(size, str, n);
    FormattedLength(size, str);
    DecodeOfNothing();
    match Decode(part)
    case Incomplete =>
    case Message(x, rest) =>
      DrainsNothing(rest);
      var r := Drain(rest);
      assert Drain(part) == Received([x] + r.messages, r.left);
      assert forall m :: [x] + r.messages == [m] <==> r.messages == [] && x == m by {
        assert forall m :: [x] + r.messages == [m] ==> |[x] + r.messages| == 1 && ([x] + r.messages)[0] == m;
      }
  }

  /** Only nothing drains without a message and without a rest. */
  lemma DrainsNothing(s: Bytes)
    ensures Drain(s) == Received([], []) <==> s == []
  {
    DecodeOfNothing();
  }

  const ABC: Bytes := [97, 98, 99]
  const XYZ: Bytes := [120, 121, 122]
  const THREE: byte := ZERO + 3

  lemma FramesOfThree()
    ensures Frame(ABC) == [THREE, SPACE, 97, 98, 99] && Frame(XYZ) == [THREE, SPACE, 120, 121, 122]
  {
    assert UpToNul(ABC) == ABC && UpToNul(XYZ) == XYZ && Digits(3) == [THREE];
  }

  lemma DecodeOfCutFrames()
    ensures Decode([THREE, SPACE, 97, 98, THREE, SPACE, 120, 121]) == Message([97, 98, THREE], [SPACE, 120, 121])
  {
    var s := [THREE, SPACE, 97, 98, THREE, SPACE, 120, 121];
    DigitRunIs(s, 1);
    assert s[..1] == [THREE] && Value([THREE]) == 3;
  }

  /** A write buffer of four bytes: the cut frame of "abc" takes its last byte from the next frame. */
  lemma CutSendCorrupts()
    ensures var l1 := Do(Do(Link([], [], [], [], [], 4, 8), Send(ABC)), Flush(4));
      var l2 := Do(Do(l1, Send(XYZ)), Flush(4));
      Do(Do(l2, Deliver(8)), Receive).got == [[97, 98, THREE]] && l2.sent == [ABC, XYZ]
  {
    FramesOfThree();
    DecodeOfCutFrames();
    hide Frame, Decode;
    var l1 := Do(Do(Link([], [], [], [], [], 4, 8), Send(ABC)), Flush(4));
    assert l1.wbuf == [] && l1.flight == [THREE, SPACE, 97, 98];
    var l2 := Do(Do(l1, Send(XYZ)), Flush(4));
    assert l2.flight == [THREE, SPACE, 97, 98, THREE, SPACE, 120, 121];
    assert Do(l2, Deliver(8)).rbuf == l2.flight;
  }

  const ABCD: Bytes := [97, 98, 99, 100]

  lemma FormattedTooShort()
    ensures Formatted(3, ABCD) == [THREE, SPACE, 97, 98, 99, 100]
    ensures Decode([THREE, SPACE, 97, 98, 99, 100]) == Message(ABC, [100])
  {
    assert UpToNul(ABCD) == ABCD && Digits(3) == [THREE];
    DecodeOfPart(3, ABCD, 6);
    assert Formatted(3, ABCD)[..6] == Formatted(3, ABCD);
  }

  /** A byte at the front that cannot belong to a header stays there: nothing is received any more, whatever is sent. */
  lemma {:induction false} JunkBlocks(l: Link, moves: seq<Move>)
    requires l.rbuf != [] && !IsDigit(l.rbuf[0]) && l.rbuf[0] != SPACE
    ensures DoAll(l, moves).got == l.got
    decreases moves
  {
    hide Frame, Formatted;
    if moves != [] {
      JunkBlocks(Do(l, moves[0]), moves[1..]);
    }
  }

  /** `sendMessage("abcd", 3)`: the peer gets "abc", and the byte left over keeps every later message from it. */
  lemma ShortSizeCorrupts()
    ensures
      var l := Do(Do(Do(Do(Link([], [], [], [], [], 8, 8), SendSized(ABCD, 3)), Flush(8)), Deliver(8)), Receive);
      l.sent == l.got == [ABC] && forall moves :: DoAll(l, moves).got == [ABC]
  {
    FormattedTooShort();
    hide Frame, Formatted, Decode;
    var l1 := Do(Do(Link([], [], [], [], [], 8, 8), SendSized(ABCD, 3)), Flush(8));
    assert Meant(ABCD, 3) == ABC && l1.wbuf == [] && l1.flight == [THREE, SPACE, 97, 98, 99, 100];
    assert Do(l1, Deliver(8)).rbuf == l1.flight;
    var k := Do(Do(l1, Deliver(8)), Receive);
    assert k.got == [ABC] && k.rbuf == [100] && k.flight == [];
    forall moves ensures DoAll(k, moves).got == [ABC] {
      JunkBlocks(k, moves);
    }
  }

  /** The first message not yet received fits in the read buffer as a frame. */
  predicate NextFits(l: Link)
    requires l.got <= l.sent
  {
    l.Pending() != [] ==> |Frame(l.Pending()[0])| <= l.rmax
  }

  predicate AllFit(l: Link)
    requires l.got <= l.sent
  {
    forall i :: 0 <= i < |l.Pending()| ==> |Frame(l.Pending()[i])| <= l.rmax
  }

  /** Everything in the write buffer goes out, and then the next `n` bytes arrive. */
  lemma FlushAndDeliver(l: Link, n: nat) returns (k: Link)
    requires l.Conserved() && n <= |l.flight| + |l.wbuf| && |l.rbuf| + n <= l.rmax
    ensures k == Do(Do(l, Flush(|l.wbuf|)), Deliver(n)) && k.Conserved()
    ensures k.rmax == l.rmax && k.sent == l.sent && k.got == l.got && |k.rbuf| == |l.rbuf| + n
  {
    hide Link.Conserved;
    TransferConserves(l, Flush(|l.wbuf|));
    TransferConserves(Do(l, Flush(|l.wbuf|)), Deliver(n));
    k := Do(Do(l, Flush(|l.wbuf|)), Deliver(n));
  }

  /** The pipe holds the next frame. */
  lemma PipeIsLongEnough(l: Link)
    requires l.Conserved() && l.Pending() != []
    ensures |l.rbuf| + |l.flight| + |l.wbuf| >= |Frame(l.Pending()[0])|
  {
    hide Frame;
    assert Frames(l.Pending()) == Frame(l.Pending()[0]) + Frames(l.Pending()[1..]);
    assert |l.Pipe()| == |l.rbuf| + |l.flight| + |l.wbuf|;
  }

  /** Three moves bring the next message out: flush, deliver the rest of its frame, receive. */
  lemma NextComesOut(l: Link) returns (moves: seq<Move>)
    requires l.Conserved() && l.Pending() != [] && NextFits(l)
    ensures NoSends(moves)
    ensures
      var k := DoAll(l, moves);
      k.Conserved() && k.sent == l.sent && k.rmax == l.rmax && k.got == l.got + [l.Pending()[0]]
  {
    hide Frame, Decode, Do;
    var need := if |Frame(l.Pending()[0])| > |l.rbuf| then |Frame(l.Pending()[0])| - |l.rbuf| else 0;
    PipeIsLongEnough(l);
    var k := FlushAndDeliver(l, need);
    ReceiveConserves(k);
    ReceiveKeeps(k);
    moves := [Flush(|l.wbuf|), Deliver(need), Receive];
    DoThree(l, Flush(|l.wbuf|), Deliver(need), Receive);
  }

  lemma ReceiveKeeps(l: Link)
    ensures Do(l, Receive).sent == l.sent && Do(l, Receive).rmax == l.rmax
  {
    hide Decode;
  }

  lemma DoThree(l: Link, a: Move, b: Move, c: Move)
    ensures DoAll(l, [a, b, c]) == Do(Do(Do(l, a), b), c)
  {
    hide Do;
    assert [a, b, c] == [a] + ([b] + [c]);
    DoAllConcat(l, [a], [b] + [c]);
    DoAllConcat(Do(l, a), [b], [c]);
  }

  lemma {:induction false} DoAllConcat(l: Link, a: seq<Move>, b: seq<Move>)
    ensures DoAll(l, a + b) == DoAll(DoAll(l, a), b)
    decreases a
  {
    hide Do;
    if a == [] {
      assert [] + b == b;
    } else {
      DoAllConcat(Do(l, a[0]), a[1..], b);
      assert (a + b)[1..] == a[1..] + b;
    }
  }

  predicate NoSends(moves: seq<Move>)
  {
    forall i :: 0 <= i < |moves| ==> !moves[i].Send? && !moves[i].SendSized?
  }

  /** If every frame fits in the read buffer, everything sent can still come out. */
  lemma {:induction false} EverythingComesOut(l: Link) returns (moves: seq<Move>)
    requires l.Conserved() && AllFit(l)
    ensures NoSends(moves) && DoAll(l, moves).got == l.sent && DoAll(l, moves).sent == l.sent
    decreases |l.sent| - |l.got|
  {
    hide Frame, Do;
    if l.Pending() == [] {
      moves := [];
    } else {
      var first := NextComesOut(l);
      var k := DoAll(l, first);
      assert k.Pending() == l.Pending()[1..];
      var rest := EverythingComesOut(k);
      moves := first + rest;
      DoAllConcat(l, first, rest);
    }
  }

  /** A frame larger than the read buffer is never received, nor anything behind it, whatever else is sent. */
  lemma {:induction false} OversizedBlocks(l: Link, i: nat, moves: seq<Move>)
    requires l.Conserved() && AllSendsFit(l, moves)
    requires |l.got| <= i < |l.sent| && |Frame(l.sent[i])| > l.rmax
    ensures l.sent <= DoAll(l, moves).sent && |DoAll(l, moves).got| <= i
    decreases moves
  {
    hide Frame, Decode, SendFits;
    if moves != [] {
      match moves[0] {
        case Receive =>
          ReceiveConserves(l);
          if |l.got| == i {
            assert l.Pending()[0] == l.sent[i];
          }
        case Send(m) => SendConserves(l, m);
        case SendSized(str, size) =>
          SizedIsSend(l, str, size);
          SendConserves(l, str[..size]);
        case _ => TransferConserves(l, moves[0]);
      }
      OversizedBlocks(Do(l, moves[0]), i, moves[1..]);
    }
  }

  lemma {:induction false} NoSendsFit(l: Link, moves: seq<Move>)
    requires NoSends(moves)
    ensures AllSendsFit(l, moves)
    decreases moves
  {
    if moves != [] {
      assert !moves[0].Send? && !moves[0].SendSized?;
      NoSendsFit(Do(l, moves[0]), moves[1..]);
    }
  }

  /** All that was sent can come out exactly when every frame still ahead fits in the read buffer. */
  lemma DeliverableIff(l: Link)
    requires l.Conserved()
    ensures AllFit(l) <==> exists moves :: NoSends(moves) && DoAll(l, moves).got == l.sent
  {
    if AllFit(l) {
      var moves := EverythingComesOut(l);
    } else {
      var i :| 0 <= i < |l.Pending()| && |Frame(l.Pending()[i])| > l.rmax;
      forall moves | NoSends(moves)
        ensures DoAll(l, moves).got != l.sent
      {
        NoSendsFit(l, moves);
        OversizedBlocks(l, |l.got| + i, moves);
      }
    }
  }

  /** The read buffer is full, so that the next readable event ends the process. */
  predicate ExitsOnRead(l: Link)
  {
    |l.rbuf| == l.rmax
  }

  /** A reader that has received all it can is in that state only if the next frame is larger than its buffer. */
  lemma FullMeansOversized(l: Link)
    requires l.Conserved() && l.rmax > 0 && ExitsOnRead(l) && Decode(l.rbuf) == Incomplete
    ensures l.Pending() != [] && |Frame(l.Pending()[0])| > l.rmax
  {
    hide Frame, Decode;
    ReceiveConserves(l);
    assert |l.Pipe()| >= |l.rbuf| && Frames([]) == [];
  }

  /** With such a frame next, the buffer fills up. */
  lemma OversizedFillsUp(l: Link) returns (moves: seq<Move>)
    requires l.Conserved() && l.Pending() != [] && |Frame(l.Pending()[0])| > l.rmax
    ensures NoSends(moves)
    ensures var k := DoAll(l, moves); k.sent == l.sent && ExitsOnRead(k) && Decode(k.rbuf) == Incomplete
  {
    hide Frame, Decode, Do;
    PipeIsLongEnough(l);
    var k := FlushAndDeliver(l, l.rmax - |l.rbuf|);
    ReceiveConserves(k);
    DecodeOfStreamPrefix(k.Pending(), k.Pipe()[..|k.rbuf|]);
    assert k.Pipe()[..|k.rbuf|] == k.rbuf;
    moves := [Flush(|l.wbuf|), Deliver(l.rmax - |l.rbuf|), Receive];
    DoThree(l, Flush(|l.wbuf|), Deliver(l.rmax - |l.rbuf|), Receive);
  }

  /** Moves without sends never put more into the pipe. */
  lemma {:induction false} PipeNeverGrows(l: Link, moves: seq<Move>)
    requires NoSends(moves)
    ensures DoAll(l, moves).rmax == l.rmax && |DoAll(l, moves).Pipe()| <= |l.Pipe()|
    decreases moves
  {
    hide Frame, Formatted;
    if moves != [] {
      assert !moves[0].Send? && !moves[0].SendSized?;
      PipeNeverGrows(Do(l, moves[0]), moves[1..]);
    }
  }

  /** Without further sends a link can come to the point where the next readable event ends the reader's process exactly
      if the bytes on their way fill the read buffer, whatever bytes they are. */
  lemma ExitIsReachableIff(l: Link)
    requires |l.rbuf| <= l.rmax
    ensures |l.Pipe()| >= l.rmax <==> exists moves :: NoSends(moves) && ExitsOnRead(DoAll(l, moves))
  {
    hide DoAll, Frame, Formatted, Decode;
    if |l.Pipe()| >= l.rmax {
      var moves := [Flush(|l.wbuf|), Deliver(l.rmax - |l.rbuf|)];
      DoTwo(l, moves[0], moves[1]);
      assert |l.Pipe()| == |l.rbuf| + |l.flight| + |l.wbuf|;
      assert NoSends(moves) && ExitsOnRead(DoAll(l, moves));
    } else {
      forall moves | NoSends(moves) ensures !ExitsOnRead(DoAll(l, moves)) {
        PipeNeverGrows(l, moves);
      }
    }
  }

  lemma DoTwo(l: Link, a: Move, b: Move)
    ensures DoAll(l, [a, b]) == Do(Do(l, a), b)
  {
    hide Do;
    assert [a, b] == [a] + [b];
    DoAllConcat(l, [a], [b]);
  }

  /** A reader that receives whatever it can before every readable event is led there exactly if some frame ahead is
      larger than its buffer. */
  lemma {:induction false} StuckFullIsReachableIff(l: Link)
    requires l.Conserved() && l.rmax > 0
    ensures !AllFit(l) <==> exists moves :: NoSends(moves) && StuckFull(DoAll(l, moves))
    decreases |l.sent| - |l.got|
  {
    if AllFit(l) {
      forall moves | NoSends(moves) ensures !StuckFull(DoAll(l, moves)) {
        NeverStuckFull(l, moves);
      }
    } else {
      var moves := FillsUp(l);
    }
  }

  /** The reader has received all it can and its buffer is full. */
  predicate StuckFull(l: Link)
  {
    ExitsOnRead(l) && Decode(l.rbuf) == Incomplete
  }

  lemma {:induction false} FillsUp(l: Link) returns (moves: seq<Move>)
    requires l.Conserved() && !AllFit(l)
    ensures NoSends(moves) && StuckFull(DoAll(l, moves))
    decreases |l.sent| - |l.got|
  {
    hide Frame, Do, Decode;
    if NextFits(l) {
      var first := NextComesOut(l);
      var k := DoAll(l, first);
      assert k.Pending() == l.Pending()[1..];
      assert !AllFit(k) by {
        var i :| 0 <= i < |l.Pending()| && |Frame(l.Pending()[i])| > l.rmax;
        assert l.Pending()[i] == k.Pending()[i - 1];
      }
      var rest := FillsUp(k);
      moves := first + rest;
      DoAllConcat(l, first, rest);
    } else {
      moves := OversizedFillsUp(l);
    }
  }

  lemma StillFits(l: Link, k: Link)
    requires l.got <= l.sent == k.sent && k.got <= k.sent && |l.got| <= |k.got| && l.rmax == k.rmax && AllFit(l)
    ensures AllFit(k)
  {
    forall i | 0 <= i < |k.Pending()| ensures |Frame(k.Pending()[i])| <= k.rmax {
      assert k.Pending()[i] == l.Pending()[|k.got| - |l.got| + i];
    }
  }

  lemma {:induction false} NeverStuckFull(l: Link, moves: seq<Move>)
    requires l.Conserved() && AllFit(l) && l.rmax > 0 && NoSends(moves)
    ensures !StuckFull(DoAll(l, moves))
    decreases moves
  {
    hide Frame, Decode;
    if moves == [] {
      if StuckFull(l) {
        FullMeansOversized(l);
      }
    } else {
      assert !moves[0].Send? && !moves[0].SendSized?;
      if moves[0] == Receive {
        ReceiveConserves(l);
      } else {
        TransferConserves(l, moves[0]);
      }
      StillFits(l, Do(l, moves[0]));
      NeverStuckFull(Do(l, moves[0]), moves[1..]);
    }
  }

  /** In a stream of frames the header parser never leaves the range of `int`. */
  lemma HonestHeadersAreInRange(l: Link)
    requires l.Conserved() && l.wmax <= INT_MAX
    ensures HeaderInRange(l.rbuf)
  {
    if l.rbuf != [] {
      HeaderStaysInRange(l);
    }
  }

  /** There the header and the number it announces stay within the sender's buffer size. */
  lemma HeaderStaysInRange(l: Link)
    requires l.Conserved() && l.rbuf != []
    ensures DigitRun(l.rbuf) + 1 + LeadingValue(l.rbuf) <= l.wmax
  {
    assert l.Pipe()[..|l.rbuf|] == l.rbuf;
    assert l.Pending() != [];
    var m := l.Pending()[0];
    assert m == l.sent[|l.got|];
    if |l.rbuf| < |Frame(m)| {
      assert l.rbuf == Frame(m)[..|l.rbuf|];
      DecodeOfPartialFrame(m, l.rbuf);
    } else {
      assert l.rbuf[..|Frame(m)|] == Frame(m);
      var rest := l.rbuf[|Frame(m)|..];
      assert l.rbuf == Digits(|m|) + [SPACE] + (m + rest);
      HeaderRoundTrip(|m|, m + rest);
    }
  }
}
