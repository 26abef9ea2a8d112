/** Whole runs of a link whose sends need not fit: when the stream stays in step, and when it can come back. */
module LinkRuns {
  import opened Decimal
  import opened Framing
  import opened Links

  /** What the peer has received and what it would still receive, and the bytes that would then be left. */
  ghost function Output(l: Link): Received
  {
    Received(l.got, []).Then(Drain(l.Pipe()))
  }

  /** In step means that this is what was sent. */
  lemma InSyncIff(l: Link)
    ensures l.InSync() <==> Output(l) == Received(l.sent, [])
  {
    hide Drain;
    var r := Drain(l.Pipe());
    if l.got <= l.sent {
      assert l.sent == l.got + l.Pending();
    }
    assert r.messages == (l.got + r.messages)[|l.got|..];
    assert l.got <= l.got + r.messages;
  }

  /** Transfers and receives change neither. */
  lemma MoveKeepsOutput(l: Link, move: Move)
    requires move.Flush? || move.Deliver? || move.Receive?
    ensures Output(Do(l, move)) == Output(l) && Do(l, move).sent == l.sent
  {
    hide Decode;
    var k := Do(l, move);
    if move.Receive? {
      match Decode(l.rbuf)
      case Incomplete =>
      case Message(m, rest) =>
        DecodeExtends(l.rbuf, l.flight + l.wbuf);
        assert l.Pipe() == l.rbuf + (l.flight + l.wbuf) && k.Pipe() == rest + (l.flight + l.wbuf);
        var later := Drain(k.Pipe()).messages;
        assert l.got + ([m] + later) == (l.got + [m]) + later;
    } else {
      assert k.Pipe() == l.Pipe();
    }
  }

  /** A send adds what the accepted bytes decode to behind the bytes that would have been left. */
  lemma SendExtendsOutput(l: Link, k: Link, part: Bytes)
    requires k.got == l.got && k.Pipe() == l.Pipe() + part
    ensures Output(k) == Output(l).Then(Drain(Output(l).left + part))
  {
    hide Drain;
    DrainSplit(l.Pipe(), part);
    var r := Drain(l.Pipe());
    var later := Drain(r.left + part);
    assert (l.got + r.messages) + later.messages == l.got + (r.messages + later.messages);
  }

  /** The fewest bytes that decode to a message: an empty one needs no digits. */
  function Cost(m: Bytes): nat
  {
    if m == [] then 1 else |Digits(|m|)| + 1 + |m|
  }

  function CostOfAll(messages: seq<Bytes>): nat
  {
    if messages == [] then 0 else Cost(messages[0]) + CostOfAll(messages[1..])
  }

  lemma {:induction false} CostAddsUp(a: seq<Bytes>, b: seq<Bytes>)
    ensures CostOfAll(a + b) == CostOfAll(a) + CostOfAll(b)
  {
    if a == [] {
      assert [] + b == b;
    } else {
      assert (a + b)[1..] == a[1..] + b;
      CostAddsUp(a[1..], b);
    }
  }

  /** No shorter run of digits denotes a positive number than the one that is printed. */
  lemma {:induction false} PrintedIsShortest(s: Bytes)
    requires AllDigits(s) && Value(s) > 0
    ensures |Digits(Value(s))| <= |s|
  {
    if Value(s) >= 10 {
      PrintedIsShortest(s[..|s| - 1]);
    }
  }

  lemma DecodeIsThrifty(s: Bytes)
    requires Decode(s).Message?
    ensures Cost(Decode(s).payload) + |Decode(s).rest| <= |s|
  {
    hide Digits;
    if Decode(s).payload != [] {
      PrintedIsShortest(s[..DigitRun(s)]);
    }
  }

  /** Bytes decode to no more than they can pay for. */
  lemma {:induction false} DrainIsThrifty(s: Bytes)
    ensures CostOfAll(Drain(s).messages) + |Drain(s).left| <= |s|
    decreases |s|
  {
    hide Decode, Digits;
    match Decode(s)
    case Incomplete =>
    case Message(m, rest) =>
      DecodeIsThrifty(s);
      DrainIsThrifty(rest);
      assert ([m] + Drain(rest).messages)[1..] == Drain(rest).messages;
  }

  /** The bytes that the peer would need for what was sent and does not get. */
  ghost function Missing(l: Link): int
  {
    CostOfAll(l.sent) - CostOfAll(Output(l).messages) - |Output(l).left|
  }

  /** The length of the frame that a message needs. */
  function FrameSize(m: Bytes): nat
  {
    |Digits(|m|)| + 1 + |m|
  }

  /** How many of these bytes a send does not get into the write buffer; a string longer than the size given with it can
      get too many in. */
  function Lost(l: Link, move: Move): int
  {
    match move
    case Send(m) => FrameSize(m) - Accepted(l, |Frame(m)|)
    case SendSized(str, size) => FrameSize(Meant(str, size)) - Accepted(l, |Formatted(size, str)|)
    case _ => 0
  }

  function LostInAll(l: Link, moves: seq<Move>): int
    decreases moves
  {
    if moves == [] then 0 else Lost(l, moves[0]) + LostInAll(Do(l, moves[0]), moves[1..])
  }

  /** The sends of an empty message. */
  function Empties(moves: seq<Move>): nat
  {
    if moves == [] then 0 else (if SendsEmpty(moves[0]) then 1 else 0) + Empties(moves[1..])
  }

  predicate SendsEmpty(move: Move)
  {
    move == Send([]) || (move.SendSized? && Meant(move.str, move.size) == [])
  }

  /** A byte that is not accepted is missing from then on, but for one of an empty message. */
  lemma SendMisses(l: Link, k: Link, m: Bytes, part: Bytes)
    requires k == l.(sent := l.sent + [m], wbuf := l.wbuf + part)
    ensures Missing(k) >= Missing(l) + FrameSize(m) - |part| - if m == [] then 1 else 0
  {
    hide Drain, Output, Digits;
    var (out, later) := (Output(l), Drain(Output(l).left + part));
    assert k.Pipe() == l.Pipe() + part;
    SendExtendsOutput(l, k, part);
    DrainIsThrifty(out.left + part);
    CostAddsUp(out.messages, later.messages);
    CostAddsUp(l.sent, [m]);
    assert CostOfAll([m]) == Cost(m) + CostOfAll([m][1..]) && [m][1..] == [];
    CostOfNothing();
  }

  lemma CostOfNothing()
    ensures |Digits(0)| == 1
  {
  }

  lemma MoveMisses(l: Link, move: Move)
    ensures Missing(Do(l, move)) >= Missing(l) + Lost(l, move) - if SendsEmpty(move) then 1 else 0
  {
    hide Output, Frame, Formatted, FrameSize, Missing, Decode;
    match move
    case Send(m) => SendMisses(l, Do(l, move), m, Frame(m)[..Accepted(l, |Frame(m)|)]);
    case SendSized(str, size) =>
      var buf := Formatted(size, str);
      SendMisses(l, Do(l, move), Meant(str, size), buf[..Accepted(l, |buf|)]);
    case _ => TransferMisses(l, move);
  }

  lemma TransferMisses(l: Link, move: Move)
    requires move.Flush? || move.Deliver? || move.Receive?
    ensures Missing(Do(l, move)) == Missing(l)
  {
    hide Do, Output;
    MoveKeepsOutput(l, move);
  }

  lemma {:induction false} RunMisses(l: Link, moves: seq<Move>)
    ensures Missing(DoAll(l, moves)) >= Missing(l) + LostInAll(l, moves) - Empties(moves)
    decreases moves
  {
    hide Missing, Lost, SendsEmpty, Do;
    if moves != [] {
      MoveMisses(l, moves[0]);
      RunMisses(Do(l, moves[0]), moves[1..]);
    }
  }

  /** Over every run the stream can be in step only if no more bytes have been lost than empty messages sent. */
  lemma LossNeedsEmptyMessages(l: Link, moves: seq<Move>)
    requires l.InSync() && DoAll(l, moves).InSync()
    ensures LostInAll(l, moves) <= Empties(moves)
  {
    hide Do, Link.InSync, Output, DoAll, Lost, SendsEmpty;
    RunMisses(l, moves);
    InSyncIff(l);
    InSyncIff(DoAll(l, moves));
  }

  /** Only strings are sent, and none that is empty. */
  predicate PlainSends(moves: seq<Move>)
  {
    forall i :: 0 <= i < |moves| ==> !moves[i].SendSized? && moves[i] != Send([])
  }

  /** Then a byte is lost exactly if a send does not fit. */
  lemma {:induction false} PlainLoss(l: Link, moves: seq<Move>)
    requires PlainSends(moves)
    ensures Empties(moves) == 0 && LostInAll(l, moves) >= 0 && (LostInAll(l, moves) == 0 <==> AllSendsFit(l, moves))
    decreases moves
  {
    hide Frame, Do, SendFits;
    if moves != [] {
      assert !moves[0].SendSized? && moves[0] != Send([]);
      StringLoss(l, moves[0]);
      PlainLoss(Do(l, moves[0]), moves[1..]);
    }
  }

  lemma StringLoss(l: Link, move: Move)
    requires !move.SendSized?
    ensures Lost(l, move) >= 0 && (Lost(l, move) == 0 <==> move.Send? ==> SendFits(l, move.m))
  {
    hide Frame, Digits;
    if move.Send? {
      FrameLength(move.m);
    }
  }

  /** Sends that fit, of either kind and of any messages, keep the stream in step. */
  lemma {:induction false} FittingRunKeepsSync(l: Link, moves: seq<Move>)
    requires l.InSync() && AllSendsFit(l, moves)
    ensures DoAll(l, moves).InSync()
    decreases moves
  {
    hide Do, Link.InSync, Output;
    if moves != [] {
      var k := Do(l, moves[0]);
      match moves[0] {
        case Send(m) => SendKeepsSyncIff(l, m);
        case SendSized(str, size) => SizedSendKeepsSyncIff(l, str, size);
        case _ =>
          MoveKeepsOutput(l, moves[0]);
          InSyncIff(l);
          InSyncIff(k);
      }
      FittingRunKeepsSync(k, moves[1..]);
    }
  }

  /** Over every run that sends strings that are not empty, the stream is in step exactly if every send so far has
      fitted: a send that does not fit puts it out of step for good. */
  lemma RunKeepsSyncIff(l: Link, moves: seq<Move>)
    requires l.InSync() && PlainSends(moves)
    ensures DoAll(l, moves).InSync() <==> AllSendsFit(l, moves)
  {
    hide Do, Link.InSync, DoAll, Lost, SendFits;
    PlainLoss(l, moves);
    if AllSendsFit(l, moves) {
      FittingRunKeepsSync(l, moves);
    } else if DoAll(l, moves).InSync() {
      LossNeedsEmptyMessages(l, moves);
    }
  }

  lemma EmptyIsInSync(l: Link)
    requires l.sent == l.got == [] && l.Pipe() == []
    ensures l.InSync()
  {
    DrainsNothing([]);
  }

  const A0: Bytes := [97, ZERO]
  const TWO: byte := ZERO + 2

  lemma FramesThatHeal()
    ensures Frame(A0) == [TWO, SPACE, 97, ZERO] && Frame([]) == [ZERO, SPACE]
    ensures Drain([TWO, SPACE, 97, ZERO, SPACE]) == Received([A0, []], [])
  {
    assert UpToNul(A0) == A0 && Digits(2) == [TWO] && Digits(0) == [ZERO];
    var s := [TWO, SPACE, 97, ZERO, SPACE];
    assert s == Frame(A0) + [SPACE];
    DecodeOfFrame(A0, [SPACE]);
    DigitRunIs([SPACE], 0);
    assert Decode([SPACE]) == Message([], []);
    DecodeOfNothing();
    assert Drain([SPACE]) == Received([[]], []);
    assert [A0] + [[]] == [A0, []];
  }

  /** An empty message can bring it back: "2 a" was accepted of the frame of "a0", and "0 " follows. */
  lemma EmptyMessageHeals()
    ensures var l1 := Do(Link([], [], [], [], [], 3, 8), Send(A0));
      var l2 := Do(Do(l1, Flush(3)), Send([]));
      !l1.InSync() && l2.InSync() && l2.sent == [A0, []]
  {
    hide Frame, Drain;
    FramesThatHeal();
    var start := Link([], [], [], [], [], 3, 8);
    EmptyIsInSync(start);
    SendKeepsSyncIff(start, A0);
    var l1 := Do(start, Send(A0));
    assert l1.wbuf == [TWO, SPACE, 97];
    var l2 := Do(Do(l1, Flush(3)), Send([]));
    assert l2.flight == [TWO, SPACE, 97] && l2.wbuf == [ZERO, SPACE];
    assert l2.Pipe() == [TWO, SPACE, 97, ZERO, SPACE];
  }

  const ABC0: Bytes := [97, 98, 99, ZERO]

  lemma DigitsThatHeal()
    ensures Drain(Frame(ABC) + ([ZERO] + Frame(ABC))) == Received([ABC, ABC], [])
  {
    hide Frame, Decode;
    FramesOfThree();
    DecodeOfFrame(ABC, [ZERO] + Frame(ABC));
    assert [ZERO] + Frame(ABC) == [ZERO, THREE, SPACE, 97, 98, 99];
    LeadingZero();
    assert [ABC] + [ABC] == [ABC, ABC];
  }

  lemma FormattedTooShortByADigit()
    ensures Formatted(3, ABC0) == Frame(ABC) + [ZERO] && UpToNul(ABC0) == ABC0
  {
    assert UpToNul(ABC0) == ABC0 && Digits(3) == [THREE];
    FramesOfThree();
  }

  lemma LeadingZero()
    ensures Drain([ZERO, THREE, SPACE, 97, 98, 99]) == Received([ABC], [])
  {
    var t := [ZERO, THREE, SPACE, 97, 98, 99];
    DigitRunIs(t, 2);
    assert t[..2] == [ZERO, THREE] && [ZERO, THREE][..1] == [ZERO] && Value([ZERO]) == 0 && Value([ZERO, THREE]) == 3;
    assert Decode(t) == Message(ABC, []);
    DecodeOfNothing();
    assert [ABC] + [] == [ABC];
  }

  lemma SizeDoesNotFit(l: Link)
    requires l.wbuf == [] && l.wmax == 8
    ensures !SizedFits(l, ABC0, 3)
  {
    FormattedTooShortByADigit();
  }

  /** So can a string whose size is given too small: after `sendMessage("abc0", 3)` the byte left over counts as a
      leading zero of the next header. */
  lemma LeftoverDigitHeals()
    ensures var l1 := Do(Link([], [], [], [], [], 8, 8), SendSized(ABC0, 3));
      var l2 := Do(Do(l1, Flush(8)), Send(ABC));
      !l1.InSync() && l2.InSync() && l2.sent == [ABC, ABC]
  {
    hide Frame, Formatted, Drain, SizedFits, Digits, UpToNul;
    DigitsThatHeal();
    FormattedTooShortByADigit();
    FramesOfThree();
    var start := Link([], [], [], [], [], 8, 8);
    EmptyIsInSync(start);
    SizeDoesNotFit(start);
    SizedSendKeepsSyncIff(start, ABC0, 3);
    var l1 := Do(start, SendSized(ABC0, 3));
    assert Meant(ABC0, 3) == ABC && l1.wbuf == Frame(ABC) + [ZERO];
    var l2 := Do(Do(l1, Flush(8)), Send(ABC));
    assert l2.flight == l1.wbuf && l2.wbuf == Frame(ABC);
    assert l2.Pipe() == Frame(ABC) + ([ZERO] + Frame(ABC));
  }
}
