/** What a call of `stop` leads to: the condition, at the moment of the call, under which no line is lost. */
module LoggerStop {
  import opened LogText
  import opened LogQueues
  import opened Loggers
  import opened LoggerRuns
  import opened LoggerShutdown

  /** The consumer will ask for the mutex to reset the byte count when it is through with its batch. */
  predicate WillReset(c: Config, s: State)
  {
    (c.rule == ROLLING_SIZE || c.rule == ROLLING_SIZEDAILY) && s.accumulated > c.maxBytes
  }

  /** The consumer can reach the end of its loop without the mutex. */
  predicate NeedsNoLock(c: Config, s: State)
  {
    match s.pc
    case Checking => s.queue.next == [] || !WillReset(c, s)
    case Writing => !WillReset(c, s)
    case Rolling => !WillReset(c, s)
    case Locking => false
    case Waiting => false
    case Resetting => false
    case Deciding => false
    case Swapping => false
    case Zeroing => false
    case _ => true
  }

  /** Some thread has seen `_running` set and still wants the mutex. */
  predicate SomeoneReady(s: State)
  {
    exists p :: 0 <= p < |s.producers| && s.producers[p].Ready?
  }

  /** Some thread holds the mutex and is about to push its line. */
  predicate SomeoneEntered(s: State)
  {
    exists p :: 0 <= p < |s.producers| && s.producers[p].Entered?
  }

  /** A line is in flight that the consumer does not have to wait for. */
  predicate CanLose(c: Config, s: State)
  {
    SomeoneReady(s) || (SomeoneEntered(s) && NeedsNoLock(c, s))
  }

  /** Once stopped: the only line that may still be pushed is one that the consumer has to wait for. */
  predicate Safe(c: Config, s: State)
  {
    !s.running && !CanLose(c, s) && (SomeoneEntered(s) || Quiet(s))
  }

  lemma StopIsSafe(c: Config, s: State)
    requires Placed(s) && s.running && !CanLose(c, s)
    ensures Safe(c, Next(c, s, Stop))
  {
    var t := Next(c, s, Stop);
    if !SomeoneEntered(s) {
      assert !InFlight(t);
    }
  }

  lemma StepKeepsSafe(c: Config, s: State, a: Action)
    requires Exclusive(s) && Placed(s) && Safe(c, s) && Enabled(s, a)
    ensures Safe(c, Next(c, s, a))
  {
    var t := Next(c, s, a);
    if Quiet(s) {
      StepKeepsQuiet(c, s, a);
      QuietIsSafe(c, t);
    } else {
      var p :| 0 <= p < |s.producers| && s.producers[p].Entered?;
      assert s.owner == Producer(p);
      if a.Push? {
        assert a.p == p;
        assert Quiet(t);
        QuietIsSafe(c, t);
      } else {
        assert t.producers[p].Entered?;
      }
    }
  }

  lemma QuietIsSafe(c: Config, s: State)
    requires Quiet(s)
    ensures Safe(c, s)
  {
  }

  lemma {:induction false} RunKeepsSafe(c: Config, s: State, run: seq<Action>, disk: Disk)
    requires Inv(c, s, disk) && Safe(c, s) && Feasible(c, s, run)
    ensures Safe(c, Run(c, s, run))
    decreases |run|
  {
    hide Enabled, Next, Safe;
    if run != [] {
      StepKeepsSafe(c, s, run[0]);
      StepKeepsInv(c, s, run[0], disk);
      RunKeepsSafe(c, Next(c, s, run[0]), run[1..], disk);
    }
  }

  lemma SafeEndsComplete(c: Config, s: State, disk: Disk)
    requires Inv(c, s, disk) && Safe(c, s) && s.pc == Done
    ensures Complete(c, s, disk)
  {
    QuietEndsComplete(c, s, disk);
  }

  /** The consumer finishes on its own when no producer holds the mutex, or when it does not need it. */
  lemma {:induction false} ConsumerFinishes(c: Config, s: State) returns (run: seq<Action>)
    requires Exclusive(s) && Placed(s) && s.queue.Fifo() && !s.running
    requires !s.owner.Producer? || NeedsNoLock(c, s)
    ensures Feasible(c, s, run) && Run(c, s, run).pc == Done
    ensures Run(c, s, run).producers == s.producers
    decreases Ahead(s.pc, s.queue)
  {
    if s.pc == Done {
      RunOfNone(c, s);
      run := [];
    } else {
      var a := Consume(false);
      ConsumerStaysFree(c, s);
      StepKeepsExclusive(c, s, a);
      StepKeepsPlaced(c, s, a);
      StepKeepsFifo(c, s, a);
      ConsumerApproachesTheEnd(c, s, false);
      AheadIsNatural(s);
      RunOfOne(c, s, a);
      var rest := ConsumerFinishes(c, Next(c, s, a));
      RunOfConcat(c, s, [a], rest);
      run := [a] + rest;
    }
  }

  lemma AheadIsNatural(s: State)
    requires Placed(s) && s.queue.Fifo()
    ensures Ahead(s.pc, s.queue) >= 0
  {
  }

  lemma ConsumerStaysFree(c: Config, s: State)
    requires Exclusive(s) && Placed(s) && !s.running && s.pc != Done
    requires !s.owner.Producer? || NeedsNoLock(c, s)
    ensures Enabled(s, Consume(false))
    ensures var t := Consumed(c, s, false); !t.running && (!t.owner.Producer? || NeedsNoLock(c, t))
  {
  }

  /** A producer that holds the mutex can push and leave; the others stay where they are. */
  lemma OwnerLeaves(c: Config, s: State) returns (run: seq<Action>)
    requires Exclusive(s) && !s.running && SomeoneReady(s)
    ensures Feasible(c, s, run) && !Run(c, s, run).owner.Producer? && SomeoneReady(Run(c, s, run))
    ensures !Run(c, s, run).running
  {
    var p :| 0 <= p < |s.producers| && s.producers[p].Ready?;
    RunOfNone(c, s);
    run := [];
    if s.owner.Producer? {
      var q, t := s.owner.p, s;
      if s.producers[q].Entered? {
        RunOfOne(c, s, Push(q));
        run := [Push(q)];
        t := Next(c, s, Push(q));
      }
      RunOfOne(c, t, Release(q));
      RunOfConcat(c, s, run, [Release(q)]);
      run := run + [Release(q)];
      assert Run(c, s, run).producers[p].Ready?;
    }
  }

  /** Otherwise some schedule loses a line. */
  lemma StopLosesALine(c: Config, s: State, disk: Disk) returns (run: seq<Action>)
    requires Inv(c, s, disk) && s.running && CanLose(c, s)
    ensures
      var t := Next(c, s, Stop);
      Feasible(c, t, run) && Run(c, t, run).pc == Done && !Complete(c, Run(c, t, run), disk)
  {
    hide Enabled, Next, Complete, NeedsNoLock;
    var t := Stopped(c, s, disk);
    RunOfNone(c, t);
    var a: seq<Action> := [];
    if SomeoneReady(s) {
      a := OwnerLeaves(c, t);
    }
    RunKeepsInv(c, t, a, disk);
    var u := Run(c, t, a);
    assert InFlight(u);
    var b := ConsumerFinishes(c, u);
    RunKeepsInv(c, u, b, disk);
    var v := Run(c, u, b);
    var d := LateLine(c, v);
    RunKeepsInv(c, v, d, disk);
    CompleteIff(c, Run(c, v, d), disk);
    RunOfConcat(c, u, b, d);
    RunOfConcat(c, t, a, b + d);
    run := a + (b + d);
  }

  lemma Stopped(c: Config, s: State, disk: Disk) returns (t: State)
    requires Inv(c, s, disk) && s.running
    ensures Enabled(s, Stop) && t == Next(c, s, Stop) && t == s.(running := false) && Inv(c, t, disk)
    ensures SomeoneReady(t) == SomeoneReady(s) && SomeoneEntered(t) == SomeoneEntered(s)
    ensures NeedsNoLock(c, t) == NeedsNoLock(c, s)
  {
    t := Next(c, s, Stop);
    StepKeepsInv(c, s, Stop, disk);
  }

  /** After `stop` every schedule writes every line exactly if, at the call, no thread waits for the mutex with a line
      and a thread that holds it with one is a thread that the consumer has to wait for. */
  lemma StopIsCompleteIff(c: Config, s: State, disk: Disk)
    requires Inv(c, s, disk) && s.running
    ensures
      (forall run :: Feasible(c, Next(c, s, Stop), run) && Run(c, Next(c, s, Stop), run).pc == Done ==>
         Complete(c, Run(c, Next(c, s, Stop), run), disk))
      <==> !CanLose(c, s)
  {
    hide Next, Inv, Complete, CanLose, Enabled;
    if CanLose(c, s) {
      var run := StopLosesALine(c, s, disk);
    } else {
      StopIsComplete(c, s, disk);
    }
  }

  lemma StopIsComplete(c: Config, s: State, disk: Disk)
    requires Inv(c, s, disk) && s.running && !CanLose(c, s)
    ensures
      forall run :: Feasible(c, Next(c, s, Stop), run) && Run(c, Next(c, s, Stop), run).pc == Done ==>
        Complete(c, Run(c, Next(c, s, Stop), run), disk)
  {
    hide Next, Complete, CanLose, Safe;
    var t := Stopped(c, s, disk);
    StopIsSafe(c, s);
    forall run | Feasible(c, t, run) && Run(c, t, run).pc == Done ensures Complete(c, Run(c, t, run), disk) {
      RunKeepsInv(c, t, run, disk);
      RunKeepsSafe(c, t, run, disk);
      SafeEndsComplete(c, Run(c, t, run), disk);
    }
  }

  /** A run from the start that loses a line: it is logged while the logger runs, and pushed after the last file has
      been written. */
  lemma StopCanLose(c: Config, s: State, disk: Disk, line: Line) returns (run: seq<Action>)
    requires Start(s, disk) && |s.producers| > 0
    ensures Feasible(c, s, run) && Run(c, s, run).pc == Done && !Complete(c, Run(c, s, run), disk)
  {
    hide Complete, NeedsNoLock, WillReset;
    StartIsSound(c, s, disk);
    var t := Next(c, s, Consume(false));
    var u := Next(c, t, Call(0, line));
    StepKeepsInv(c, s, Consume(false), disk);
    StepKeepsInv(c, t, Call(0, line), disk);
    RunOfOne(c, s, Consume(false));
    RunOfOne(c, t, Call(0, line));
    RunOfOne(c, u, Stop);
    assert u.producers[0].Ready?;
    var rest := StopLosesALine(c, u, disk);
    hide Feasible, Run, Enabled, Next;
    RunOfConcat(c, s, [Consume(false)], [Call(0, line)]);
    RunOfConcat(c, s, [Consume(false)] + [Call(0, line)], [Stop]);
    RunOfConcat(c, s, [Consume(false)] + [Call(0, line)] + [Stop], rest);
    run := [Consume(false)] + [Call(0, line)] + [Stop] + rest;
  }
}
