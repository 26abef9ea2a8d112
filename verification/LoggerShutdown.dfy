/** The end of the asynchronous logger: what `stop` leads to, and exactly when the files are complete. */
module LoggerShutdown {
  import opened LogText
  import opened LogQueues
  import opened Loggers
  import opened LoggerRuns

  /** Some thread has seen `_running` set and has not pushed its line yet. */
  predicate InFlight(s: State)
  {
    exists p :: 0 <= p < |s.producers| && (s.producers[p].Ready? || s.producers[p].Entered?)
  }

  /** The files hold every line that was ever pushed. */
  predicate Complete(c: Config, s: State, disk: Disk)
  {
    s.files.Gained(c.base, disk, s.files.suffix) == Text(s.queue.pushed)
  }

  lemma CompleteIff(c: Config, s: State, disk: Disk)
    requires Inv(c, s, disk)
    ensures Complete(c, s, disk) <==> s.queue.written == |s.queue.pushed|
  {
    var q := s.queue;
    FilesJoinUp(s.files, c.base, disk, q.pushed, q.written);
    assert q.pushed[..q.written] + q.pushed[q.written..] == q.pushed;
    TextOfConcat(q.pushed[..q.written], q.pushed[q.written..]);
  }

  /** Once stopped with no line in flight, nothing is pushed any more, and the final drain takes everything. */
  predicate Quiet(s: State)
  {
    && !s.running && !InFlight(s)
    && (s.pc.Draining? ==> s.pc.n == |s.queue.current|)
    && (s.pc == Done ==> s.queue.drained == |s.queue.current|)
  }

  lemma StepKeepsQuiet(c: Config, s: State, a: Action)
    requires Placed(s) && Quiet(s) && Enabled(s, a)
    ensures Quiet(Next(c, s, a)) && Next(c, s, a).queue.pushed == s.queue.pushed
  {
    var t := Next(c, s, a);
    assert forall p :: 0 <= p < |s.producers| ==> !(s.producers[p].Ready? || s.producers[p].Entered?);
  }

  lemma {:induction false} RunKeepsQuiet(c: Config, s: State, run: seq<Action>, disk: Disk)
    requires Inv(c, s, disk) && Quiet(s) && Feasible(c, s, run)
    ensures Quiet(Run(c, s, run)) && Run(c, s, run).queue.pushed == s.queue.pushed
    decreases |run|
  {
    hide Enabled, Next, Quiet;
    if run != [] {
      StepKeepsQuiet(c, s, run[0]);
      StepKeepsInv(c, s, run[0], disk);
      RunKeepsQuiet(c, Next(c, s, run[0]), run[1..], disk);
    }
  }

  lemma QuietEndsComplete(c: Config, s: State, disk: Disk)
    requires Inv(c, s, disk) && Quiet(s) && s.pc == Done
    ensures Complete(c, s, disk)
  {
    CompleteIff(c, s, disk);
  }

  /** The consumer can finish on its own; the producers stay where they are. */
  lemma {:induction false} DrainFinishes(c: Config, s: State) returns (run: seq<Action>)
    requires Placed(s) && s.queue.Fifo() && s.pc.Draining?
    ensures Feasible(c, s, run) && Run(c, s, run).pc == Done
    ensures Run(c, s, run).producers == s.producers
    decreases s.pc.n - s.queue.drained
  {
    var a := Consume(false);
    RunOfOne(c, s, a);
    run := [a];
    if s.queue.drained < s.pc.n {
      StepKeepsPlaced(c, s, a);
      StepKeepsFifo(c, s, a);
      var rest := DrainFinishes(c, Next(c, s, a));
      RunOfConcat(c, s, [a], rest);
      run := [a] + rest;
    }
  }

  /** A line in flight can still be pushed after the consumer has finished. */
  lemma LateLine(c: Config, s: State) returns (run: seq<Action>)
    requires Exclusive(s) && s.pc == Done && InFlight(s)
    ensures Feasible(c, s, run) && Run(c, s, run).pc == Done
    ensures Run(c, s, run).queue.written == s.queue.written && |Run(c, s, run).queue.pushed| == |s.queue.pushed| + 1
  {
    var p :| 0 <= p < |s.producers| && (s.producers[p].Ready? || s.producers[p].Entered?);
    if s.producers[p].Entered? {
      RunOfOne(c, s, Push(p));
      run := [Push(p)];
    } else if s.owner == Free {
      run := PushReady(c, s, p);
    } else if s.producers[s.owner.p].Entered? {
      RunOfOne(c, s, Push(s.owner.p));
      run := [Push(s.owner.p)];
    } else {
      var release := Release(s.owner.p);
      RunOfOne(c, s, release);
      var rest := PushReady(c, Next(c, s, release), p);
      run := [release] + rest;
      RunOfConcat(c, s, [release], rest);
    }
  }

  lemma PushReady(c: Config, s: State, p: nat) returns (run: seq<Action>)
    requires p < |s.producers| && s.producers[p].Ready? && s.owner == Free && s.pc == Done
    ensures Feasible(c, s, run) && Run(c, s, run).pc == Done
    ensures Run(c, s, run).queue.written == s.queue.written && |Run(c, s, run).queue.pushed| == |s.queue.pushed| + 1
  {
    RunOfOne(c, s, Acquire(p));
    RunOfOne(c, Next(c, s, Acquire(p)), Push(p));
    run := [Acquire(p)] + [Push(p)];
    RunOfConcat(c, s, [Acquire(p)], [Push(p)]);
  }

  /** From the moment the consumer leaves its loop, every run that ends has written every line exactly if no thread had
      passed the test of `_running` without having pushed its line. */
  lemma ShutdownIsCompleteIff(c: Config, s: State, disk: Disk)
    requires Inv(c, s, disk) && s.pc == Testing && !s.running
    ensures
      (forall run :: Feasible(c, s, run) && Run(c, s, run).pc == Done ==> Complete(c, Run(c, s, run), disk))
      <==> !InFlight(s)
  {
    hide Enabled, Next, Inv, Complete;
    if !InFlight(s) {
      QuietAtTheEnd(c, s, disk);
    } else {
      var run := LosesALine(c, s, disk);
    }
  }

  lemma QuietAtTheEnd(c: Config, s: State, disk: Disk)
    requires Inv(c, s, disk) && s.pc == Testing && !s.running && !InFlight(s)
    ensures forall run :: Feasible(c, s, run) && Run(c, s, run).pc == Done ==> Complete(c, Run(c, s, run), disk)
  {
    hide Enabled, Next, Inv, Complete;
    assert Quiet(s);
    forall run | Feasible(c, s, run) && Run(c, s, run).pc == Done ensures Complete(c, Run(c, s, run), disk) {
      RunKeepsInv(c, s, run, disk);
      RunKeepsQuiet(c, s, run, disk);
      QuietEndsComplete(c, Run(c, s, run), disk);
    }
  }

  lemma LeavesTheLoop(c: Config, s: State) returns (run: seq<Action>)
    requires Placed(s) && s.queue.Fifo() && s.pc == Testing && !s.running
    ensures Feasible(c, s, run) && Run(c, s, run).pc == Done
    ensures Run(c, s, run).producers == s.producers
  {
    var a := Consume(false);
    RunOfOne(c, s, a);
    run := [a];
    if Next(c, s, a).pc != Done {
      StepKeepsPlaced(c, s, a);
      StepKeepsFifo(c, s, a);
      var rest := DrainFinishes(c, Next(c, s, a));
      RunOfConcat(c, s, [a], rest);
      run := [a] + rest;
    }
  }

  lemma LosesALine(c: Config, s: State, disk: Disk) returns (run: seq<Action>)
    requires Inv(c, s, disk) && s.pc == Testing && !s.running && InFlight(s)
    ensures Feasible(c, s, run) && Run(c, s, run).pc == Done && !Complete(c, Run(c, s, run), disk)
  {
    hide Enabled, Next, Complete;
    var a := LeavesTheLoop(c, s);
    RunKeepsInv(c, s, a, disk);
    var t := Run(c, s, a);
    var b := LateLine(c, t);
    RunOfConcat(c, s, a, b);
    run := a + b;
    RunKeepsInv(c, s, run, disk);
    CompleteIff(c, Run(c, s, run), disk);
  }

  /* ---- the consumer ends ---- */

  function Weight(stage: Stage): nat
  {
    match stage
    case Idle => 0
    case Ready(_) => 4
    case Entered(_) => 3
    case Leaving => 1
  }

  function Total(producers: seq<Stage>): nat
  {
    if producers == [] then 0 else Total(producers[..|producers| - 1]) + Weight(producers[|producers| - 1])
  }

  lemma {:induction false} TotalOfUpdate(producers: seq<Stage>, p: nat, stage: Stage)
    requires p < |producers|
    ensures Total(producers[p := stage]) == Total(producers) - Weight(producers[p]) + Weight(stage)
  {
    var last := |producers| - 1;
    var changed := producers[p := stage];
    if p < last {
      TotalOfUpdate(producers[..last], p, stage);
      assert changed[..last] == producers[..last][p := stage];
    } else {
      assert changed[..last] == producers[..last];
    }
  }

  /** An upper bound for what the consumer still has to do once it has been told to stop. */
  function Ahead(pc: Pc, q: Queue): int
  {
    var c := |q.current|;
    match pc
    case Done => 0
    case Draining(n) => 1 + n - q.drained
    case Testing => c + 2
    case Opening => c + 3
    case Reopening => c + 3
    case Zeroing => c + 4
    case Resetting => c + 5
    case Rolling => c + 6
    case Writing => c + 7 + |q.next| - q.taken
    case Checking => c + 8 + |q.next|
    case Swapping => c + 9
    case Waiting => c + 10
    case Deciding => c + 11
    case Locking => c + 12
  }

  function Remaining(s: State): int
  {
    Ahead(s.pc, s.queue) + Total(s.producers)
  }

  lemma RemainingIsNatural(s: State)
    requires Placed(s) && s.queue.Fifo()
    ensures Remaining(s) >= 0
  {
  }

  lemma ConsumerApproachesTheEnd(c: Config, s: State, newDay: bool)
    requires Placed(s) && s.queue.Fifo() && !s.running && s.pc != Done
    ensures var t := Consumed(c, s, newDay); Ahead(t.pc, t.queue) < Ahead(s.pc, s.queue) && t.producers == s.producers
  {
  }

  /** After the stop request every step of every thread brings the end nearer. */
  lemma StepApproachesTheEnd(c: Config, s: State, a: Action)
    requires Placed(s) && s.queue.Fifo() && !s.running && Enabled(s, a) && !a.Call?
    ensures Remaining(Next(c, s, a)) < Remaining(s) && !Next(c, s, a).running
  {
    match a
    case Acquire(p) => TotalOfUpdate(s.producers, p, Entered(s.producers[p].line));
    case Push(p) => TotalOfUpdate(s.producers, p, Leaving);
    case Release(p) => TotalOfUpdate(s.producers, p, Idle);
    case Consume(newDay) => ConsumerApproachesTheEnd(c, s, newDay);
  }

  /** Nobody waits for the mutex forever: as long as the consumer has not finished, it can go on, or the producer that
      holds the mutex can. */
  lemma SomeoneCanMove(s: State)
    requires Exclusive(s) && s.pc != Done
    ensures Enabled(s, Consume(false))
      || (s.owner.Producer? && (Enabled(s, Push(s.owner.p)) || Enabled(s, Release(s.owner.p))))
  {
  }

  /** Once stopped, no schedule is longer than `Remaining`, and none can end before the consumer does, so that `stop`
      returns. */
  lemma {:induction false} ShutdownEnds(c: Config, s: State, run: seq<Action>, disk: Disk)
    requires Inv(c, s, disk) && !s.running && Feasible(c, s, run)
    requires forall i :: 0 <= i < |run| ==> !run[i].Call?
    ensures |run| <= Remaining(s)
    ensures (forall a :: Enabled(Run(c, s, run), a) ==> a.Call?) ==> Run(c, s, run).pc == Done
    decreases |run|
  {
    hide Enabled, Next, Ahead;
    if run != [] {
      StepApproachesTheEnd(c, s, run[0]);
      StepKeepsInv(c, s, run[0], disk);
      ShutdownEnds(c, Next(c, s, run[0]), run[1..], disk);
    } else {
      RemainingIsNatural(s);
      if s.pc != Done {
        SomeoneCanMove(s);
      }
    }
  }
}
