/** Turns of the consumer's loop among the steps of all other threads: when it waits, what it writes, what it opens. */
module LoggerTurns {
  import opened LogText
  import opened LogQueues
  import opened Loggers
  import opened LoggerRuns

  /** The run ends with the next swap. */
  predicate UntilSwapped(c: Config, s: State, run: seq<Action>)
    requires Feasible(c, s, run)
    decreases |run|
  {
    if run == [] then s.pc == Checking
    else s.pc in {Deciding, Waiting, Swapping} && UntilSwapped(c, Next(c, s, run[0]), run[1..])
  }

  /** The consumer owns the mutex in every state before the last. */
  predicate HoldsOn(c: Config, s: State, run: seq<Action>)
    requires Feasible(c, s, run)
    decreases |run|
  {
    run == [] || (s.owner == Consumer && HoldsOn(c, Next(c, s, run[0]), run[1..]))
  }

  predicate WithoutConsumer(run: seq<Action>)
  {
    forall a :: a in run ==> !a.Consume?
  }

  /** While the consumer owns the mutex, other threads leave the buffers and the byte count alone. */
  lemma {:induction false} OwnerIsAlone(c: Config, s: State, run: seq<Action>)
    requires Exclusive(s) && s.owner == Consumer && Feasible(c, s, run) && WithoutConsumer(run)
    ensures
      var t := Run(c, s, run);
      && t.owner == Consumer && t.pc == s.pc && t.queue == s.queue && t.accumulated == s.accumulated
      && Exclusive(t) && (t.running ==> s.running)
    decreases |run|
  {
    if run != [] {
      assert run[0] in run;
      StepKeepsExclusive(c, s, run[0]);
      OwnerIsAlone(c, Next(c, s, run[0]), run[1..]);
    }
  }

  lemma {:induction false} SwapsWithoutLettingGo(c: Config, s: State, run: seq<Action>)
    requires Exclusive(s) && s.pc == Swapping && Feasible(c, s, run) && UntilSwapped(c, s, run)
    ensures HoldsOn(c, s, run)
    decreases |run|
  {
    if run != [] {
      StepKeepsExclusive(c, s, run[0]);
      if !run[0].Consume? {
        SwapsWithoutLettingGo(c, Next(c, s, run[0]), run[1..]);
      }
    }
  }

  /** The consumer takes the mutex in `s`, other threads take the steps `before`, it tests in `t`, and `rest` leads to
      its next swap. It gives the mutex up in between exactly if at the test the logger is still running and, when it
      took the mutex, the buffer held fewer lines than the high-water mark. */
  lemma WaitsIff(c: Config, s: State, before: seq<Action>, newDay: bool, rest: seq<Action>)
    requires Exclusive(s) && s.pc == Locking && Enabled(s, Consume(newDay))
    requires Feasible(c, Consumed(c, s, newDay), before) && WithoutConsumer(before)
    requires
      var u := Consumed(c, Run(c, Consumed(c, s, newDay), before), newDay);
      Feasible(c, u, rest) && UntilSwapped(c, u, rest)
    ensures
      var t := Run(c, Consumed(c, s, newDay), before);
      && t.queue == s.queue && t.pc == Deciding && (t.running ==> s.running)
      && (!HoldsOn(c, Consumed(c, t, newDay), rest) <==> t.running && |s.queue.current| < c.highWater)
  {
    StepKeepsExclusive(c, s, Consume(newDay));
    OwnerIsAlone(c, Consumed(c, s, newDay), before);
    var t := Run(c, Consumed(c, s, newDay), before);
    StepKeepsExclusive(c, t, Consume(newDay));
    if !(t.running && |t.queue.current| < c.highWater) {
      SwapsWithoutLettingGo(c, Consumed(c, t, newDay), rest);
    }
  }

  /** The consumer never begins to wait in a state in which an `append` would have signalled it by the number of lines.
      */
  lemma NeverMissesTheMark(c: Config, s: State, a: Action)
    requires Enabled(s, a) && s.pc != Waiting && Next(c, s, a).pc == Waiting
    ensures !(|Next(c, s, a).queue.current| >= c.highWater) && s.running
  {
  }

  /** What still has to be written of the first `target` lines. */
  predicate Owes(s: State, target: nat)
  {
    match s.pc
    case Swapping => target <= |s.queue.pushed|
    case Checking => target <= s.queue.written + |s.queue.next| - s.queue.taken
    case Writing => target <= s.queue.written + |s.queue.next| - s.queue.taken
    case _ => target <= s.queue.written
  }

  lemma StepKeepsOwes(c: Config, s: State, a: Action, target: nat)
    requires Placed(s) && s.queue.Fifo() && Enabled(s, a) && Owes(s, target)
    requires s.pc in {Swapping, Checking, Writing, Rolling, Resetting, Zeroing, Reopening}
    ensures Owes(Next(c, s, a), target)
  {
    var q := s.queue;
    assert |q.pushed| == q.written + |q.Unwritten()|;
  }

  /** Whatever the other threads do: when the consumer next tests `_running` after a swap, every line that had been
      pushed before the swap is in the files. */
  lemma {:induction false} BatchIsWritten(c: Config, s: State, run: seq<Action>, disk: Disk, target: nat)
    requires Inv(c, s, disk) && Feasible(c, s, run) && UntilTesting(c, s, run) && Owes(s, target)
    requires s.pc in {Swapping, Checking, Writing, Rolling, Resetting, Zeroing, Reopening, Testing}
    ensures Run(c, s, run).queue.written >= target
    decreases |run|
  {
    hide Enabled, Owes, Exclusive, Counted, Files.Sound, Queue.Fifo;
    if run == [] {
      OwesNothing(s, target);
    } else {
      StepKeepsOwes(c, s, run[0], target);
      StepKeepsInv(c, s, run[0], disk);
      BatchIsWritten(c, Next(c, s, run[0]), run[1..], disk, target);
    }
  }

  lemma OwesNothing(s: State, target: nat)
    requires s.pc == Testing
    ensures Owes(s, target) <==> target <= s.queue.written
  {
  }

  /** Every file but the last has lines of its own, and so will the last one have before the next is opened. */
  ghost predicate NoneEmpty(s: State)
  {
    var cuts := s.files.cuts;
    && (forall k :: 0 <= k < |cuts| - 1 ==> cuts[k] < cuts[k + 1])
    && (s.pc == Writing ==> s.queue.next != [])
    && ((s.pc == Writing && s.queue.taken > 0) || s.pc in {Rolling, Resetting, Zeroing, Reopening} ==>
          cuts != [] && cuts[|cuts| - 1] < s.queue.written)
  }

  lemma StepKeepsNoneEmpty(c: Config, s: State, a: Action)
    requires Placed(s) && s.queue.taken <= |s.queue.next| && |s.files.cuts| == s.files.suffix && LastCutInRange(s)
    requires Enabled(s, a) && NoneEmpty(s)
    ensures NoneEmpty(Next(c, s, a))
  {
    hide FileName, Terminated, Held;
  }

  predicate LastCutInRange(s: State)
  {
    var cuts := s.files.cuts;
    cuts != [] ==> cuts[|cuts| - 1] <= s.queue.written
  }

  lemma CutsInRange(c: Config, s: State, disk: Disk)
    requires Inv(c, s, disk)
    ensures Placed(s) && s.queue.taken <= |s.queue.next| && |s.files.cuts| == s.files.suffix && LastCutInRange(s)
  {
    hide Files.Chunk, Text, Exclusive, Counted;
  }

  lemma {:induction false} RunKeepsNoneEmpty(c: Config, s: State, run: seq<Action>, disk: Disk)
    requires Inv(c, s, disk) && Feasible(c, s, run) && NoneEmpty(s)
    ensures NoneEmpty(Run(c, s, run))
    decreases |run|
  {
    hide Enabled, Next, NoneEmpty, Inv;
    if run != [] {
      CutsInRange(c, s, disk);
      StepKeepsNoneEmpty(c, s, run[0]);
      StepKeepsInv(c, s, run[0], disk);
      RunKeepsNoneEmpty(c, Next(c, s, run[0]), run[1..], disk);
    }
  }

  /** Over every run each file but the last one has gained something: a turn without lines never rolls. */
  lemma EveryFileHasLines(c: Config, s: State, run: seq<Action>, disk: Disk, k: nat)
    requires Start(s, disk) && Feasible(c, s, run) && k + 1 < Run(c, s, run).files.suffix
    ensures
      var file := FileName(c.base, k);
      |Held(Run(c, s, run).files.disk, file)| > |Held(disk, file)|
  {
    hide Enabled, Next, Text, FileName, Files.Sound;
    StartIsSound(c, s, disk);
    RunKeepsInv(c, s, run, disk);
    RunKeepsNoneEmpty(c, s, run, disk);
    var t := Run(c, s, run);
    ChunkOf(t.files, c.base, disk, t.queue.pushed, t.queue.written, k);
    CutsGrow(t, c, disk, k);
    TextIsNotEmpty(t.queue.pushed[t.files.cuts[k]..t.files.End(k, t.queue.written)]);
  }

  lemma CutsGrow(t: State, c: Config, disk: Disk, k: nat)
    requires Inv(c, t, disk) && NoneEmpty(t) && k + 1 < t.files.suffix
    ensures k + 1 < |t.files.cuts| && t.files.cuts[k] < t.files.End(k, t.queue.written)
  {
  }

  lemma TextIsNotEmpty(lines: seq<Line>)
    requires lines != []
    ensures Text(lines) != []
  {
  }

  /** Only the consumer acts. */
  predicate OnlyConsumes(run: seq<Action>)
  {
    forall a :: a in run ==> a.Consume?
  }

  /** The consumer does not come to test `_running`. */
  predicate NeverTests(c: Config, s: State, run: seq<Action>)
    requires Feasible(c, s, run)
    decreases |run|
  {
    s.pc != Testing && (run == [] || NeverTests(c, Next(c, s, run[0]), run[1..]))
  }

  /** Or not before the last step. */
  lemma {:induction false} OneStepMore(c: Config, s: State, run: seq<Action>, a: Action)
    requires Feasible(c, s, run) && NeverTests(c, s, run) && Enabled(Run(c, s, run), a)
    ensures
      var (more, t) := (run + [a], Next(c, Run(c, s, run), a));
      Feasible(c, s, more) && if t.pc == Testing then UntilTesting(c, s, more) else NeverTests(c, s, more)
    decreases |run|
  {
    hide Enabled, Next;
    RunOfOne(c, Run(c, s, run), a);
    RunOfConcat(c, s, run, [a]);
    var more := run + [a];
    if run == [] {
      assert more[0] == a && more[1..] == [];
      RunOfNone(c, Next(c, s, a));
    } else {
      assert more[0] == run[0] && more[1..] == run[1..] + [a];
      OneStepMore(c, Next(c, s, run[0]), run[1..], a);
    }
  }

  lemma {:induction false} StepsMore(c: Config, s: State, a: seq<Action>, b: seq<Action>)
    requires Feasible(c, s, a) && NeverTests(c, s, a) && Feasible(c, Run(c, s, a), b)
    ensures Feasible(c, s, a + b)
    ensures NeverTests(c, Run(c, s, a), b) ==> NeverTests(c, s, a + b)
    ensures UntilTesting(c, Run(c, s, a), b) ==> UntilTesting(c, s, a + b)
    decreases |a|
  {
    hide Enabled, Next;
    RunOfConcat(c, s, a, b);
    if a == [] {
      assert a + b == b;
    } else {
      assert (a + b)[0] == a[0] && (a + b)[1..] == a[1..] + b;
      StepsMore(c, Next(c, s, a[0]), a[1..], b);
    }
  }
}
