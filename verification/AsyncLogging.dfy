/** The logger's code between two synchronisation points, run on its own fields. Each method is shown to be a run of
    steps of the transition system by the thread that calls it; the transition system interleaves them. */
module AsyncLoggings {
  import opened LogText
  import opened LogQueues
  import opened Loggers
  import opened LoggerAtomicity
  import opened LoggerRuns
  import opened LoggerTurns
  import opened Decimal

  class FileSystem {
    var files: Disk

    constructor (files: Disk)
      ensures this.files == files
    {
      this.files := files;
    }
  }

  class LogFile {
    const system: FileSystem
    var name: seq<byte>

    constructor (system: FileSystem)
      ensures this.system == system
    {
      this.system, name := system, [];
    }

    /** `fopen(name, "a")`. */
    method Open(name: seq<byte>)
      modifies this, system
      ensures this.name == name && system.files == old(system.files)[name := Held(old(system.files), name)]
    {
      this.name := name;
      if name !in system.files {
        system.files := system.files[name := []];
      }
    }

    method Write(data: seq<byte>)
      modifies system
      ensures system.files == old(system.files)[name := Held(old(system.files), name) + data]
    {
      system.files := system.files[name := Held(system.files, name) + data];
    }

    method WriteLine(line: Line)
      requires line.bytes != []
      modifies system
      ensures system.files == old(system.files)[name := Held(old(system.files), name) + Terminated(line)]
    {
      if line.bytes[|line.bytes| - 1] != NEWLINE {
        Write(line.bytes + [NEWLINE]);
      } else {
        Write(line.bytes);
      }
    }
  }

  class AsyncLogging {
    const logfilename: seq<byte>
    const highWaterMask: nat
    const rollingRule: int
    const maxSizeBytes: int
    const logfile: LogFile
    var running: bool
    var accumulateBytes: int
    var currentBuffer: seq<Line>
    var nextBuffer: seq<Line>
    var suffix: nat

    function Settings(): Config
    {
      Config(logfilename, highWaterMask, rollingRule, maxSizeBytes)
    }

    /** The fields are those of a state of the transition system, and no line is empty. */
    ghost predicate Represents(s: State)
      reads this, logfile, logfile.system
    {
      && running == s.running && accumulateBytes == s.accumulated
      && currentBuffer == s.queue.current && nextBuffer == s.queue.next
      && suffix == s.files.suffix && logfile.system.files == s.files.disk
      && (suffix > 0 ==> logfile.name == s.files.name)
      && (forall line :: line in currentBuffer || line in nextBuffer ==> line.bytes != [])
    }

    /** The object as `start` leaves it. */
    constructor (logfilename: seq<byte>, highWaterMask: nat, rollingRule: int, maxSizeBytes: int, system: FileSystem)
      ensures Settings() == Config(logfilename, highWaterMask, rollingRule, maxSizeBytes) && logfile.system == system
      ensures forall s :: Start(s, system.files) ==> Represents(s)
    {
      this.logfilename, this.highWaterMask, this.rollingRule := logfilename, highWaterMask, rollingRule;
      this.maxSizeBytes, accumulateBytes, suffix := maxSizeBytes, 0, 0;
      logfile := new LogFile(system);
      running, currentBuffer, nextBuffer := true, [], [];
    }

    method Stop(ghost s: State)
      requires Represents(s) && s.running
      modifies this`running
      ensures Represents(Next(Settings(), s, Action.Stop))
    {
      running := false;
    }

    /** `append` up to the lock. */
    method Append(line: Line, ghost s: State, ghost p: nat) returns (ready: bool)
      requires Represents(s) && Enabled(s, Call(p, line))
      ensures Represents(Next(Settings(), s, Call(p, line)))
      ensures ready <==> Next(Settings(), s, Call(p, line)).producers[p] == Ready(line)
    {
      ready := running;
    }

    /** `append` under the lock; `notify` says whether the consumer is signalled. */
    method AppendLocked(line: Line, ghost s: State, ghost p: nat) returns (notify: bool, ghost run: seq<Action>)
      requires Represents(s) && Enabled(s, Acquire(p)) && s.producers[p] == Ready(line) && line.bytes != []
      modifies this`currentBuffer, this`accumulateBytes
      ensures run == [Acquire(p)] + [Push(p)] + [Release(p)] && Feasible(Settings(), s, run)
      ensures Represents(Run(Settings(), s, run))
      ensures notify <==> |currentBuffer| >= highWaterMask || accumulateBytes > maxSizeBytes
    {
      currentBuffer := currentBuffer + [line];
      accumulateBytes := accumulateBytes + |line.bytes|;
      notify := |currentBuffer| >= highWaterMask || accumulateBytes > maxSizeBytes;
      run := AppendRun(Settings(), s, p);
    }

    static lemma AppendRun(c: Config, s: State, p: nat) returns (run: seq<Action>)
      requires Enabled(s, Acquire(p))
      ensures run == [Acquire(p)] + [Push(p)] + [Release(p)] && Feasible(c, s, run)
      ensures
        var line := s.producers[p].line;
        Run(c, s, run) == s.(producers := s.producers[p := Idle], queue := s.queue.Push(line),
            accumulated := s.accumulated + |line.bytes|)
    {
      hide Feasible, Run;
      var t := Next(c, s, Acquire(p));
      var u := Next(c, t, Push(p));
      RunOfOne(c, s, Acquire(p));
      RunOfOne(c, t, Push(p));
      RunOfOne(c, u, Release(p));
      RunOfConcat(c, s, [Acquire(p)], [Push(p)]);
      RunOfConcat(c, s, [Acquire(p)] + [Push(p)], [Release(p)]);
      run := [Acquire(p)] + [Push(p)] + [Release(p)];
    }

    /** The first file is opened, or the next one after a roll. */
    method OpenNext(ghost s: State)
      requires Represents(s) && s.pc in {Opening, Reopening}
      modifies this`suffix, logfile, logfile.system
      ensures Represents(Consumed(Settings(), s, false)) && suffix == old(suffix) + 1
    {
      logfile.Open(FileName(logfilename, suffix));
      suffix := suffix + 1;
    }

    /** The test before the wait, made under the lock. */
    method MustWait(ghost s: State) returns (wait: bool)
      requires Represents(s) && s.pc == Deciding
      ensures Represents(Consumed(Settings(), s, false))
      ensures Consumed(Settings(), s, false).pc == if wait then Waiting else Swapping
      ensures wait <==> running && |currentBuffer| < highWaterMask
    {
      wait := running && |currentBuffer| < highWaterMask;
    }

    /** The swap under the lock. */
    method SwapBuffers(ghost s: State)
      requires Represents(s) && s.pc == Swapping
      modifies this`currentBuffer, this`nextBuffer
      ensures Represents(Consumed(Settings(), s, false))
    {
      currentBuffer, nextBuffer := nextBuffer, currentBuffer;
    }

    /** Everything swapped out is written; the consumer holds no lock here, but works privately. */
    method WriteBatch(ghost s: State) returns (again: bool, ghost run: seq<Action>)
      requires Represents(s) && s.pc == Checking && s.queue.taken == 0 && suffix > 0
      modifies this`nextBuffer, logfile.system
      ensures Feasible(Settings(), s, run) && Represents(Run(Settings(), s, run)) && WorksPrivately(Settings(), s, run)
      ensures Run(Settings(), s, run).pc == if again then Testing else Rolling
      ensures Run(Settings(), s, run).owner == s.owner && nextBuffer == [] && (again <==> old(nextBuffer) == [])
      ensures Run(Settings(), s, run).queue.current == s.queue.current
      ensures OnlyConsumes(run)
      ensures if again then UntilTesting(Settings(), s, run) else NeverTests(Settings(), s, run)
    {
      hide Feasible, Run, WorksPrivately, Represents, NeverTests, UntilTesting;
      ghost var c := Settings();
      again := nextBuffer == [];
      NothingDone(c, s);
      PrivateStep(c, s, []);
      TestsNothing(c, s);
      OneStepMore(c, s, [], Consume(false));
      run := [] + [Consume(false)];
      StartsWriting(s);
      if again {
        return;
      }
      for i := 0 to |nextBuffer|
        invariant nextBuffer == s.queue.next && Feasible(c, s, run) && WorksPrivately(c, s, run)
        invariant Represents(Run(c, s, run)) && Run(c, s, run).queue.next == nextBuffer
        invariant Run(c, s, run).pc == Writing && Run(c, s, run).queue.taken == i && Run(c, s, run).owner == s.owner
        invariant Run(c, s, run).queue.current == s.queue.current && OnlyConsumes(run) && NeverTests(c, s, run)
      {
        ghost var t := Run(c, s, run);
        WriteLine(t, i);
        PrivateStep(c, s, run);
        OneStepMore(c, s, run, Consume(false));
        run := run + [Consume(false)];
      }
      FinishBatch(Run(c, s, run));
      PrivateStep(c, s, run);
      OneStepMore(c, s, run, Consume(false));
      run := run + [Consume(false)];
    }

    static lemma TestsNothing(c: Config, s: State)
      requires s.pc != Testing
      ensures NeverTests(c, s, [])
    {
    }

    static lemma NothingDone(c: Config, s: State)
      ensures Feasible(c, s, []) && Run(c, s, []) == s && WorksPrivately(c, s, [])
    {
    }

    lemma StartsWriting(s: State)
      requires Represents(s) && s.pc == Checking
      ensures Represents(Consumed(Settings(), s, false)) && nextBuffer == s.queue.next
    {
    }

    /** One turn of the write loop. */
    method WriteLine(ghost s: State, i: nat)
      requires Represents(s) && s.pc == Writing && s.queue.taken == i < |nextBuffer| && suffix > 0
      modifies logfile.system
      ensures Represents(Consumed(Settings(), s, false))
    {
      logfile.WriteLine(nextBuffer[i]);
    }

    /** `_nextBuffer.clear()`. */
    method FinishBatch(ghost s: State)
      requires Represents(s) && s.pc == Writing && s.queue.taken == |nextBuffer|
      modifies this`nextBuffer
      ensures Represents(Consumed(Settings(), s, false)) && nextBuffer == []
    {
      nextBuffer := [];
    }

    /** The rolling rules; `newDay` stands for the comparison of the dates. */
    method MustRoll(newDay: bool, ghost s: State) returns (roll: bool, reset: bool)
      requires Represents(s) && s.pc == Rolling
      ensures Represents(Consumed(Settings(), s, newDay))
      ensures Consumed(Settings(), s, newDay).pc == if reset then Resetting else if roll then Reopening else Testing
      ensures reset ==> roll
      ensures roll <==> RuleSays(Settings(), accumulateBytes, newDay)
    {
      roll, reset := false, false;
      if rollingRule != ROLLING_NONE {
        if rollingRule == ROLLING_SIZE && accumulateBytes > maxSizeBytes {
          roll, reset := true, true;
        } else if rollingRule == ROLLING_DAILY && newDay {
          roll := true;
        } else if rollingRule == ROLLING_SIZEDAILY && (accumulateBytes > maxSizeBytes || newDay) {
          roll, reset := true, true;
        }
      }
    }

    /** The reset of the byte count, under the lock. */
    method ResetBytes(ghost s: State)
      requires Represents(s) && s.pc == Zeroing
      modifies this`accumulateBytes
      ensures Represents(Consumed(Settings(), s, false))
    {
      accumulateBytes := 0;
    }

    /** After the loop, without the lock: the test of `_running`, and then private work. */
    method Drain(ghost s: State) returns (ghost run: seq<Action>)
      requires Represents(s) && s.pc == Testing && !s.running && s.queue.drained == 0 && suffix > 0
      modifies logfile.system
      ensures
        var (c, t) := (Settings(), Consumed(Settings(), s, false));
        && Feasible(c, t, run) && Represents(Run(c, t, run)) && WorksPrivately(c, t, run)
        && Run(c, t, run).pc == Done && Run(c, t, run).queue.drained == |currentBuffer| && OnlyConsumes(run)
    {
      hide Feasible, Run, WorksPrivately, Represents;
      ghost var c := Settings();
      ghost var t := Consumed(c, s, false);
      NothingDone(c, t);
      run := [];
      StartsDraining(s);
      if currentBuffer != [] {
        for i := 0 to |currentBuffer|
          invariant currentBuffer == s.queue.current && Feasible(c, t, run) && WorksPrivately(c, t, run)
          invariant Represents(Run(c, t, run)) && Run(c, t, run).queue.current == currentBuffer
          invariant Run(c, t, run).pc == Draining(|currentBuffer|) && Run(c, t, run).queue.drained == i
          invariant OnlyConsumes(run)
        {
          DrainLine(Run(c, t, run), i);
          PrivateStep(c, t, run);
          run := run + [Consume(false)];
        }
        PrivateStep(c, t, run);
        SameFields(Run(c, t, run), Done, Run(c, t, run).owner);
        run := run + [Consume(false)];
      }
    }

    lemma StartsDraining(s: State)
      requires Represents(s) && s.pc == Testing && !s.running
      ensures Represents(Consumed(Settings(), s, false)) && currentBuffer == s.queue.current
    {
    }

    /** One turn of the final loop. */
    method DrainLine(ghost s: State, i: nat)
      requires Represents(s) && s.pc.Draining? && s.queue.drained == i < |currentBuffer| && i < s.pc.n && suffix > 0
      modifies logfile.system
      ensures Represents(Consumed(Settings(), s, false))
    {
      logfile.WriteLine(currentBuffer[i]);
    }

    /** Steps that touch none of the fields: the test of `_running`, the lock, and the wait. */
    lemma SameFields(s: State, pc: Pc, owner: Owner)
      requires Represents(s)
      ensures Represents(s.(pc := pc, owner := owner))
    {
    }

    /** One turn of the loop of `threadFunction` after the test of `_running`, up to the next one, for the case that no
        other thread comes in between: the consumer waits exactly if there are fewer lines than the high-water mark,
        writes all of them, and opens the next file exactly if there were any and the rule says so. */
    method Turn(newDay: bool, ghost s: State) returns (ghost run: seq<Action>)
      requires Represents(s) && s.pc == Testing && s.running && s.owner == Free && s.queue.taken == 0 && suffix > 0
      requires nextBuffer == []
      modifies this`currentBuffer, this`nextBuffer, this`accumulateBytes, this`suffix, logfile, logfile.system
      ensures
        var (c, t) := (Settings(), Consumed(Settings(), s, false));
        && Feasible(c, t, run) && Represents(Run(c, t, run)) && UntilTesting(c, t, run) && OnlyConsumes(run)
        && Run(c, t, run).owner == Free
        && 2 <= |run| && Feasible(c, t, run[..2])
        && Run(c, t, run[..2]).pc == if |old(currentBuffer)| < highWaterMask then Waiting else Swapping
      ensures currentBuffer == nextBuffer == []
      ensures suffix == old(suffix) +
                        if old(currentBuffer) != [] && RuleSays(Settings(), old(accumulateBytes), newDay) then 1 else 0
    {
      hide Represents, Feasible, Run, NeverTests, UntilTesting, RuleSays;
      ghost var c := Settings();
      ghost var s0 := Consumed(c, s, false);
      SameFields(s, Locking, Free);
      RunOfNone(c, s0);
      TestsNothing(c, s0);
      run := Step(c, s0, [], false);
      SameFields(s, Deciding, Consumer);
      ghost var t := Run(c, s0, run);
      var wait := MustWait(t);
      run := Step(c, s0, run, false);
      ghost var upToTest := run;
      if wait {
        SameFields(t, Swapping, Consumer);
        run := Step(c, s0, run, false);
      }
      t := Run(c, s0, run);
      SwapBuffers(t);
      run := Step(c, s0, run, false);
      t := Run(c, s0, run);
      var again;
      ghost var batch;
      again, batch := WriteBatch(t);
      RunOfConcat(c, s0, run, batch);
      StepsMore(c, s0, run, batch);
      run := run + batch;
      if !again {
        run := Roll(newDay, s0, run);
      }
      assert run[..2] == upToTest;
    }

    /** The end of a turn: the rolling rules and what they lead to. */
    method Roll(newDay: bool, ghost s: State, ghost before: seq<Action>) returns (ghost run: seq<Action>)
      requires Feasible(Settings(), s, before) && Represents(Run(Settings(), s, before))
      requires Run(Settings(), s, before).pc == Rolling && Run(Settings(), s, before).owner == Free
      requires NeverTests(Settings(), s, before) && OnlyConsumes(before)
      modifies this`accumulateBytes, this`suffix, logfile, logfile.system
      ensures Feasible(Settings(), s, run) && Represents(Run(Settings(), s, run))
      ensures Run(Settings(), s, run).pc == Testing && Run(Settings(), s, run).owner == Free
      ensures UntilTesting(Settings(), s, run) && OnlyConsumes(run) && before <= run
      ensures suffix == old(suffix) + if RuleSays(Settings(), old(accumulateBytes), newDay) then 1 else 0
    {
      hide Represents, Feasible, Run, NeverTests, UntilTesting, RuleSays, OnlyConsumes;
      ghost var c := Settings();
      ghost var t := Run(c, s, before);
      var roll, reset := MustRoll(newDay, t);
      run := Step(c, s, before, newDay);
      if reset {
        run := LockAndReset(s, run);
      }
      if roll {
        t := Run(c, s, run);
        OpenNext(t);
        run := Step(c, s, run, false);
      }
    }

    /** The byte count is reset under the lock, and the lock given up again. */
    method LockAndReset(ghost s: State, ghost before: seq<Action>) returns (ghost run: seq<Action>)
      requires Feasible(Settings(), s, before) && Represents(Run(Settings(), s, before))
      requires Run(Settings(), s, before).pc == Resetting && Run(Settings(), s, before).owner == Free
      requires NeverTests(Settings(), s, before) && OnlyConsumes(before)
      modifies this`accumulateBytes
      ensures Feasible(Settings(), s, run) && Represents(Run(Settings(), s, run)) && accumulateBytes == 0
      ensures Run(Settings(), s, run).pc == Reopening && Run(Settings(), s, run).owner == Free
      ensures NeverTests(Settings(), s, run) && OnlyConsumes(run) && before <= run
    {
      hide Represents, Feasible, Run, NeverTests, UntilTesting, OnlyConsumes;
      ghost var c := Settings();
      SameFields(Run(c, s, before), Zeroing, Consumer);
      run := Step(c, s, before, false);
      ResetBytes(Run(c, s, run));
      run := Step(c, s, run, false);
    }

    static lemma Step(c: Config, s: State, run: seq<Action>, newDay: bool) returns (more: seq<Action>)
      requires Feasible(c, s, run) && Enabled(Run(c, s, run), Consume(newDay))
      requires NeverTests(c, s, run) && OnlyConsumes(run)
      ensures more == run + [Consume(newDay)] && Feasible(c, s, more) && OnlyConsumes(more)
      ensures Run(c, s, more) == Consumed(c, Run(c, s, run), newDay)
      ensures if Run(c, s, more).pc == Testing then UntilTesting(c, s, more) else NeverTests(c, s, more)
    {
      hide NeverTests, UntilTesting;
      RunOfOne(c, Run(c, s, run), Consume(newDay));
      RunOfConcat(c, s, run, [Consume(newDay)]);
      OneStepMore(c, s, run, Consume(newDay));
      more := run + [Consume(newDay)];
    }
  }
}
