/** Whole runs of the asynchronous logger: order, rolling, shutdown. */
module LoggerRuns {
  import opened LogText
  import opened LogQueues
  import opened Loggers

  predicate Feasible(c: Config, s: State, run: seq<Action>)
    decreases |run|
  {
    run == [] || (Enabled(s, run[0]) && Feasible(c, Next(c, s, run[0]), run[1..]))
  }

  function Run(c: Config, s: State, run: seq<Action>): State
    requires Feasible(c, s, run)
    decreases |run|
  {
    if run == [] then s else Run(c, Next(c, s, run[0]), run[1..])
  }

  lemma RunOfNone(c: Config, s: State)
    ensures Feasible(c, s, []) && Run(c, s, []) == s
  {
  }

  lemma RunOfOne(c: Config, s: State, a: Action)
    requires Enabled(s, a)
    ensures Feasible(c, s, [a]) && Run(c, s, [a]) == Next(c, s, a)
  {
    assert Feasible(c, Next(c, s, a), [a][1..]);
  }

  lemma {:induction false} RunOfConcat(c: Config, s: State, a: seq<Action>, b: seq<Action>)
    requires Feasible(c, s, a) && Feasible(c, Run(c, s, a), b)
    ensures Feasible(c, s, a + b) && Run(c, s, a + b) == Run(c, Run(c, s, a), b)
    decreases |a|
  {
    hide Enabled, Next;
    if a == [] {
      assert a + b == b;
    } else {
      RunOfConcat(c, Next(c, s, a[0]), a[1..], b);
      assert (a + b)[1..] == a[1..] + b && (a + b)[0] == a[0];
    }
  }

  lemma {:induction false} RunKeepsInv(c: Config, s: State, run: seq<Action>, disk: Disk)
    requires Inv(c, s, disk) && Feasible(c, s, run)
    ensures Inv(c, Run(c, s, run), disk)
    decreases |run|
  {
    hide Enabled, Next, Inv;
    if run != [] {
      StepKeepsInv(c, s, run[0], disk);
      RunKeepsInv(c, Next(c, s, run[0]), run[1..], disk);
    }
  }

  /** However the threads interleave, the files of the run joined in suffix order hold the lines pushed first, in the
      order of their pushes, and the other lines are still in the two buffers, in order: none is lost, doubled or
      overtaken. */
  lemma LogIsFifo(c: Config, s: State, run: seq<Action>, disk: Disk)
    requires Start(s, disk) && Feasible(c, s, run)
    ensures
      var t := Run(c, s, run);
      var q := t.queue;
      && q.Fifo() && q.pushed == q.pushed[..q.written] + q.Unwritten()
      && t.files.Gained(c.base, disk, t.files.suffix) == Text(q.pushed[..q.written])
  {
    hide Enabled, Next;
    StartIsSound(c, s, disk);
    RunKeepsInv(c, s, run, disk);
    var t := Run(c, s, run);
    FilesJoinUp(t.files, c.base, disk, t.queue.pushed, t.queue.written);
  }

  /** Lines without inner newlines can be read back from the files one by one. */
  lemma LogReadsBack(c: Config, s: State, run: seq<Action>, disk: Disk)
    requires Start(s, disk) && Feasible(c, s, run)
    requires forall i :: 0 <= i < |Run(c, s, run).queue.pushed| ==> Single(Run(c, s, run).queue.pushed[i].bytes)
    ensures
      var t := Run(c, s, run);
      var records := Records(t.files.Gained(c.base, disk, t.files.suffix));
      && |records| == t.queue.written <= |t.queue.pushed|
      && forall i :: 0 <= i < |records| ==> records[i] == Terminated(t.queue.pushed[i])
  {
    hide Enabled, Next, Text, Records;
    LogIsFifo(c, s, run, disk);
    var q := Run(c, s, run).queue;
    RecordsOfText(q.pushed[..q.written]);
  }

  lemma OpensWhen(c: Config, s: State, a: Action)
    requires Enabled(s, a) && Next(c, s, a).files.suffix != s.files.suffix
    ensures (s.pc == Opening || s.pc == Reopening) && Next(c, s, a) == Opened(c, s)
  {
  }

  /** A file is opened only between two batches, when every line that was swapped out has been written, and under a
      name that this run has not used. */
  lemma OpensBetweenBatches(c: Config, s: State, a: Action, disk: Disk)
    requires Inv(c, s, disk) && Enabled(s, a) && Next(c, s, a).files.suffix != s.files.suffix
    ensures s.queue.next == [] && s.queue.pushed == s.queue.pushed[..s.queue.written] + s.queue.current
    ensures s.pc == Opening || s.pc == Reopening
    ensures !s.files.Used(c.base, Next(c, s, a).files.name)
  {
    OpensWhen(c, s, a);
    OpenKeepsSound(s.files, c.base, disk, s.queue.pushed, s.queue.written);
    assert s.queue.Unwritten() == s.queue.current;
  }

  /** What the rolling rule says after a batch, given the bytes counted and whether the date has changed. */
  predicate RuleSays(c: Config, bytes: int, newDay: bool)
  {
    var large := bytes > c.maxBytes;
    || (c.rule == ROLLING_SIZE && large)
    || (c.rule == ROLLING_DAILY && newDay)
    || (c.rule == ROLLING_SIZEDAILY && (large || newDay))
  }

  /** The run ends when the consumer tests `_running` for the first time. */
  predicate UntilTesting(c: Config, s: State, run: seq<Action>)
    requires Feasible(c, s, run)
    decreases |run|
  {
    if run == [] then s.pc == Testing else s.pc != Testing && UntilTesting(c, Next(c, s, run[0]), run[1..])
  }

  /** Whatever the other threads do, when the consumer next tests `_running` it has opened one more file if the rule
      said so at the end of the batch, and none otherwise; the size that counts is that of all lines pushed since the
      last roll by size. */
  lemma RollsByTheRule(c: Config, s: State, newDay: bool, run: seq<Action>)
    requires Counted(s) && s.pc == Rolling
    requires var t := Consumed(c, s, newDay); Feasible(c, t, run) && UntilTesting(c, t, run)
    ensures Run(c, Consumed(c, s, newDay), run).files.suffix
         == s.files.suffix + if RuleSays(c, Bytes(s.queue.pushed[s.resetAt..]), newDay) then 1 else 0
  {
    OpensAtMostOnce(c, Consumed(c, s, newDay), run);
  }

  lemma {:induction false} OpensAtMostOnce(c: Config, s: State, run: seq<Action>)
    requires s.pc in {Testing, Resetting, Zeroing, Reopening} && Feasible(c, s, run) && UntilTesting(c, s, run)
    ensures Run(c, s, run).files.suffix == s.files.suffix + if s.pc == Testing then 0 else 1
    decreases |run|
  {
    if run != [] {
      OpensAtMostOnce(c, Next(c, s, run[0]), run[1..]);
    }
  }

  predicate NeverRolls(c: Config)
  {
    c.rule !in {ROLLING_SIZE, ROLLING_DAILY, ROLLING_SIZEDAILY}
  }

  predicate OneFile(s: State)
  {
    s.pc !in {Resetting, Zeroing, Reopening} && s.files.suffix == if s.pc == Opening then 0 else 1
  }

  /** Without a rolling rule a run writes a single file. */
  lemma {:induction false} NoRuleNoRoll(c: Config, s: State, run: seq<Action>)
    requires NeverRolls(c) && OneFile(s) && Feasible(c, s, run)
    ensures OneFile(Run(c, s, run))
    decreases |run|
  {
    if run != [] {
      NoRuleNoRoll(c, Next(c, s, run[0]), run[1..]);
    }
  }

  /** How many files have been closed, counting one that is about to be. */
  function Rolls(s: State): nat
  {
    (if s.files.suffix > 0 then s.files.suffix - 1 else 0) + if s.pc == Reopening then 1 else 0
  }

  /** Every roll by size was paid for by more than the limit. */
  ghost predicate Paid(c: Config, s: State)
  {
    && s.resetAt <= |s.queue.pushed|
    && Rolls(s) * (c.maxBytes + 1) <= Bytes(s.queue.pushed[..s.resetAt])
    && (s.pc in {Resetting, Zeroing} ==> s.accumulated > c.maxBytes)
  }

  lemma StepKeepsPaid(c: Config, s: State, a: Action)
    requires c.rule == ROLLING_SIZE && c.maxBytes >= 0 && Placed(s) && Counted(s) && Paid(c, s) && Enabled(s, a)
    ensures Paid(c, Next(c, s, a))
  {
    hide Bytes;
    var t, pushed, price := Next(c, s, a), s.queue.pushed, c.maxBytes + 1;
    if a.Push? {
      assert t.queue.pushed[..s.resetAt] == pushed[..s.resetAt];
    } else if a.Consume? && s.pc == Zeroing {
      assert pushed[..s.resetAt] + pushed[s.resetAt..] == pushed == pushed[..|pushed|];
      BytesOfConcat(pushed[..s.resetAt], pushed[s.resetAt..]);
      assert Rolls(t) == Rolls(s) + 1 && (Rolls(s) + 1) * price == Rolls(s) * price + price;
    }
  }

  lemma {:induction false} RunKeepsPaid(c: Config, s: State, run: seq<Action>, disk: Disk)
    requires c.rule == ROLLING_SIZE && c.maxBytes >= 0 && Inv(c, s, disk) && Paid(c, s) && Feasible(c, s, run)
    ensures Paid(c, Run(c, s, run))
    decreases |run|
  {
    hide Enabled, Next, Paid;
    if run != [] {
      StepKeepsPaid(c, s, run[0]);
      StepKeepsInv(c, s, run[0], disk);
      RunKeepsPaid(c, Next(c, s, run[0]), run[1..], disk);
    }
  }

  /** Rolling by size, a run opens few files: all but one of them cost more bytes than the limit. */
  lemma FilesAreBoundedBySize(c: Config, s: State, run: seq<Action>, disk: Disk)
    requires c.rule == ROLLING_SIZE && c.maxBytes >= 0 && Start(s, disk) && Feasible(c, s, run)
    ensures
      var t := Run(c, s, run);
      t.files.suffix > 0 ==> (t.files.suffix - 1) * (c.maxBytes + 1) <= Bytes(t.queue.pushed)
  {
    hide Enabled, Next, Bytes, Feasible, Run;
    StartIsSound(c, s, disk);
    NothingPaid(c, s, disk);
    RunKeepsPaid(c, s, run, disk);
    var t := Run(c, s, run);
    var pushed := t.queue.pushed;
    assert pushed[..t.resetAt] + pushed[t.resetAt..] == pushed;
    BytesOfConcat(pushed[..t.resetAt], pushed[t.resetAt..]);
    if t.files.suffix > 0 {
      MoreCostsMore(t.files.suffix - 1, Rolls(t), c.maxBytes + 1);
    }
  }

  lemma NothingPaid(c: Config, s: State, disk: Disk)
    requires Start(s, disk)
    ensures Paid(c, s)
  {
  }

  lemma MoreCostsMore(a: nat, b: nat, price: nat)
    requires a <= b
    ensures a * price <= b * price
  {
  }

  predicate Acts(a: Action, o: Owner)
  {
    match a
    case Call(p, _) => o == Producer(p)
    case Acquire(p) => o == Producer(p)
    case Push(p) => o == Producer(p)
    case Release(p) => o == Producer(p)
    case Stop => false
    case Consume(_) => o == Consumer
  }

  /** Only the thread that holds the mutex changes `_currentBuffer` or `_accumulateBytes`. */
  lemma BufferIsGuarded(c: Config, s: State, a: Action)
    requires Exclusive(s) && Enabled(s, a)
    requires Next(c, s, a).queue.current != s.queue.current || Next(c, s, a).accumulated != s.accumulated
    ensures Acts(a, s.owner)
  {
  }
}
