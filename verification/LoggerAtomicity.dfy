/** Why the consumer's code between two synchronisation points may be looked at on its own: its steps there commute with
    those of all other threads. */
module LoggerAtomicity {
  import opened LogText
  import opened LogQueues
  import opened Loggers
  import opened LoggerRuns

  /** The consumer works on what no other thread uses: the batch it has swapped out, the files, or, at the end, the
      lines that were there when the drain began. */
  predicate Private(s: State)
  {
    s.pc in {Opening, Checking, Writing, Reopening} || s.pc.Draining?
  }

  /** Every step of the consumer in this run is such a step. */
  predicate WorksPrivately(c: Config, s: State, run: seq<Action>)
    requires Feasible(c, s, run)
    decreases |run|
  {
    run == [] || ((run[0].Consume? ==> Private(s)) && WorksPrivately(c, Next(c, s, run[0]), run[1..]))
  }

  function ConsumerPart(run: seq<Action>): seq<Action>
  {
    if run == [] then [] else (if run[0].Consume? then [run[0]] else []) + ConsumerPart(run[1..])
  }

  function OtherPart(run: seq<Action>): seq<Action>
  {
    if run == [] then [] else (if run[0].Consume? then [] else [run[0]]) + OtherPart(run[1..])
  }

  lemma {:induction false} PrivateConcat(c: Config, s: State, a: seq<Action>, b: seq<Action>)
    requires Feasible(c, s, a) && Feasible(c, Run(c, s, a), b)
    requires WorksPrivately(c, s, a) && WorksPrivately(c, Run(c, s, a), b)
    ensures Feasible(c, s, a + b) && WorksPrivately(c, s, a + b)
    decreases |a|
  {
    hide Enabled, Next, Private;
    RunOfConcat(c, s, a, b);
    if a == [] {
      assert a + b == b;
    } else {
      PrivateConcat(c, Next(c, s, a[0]), a[1..], b);
      assert (a + b)[1..] == a[1..] + b && (a + b)[0] == a[0];
    }
  }

  lemma PrivateStep(c: Config, s: State, run: seq<Action>)
    requires Feasible(c, s, run) && WorksPrivately(c, s, run)
    requires Enabled(Run(c, s, run), Consume(false)) && Private(Run(c, s, run))
    ensures
      var more := run + [Consume(false)];
      && Feasible(c, s, more) && WorksPrivately(c, s, more)
      && Run(c, s, more) == Consumed(c, Run(c, s, run), false)
  {
    var t := Run(c, s, run);
    RunOfOne(c, t, Consume(false));
    RunOfConcat(c, s, run, [Consume(false)]);
    RunOfNone(c, Next(c, t, Consume(false)));
    assert [Consume(false)][1..] == [];
    PrivateConcat(c, s, run, [Consume(false)]);
  }

  lemma StepsCommute(c: Config, s: State, a: Action, newDay: bool)
    requires Placed(s) && Private(s) && !a.Consume? && Enabled(s, a)
    ensures
      var b := Consume(newDay);
      && Enabled(s, b) && Enabled(Next(c, s, b), a) && Private(Next(c, s, a)) && Enabled(Next(c, s, a), b)
      && Next(c, Next(c, s, a), b) == Next(c, Next(c, s, b), a)
  {
    if a.Push? {
      PushCommutes(c, s, a.p, newDay);
    }
  }

  lemma PushCommutes(c: Config, s: State, p: nat, newDay: bool)
    requires Placed(s) && Private(s) && Enabled(s, Push(p))
    ensures
      var (a, b) := (Push(p), Consume(newDay));
      Enabled(Next(c, s, b), a) && Next(c, Next(c, s, a), b) == Next(c, Next(c, s, b), a)
  {
  }

  /** A step of another thread can be put off until the consumer has done its part. */
  lemma {:induction false} PutOff(c: Config, s: State, a: Action, part: seq<Action>)
    requires Placed(s) && s.queue.Fifo() && !a.Consume? && Enabled(s, a)
    requires Feasible(c, Next(c, s, a), part) && WorksPrivately(c, Next(c, s, a), part)
    requires forall b :: b in part ==> b.Consume?
    ensures Feasible(c, s, part) && WorksPrivately(c, s, part)
    ensures Enabled(Run(c, s, part), a) && Next(c, Run(c, s, part), a) == Run(c, Next(c, s, a), part)
    decreases |part|
  {
    hide Enabled, Next, Placed;
    if part != [] {
      var b := part[0];
      assert b in part;
      PrivateBefore(c, s, a);
      StepsCommute(c, s, a, b.newDay);
      StepKeepsPlaced(c, s, b);
      StepKeepsFifo(c, s, b);
      PutOff(c, Next(c, s, b), a, part[1..]);
    }
  }

  /** Other threads do not change where the consumer stands. */
  lemma PrivateBefore(c: Config, s: State, a: Action)
    requires !a.Consume? && Enabled(s, a)
    ensures Private(Next(c, s, a)) == Private(s)
  {
  }

  /** However other threads come in between, the result is that of the consumer's part in one go and then theirs. */
  lemma {:induction false} PrivateWorkIsAtomic(c: Config, s: State, run: seq<Action>)
    requires Placed(s) && s.queue.Fifo() && Feasible(c, s, run) && WorksPrivately(c, s, run)
    ensures Feasible(c, s, ConsumerPart(run)) && WorksPrivately(c, s, ConsumerPart(run))
    ensures Feasible(c, Run(c, s, ConsumerPart(run)), OtherPart(run))
    ensures Run(c, s, run) == Run(c, Run(c, s, ConsumerPart(run)), OtherPart(run))
    decreases |run|
  {
    hide Enabled, Next, Placed;
    if run != [] {
      var a := run[0];
      var t, rest := Next(c, s, a), run[1..];
      StepKeepsPlaced(c, s, a);
      StepKeepsFifo(c, s, a);
      PrivateWorkIsAtomic(c, t, rest);
      if a.Consume? {
        assert ConsumerPart(run) == [a] + ConsumerPart(rest) && OtherPart(run) == OtherPart(rest);
      } else {
        assert ConsumerPart(run) == ConsumerPart(rest) && OtherPart(run) == [a] + OtherPart(rest);
        ConsumerPartConsumes(rest);
        PutOff(c, s, a, ConsumerPart(rest));
      }
    }
  }

  lemma ConsumerPartConsumes(run: seq<Action>)
    ensures forall b :: b in ConsumerPart(run) ==> b.Consume?
  {
  }
}
