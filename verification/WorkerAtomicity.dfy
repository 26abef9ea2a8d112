/** Why the worker's code may be looked at without the acceptor: a hand-over commutes with every step of the worker but
    the swap of the queues, so that only the side of the swap on which it falls matters. */
module WorkerAtomicity {
  import opened Bits
  import opened Lifecycle

  /** The steps of a worker between two swaps. */
  predicate Quiet(run: seq<Action>)
  {
    forall a :: a in run ==> !a.HandOver? && !a.Swap?
  }

  predicate NoSwap(run: seq<Action>)
  {
    Swap !in run
  }

  function WorkerPart(run: seq<Action>): seq<Action>
  {
    if run == [] then [] else (if run[0].HandOver? then [] else [run[0]]) + WorkerPart(run[1..])
  }

  /** The hand-overs of the given connections, in order. */
  function Arrivals(ids: seq<Word>): seq<Action>
  {
    if ids == [] then [] else [HandOver(ids[0])] + Arrivals(ids[1..])
  }

  /** Either order is possible if the other one is, and they have the same effect. */
  lemma StepsCommute(s: State, id: Word, a: Action)
    requires Inv(s) && !a.HandOver? && !a.Swap?
    ensures Enabled(s, a) && Enabled(Next(s, a), HandOver(id)) <==>
            Enabled(s, HandOver(id)) && Enabled(Next(s, HandOver(id)), a)
    ensures Enabled(s, a) && Enabled(s, HandOver(id)) ==>
              && Enabled(Next(s, a), HandOver(id)) && Enabled(Next(s, HandOver(id)), a)
              && Next(Next(s, a), HandOver(id)) == Next(Next(s, HandOver(id)), a)
  {
    if Enabled(s, a) {
      StepHandsOver(s, a);
      assert HandedOver(s) + [] == HandedOver(s);
    }
  }

  /** Hand-overs that come right after a step of the worker could have come before it. */
  lemma {:induction false} BringForward(s: State, a: Action, ids: seq<Word>)
    requires Inv(s) && !a.HandOver? && !a.Swap? && Enabled(s, a) && Feasible(Next(s, a), Arrivals(ids))
    ensures Feasible(s, Arrivals(ids)) && Enabled(Run(s, Arrivals(ids)), a)
    ensures Next(Run(s, Arrivals(ids)), a) == Run(Next(s, a), Arrivals(ids))
    decreases |ids|
  {
    hide Enabled, Next, Inv;
    if ids != [] {
      var h := HandOver(ids[0]);
      assert Arrivals(ids)[0] == h && Arrivals(ids)[1..] == Arrivals(ids[1..]);
      StepsCommute(s, ids[0], a);
      StepKeepsInv(s, h);
      BringForward(Next(s, h), a, ids[1..]);
    }
  }

  lemma StepKeepsInv(s: State, a: Action)
    requires Inv(s) && Enabled(s, a)
    ensures Inv(Next(s, a))
  {
    hide Enabled, Next, OnePlace, Watched;
    StepKeepsOnePlace(s, a);
    StepKeepsWatched(s, a);
  }

  /** A hand-over that comes before steps of the worker could have come after them. */
  lemma {:induction false} PutOff(s: State, id: Word, part: seq<Action>)
    requires Inv(s) && Quiet(part) && Enabled(s, HandOver(id)) && Feasible(Next(s, HandOver(id)), part)
    ensures Feasible(s, part) && Enabled(Run(s, part), HandOver(id))
    ensures Next(Run(s, part), HandOver(id)) == Run(Next(s, HandOver(id)), part)
    decreases |part|
  {
    hide Enabled, Next, Inv;
    if part != [] {
      var a := part[0];
      assert a in part;
      StepsCommute(s, id, a);
      StepKeepsInv(s, a);
      PutOff(Next(s, a), id, part[1..]);
    }
  }

  lemma {:induction false} WorkerPartIsQuiet(run: seq<Action>)
    requires NoSwap(run)
    ensures Quiet(WorkerPart(run))
  {
    if run != [] {
      WorkerPartIsQuiet(run[1..]);
    }
  }

  /** Between two swaps all hand-overs might have come first. */
  lemma {:induction false} HandOversFirst(s: State, run: seq<Action>)
    requires Inv(s) && Feasible(s, run) && NoSwap(run)
    ensures Feasible(s, Arrivals(HandOvers(run))) && Feasible(Run(s, Arrivals(HandOvers(run))), WorkerPart(run))
    ensures Run(s, run) == Run(Run(s, Arrivals(HandOvers(run))), WorkerPart(run))
    decreases |run|
  {
    hide Enabled, Next, Inv;
    if run != [] {
      var a, rest := run[0], run[1..];
      StepKeepsInv(s, a);
      HandOversFirst(Next(s, a), rest);
      var ids := HandOvers(rest);
      if a.HandOver? {
        assert HandOvers(run) == [a.id] + ids && WorkerPart(run) == WorkerPart(rest);
        assert Arrivals(HandOvers(run))[1..] == Arrivals(ids);
      } else {
        assert HandOvers(run) == ids && WorkerPart(run) == [a] + WorkerPart(rest);
        BringForward(s, a, ids);
        assert WorkerPart(run)[1..] == WorkerPart(rest);
      }
    }
  }

  /** Or last. */
  lemma {:induction false} HandOversLast(s: State, run: seq<Action>)
    requires Inv(s) && Feasible(s, run) && NoSwap(run)
    ensures Feasible(s, WorkerPart(run)) && Feasible(Run(s, WorkerPart(run)), Arrivals(HandOvers(run)))
    ensures Run(s, run) == Run(Run(s, WorkerPart(run)), Arrivals(HandOvers(run)))
    decreases |run|
  {
    hide Enabled, Next, Inv;
    if run != [] {
      var a, rest := run[0], run[1..];
      StepKeepsInv(s, a);
      HandOversLast(Next(s, a), rest);
      var ids := HandOvers(rest);
      if a.HandOver? {
        assert HandOvers(run) == [a.id] + ids && WorkerPart(run) == WorkerPart(rest);
        assert Arrivals(HandOvers(run))[1..] == Arrivals(ids);
        WorkerPartIsQuiet(rest);
        PutOff(s, a.id, WorkerPart(rest));
      } else {
        assert HandOvers(run) == ids && WorkerPart(run) == [a] + WorkerPart(rest);
        assert WorkerPart(run)[1..] == WorkerPart(rest);
      }
    }
  }

  lemma {:induction false} RunOfSplit(s: State, a: seq<Action>, b: seq<Action>)
    requires Feasible(s, a + b)
    ensures Feasible(s, a) && Feasible(Run(s, a), b) && Run(s, a + b) == Run(Run(s, a), b)
    decreases |a|
  {
    hide Enabled, Next;
    if a == [] {
      assert a + b == b;
    } else {
      assert (a + b)[0] == a[0] && (a + b)[1..] == a[1..] + b;
      RunOfSplit(Next(s, a[0]), a[1..], b);
    }
  }

  /** A stretch of the worker with one swap. */
  ghost predicate SwapsOnce(run: seq<Action>)
  {
    exists before, after :: SwapsBetween(run, before, after)
  }

  ghost predicate SwapsBetween(run: seq<Action>, before: seq<Action>, after: seq<Action>)
  {
    run == before + ([Swap] + after) && Quiet(before) && Quiet(after)
  }

  /** Such a stretch with hand-overs in between: of `early` until the swap, of `late` after it. */
  ghost predicate Mixes(mix: seq<Action>, early: seq<Word>, run: seq<Action>, late: seq<Word>)
  {
    exists a, b :: MixesAs(mix, a, b, early, run, late)
  }

  ghost predicate MixesAs(mix: seq<Action>, a: seq<Action>, b: seq<Action>, early: seq<Word>, run: seq<Action>,
      late: seq<Word>)
  {
    && mix == a + ([Swap] + b) && NoSwap(a) && NoSwap(b)
    && HandOvers(a) == early && HandOvers(b) == late && run == WorkerPart(a) + ([Swap] + WorkerPart(b))
  }

  /** However hand-overs come in between, the result is that of the early ones, the worker's stretch in one go, and then
      the late ones. */
  lemma TurnIsAtomic(s: State, mix: seq<Action>, early: seq<Word>, run: seq<Action>, late: seq<Word>)
    requires Inv(s) && Feasible(s, mix) && Mixes(mix, early, run, late)
    ensures Feasible(s, Arrivals(early)) && Feasible(Run(s, Arrivals(early)), run)
    ensures Feasible(Run(Run(s, Arrivals(early)), run), Arrivals(late))
    ensures Run(s, mix) == Run(Run(Run(s, Arrivals(early)), run), Arrivals(late))
  {
    hide Feasible, Run, Inv, Enabled, Next;
    var a, b :| MixesAs(mix, a, b, early, run, late);
    RunOfSplit(s, a, [Swap] + b);
    HandOversFirst(s, a);
    var t := Run(s, a);
    RunKeepsInv(s, a);
    RunOfSplit(t, [Swap], b);
    RunKeepsInv(t, [Swap]);
    var u := Run(t, [Swap]);
    HandOversLast(u, b);
    RunOfConcat(t, [Swap], WorkerPart(b));
    RunOfConcat(Run(s, Arrivals(early)), WorkerPart(a), [Swap] + WorkerPart(b));
  }

  /** Whether hand-overs are possible depends only on which there were before. */
  lemma {:induction false} ArrivalsAnyTime(s: State, t: State, ids: seq<Word>)
    requires HandedOver(s) == HandedOver(t) && Feasible(s, Arrivals(ids))
    ensures Feasible(t, Arrivals(ids))
    decreases |ids|
  {
    if ids != [] {
      var h := HandOver(ids[0]);
      assert Arrivals(ids)[0] == h && Arrivals(ids)[1..] == Arrivals(ids[1..]);
      assert HandedOver(Next(s, h)) == HandedOver(s) + [ids[0]] == HandedOver(t) + [ids[0]] == HandedOver(Next(t, h));
      ArrivalsAnyTime(Next(s, h), Next(t, h), ids[1..]);
    }
  }

  lemma {:induction false} ArrivalsConcat(a: seq<Word>, b: seq<Word>)
    ensures Arrivals(a + b) == Arrivals(a) + Arrivals(b)
  {
    if a == [] {
      assert a + b == b;
    } else {
      assert (a + b)[1..] == a[1..] + b;
      ArrivalsConcat(a[1..], b);
    }
  }

  lemma {:induction false} ArrivalsEffect(s: State, ids: seq<Word>)
    requires Feasible(s, Arrivals(ids))
    ensures Run(s, Arrivals(ids)) == s.(incoming := s.incoming + ids)
    decreases |ids|
  {
    if ids == [] {
      assert s.incoming + [] == s.incoming;
    } else {
      var h := HandOver(ids[0]);
      assert Arrivals(ids)[0] == h && Arrivals(ids)[1..] == Arrivals(ids[1..]);
      ArrivalsEffect(Next(s, h), ids[1..]);
      assert (s.incoming + [ids[0]]) + ids[1..] == s.incoming + ids;
    }
  }

  lemma NoneHandedOver(run: seq<Action>)
    requires SwapsOnce(run)
    ensures HandOvers(run) == []
  {
    var before, after :| SwapsBetween(run, before, after);
    forall a | a in run ensures !a.HandOver? {
      assert a in before || a == Swap || a in after;
    }
    NoHandOver(run);
  }

  lemma {:induction false} NoHandOver(run: seq<Action>)
    requires forall a :: a in run ==> !a.HandOver?
    ensures HandOvers(run) == []
  {
    if run != [] {
      assert run[0] in run;
      NoHandOver(run[1..]);
    }
  }
}
