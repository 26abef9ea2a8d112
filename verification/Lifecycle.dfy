/** The life of the connections of one worker as a transition system over their ids: the acceptor hands connections
    over at any moment; the worker waits for events, handles them, admits the newcomers and evicts. */
module Lifecycle {
  import opened Bits

  /** The id that stands for "none" in `evictRandomN`. */
  const NO_ID: Word := 0xFFFF_FFFF_FFFF_FFFF

  datatype Phase = Polling | Handling | Admitting | Managing | Evicting

  /** `drained` is the queue swapped out in `registerNewConnection`, `pending` the events not handled yet. `admitted`,
      `gone` and `closed` record the past and steer nothing. */
  datatype State = State(
    phase: Phase, incoming: seq<Word>, drained: seq<Word>, live: set<Word>, interest: set<Word>, pending: seq<Word>,
    admitted: seq<Word>, gone: set<Word>, closed: set<Word>)

  datatype Action =
    | HandOver(id: Word)
    | Wait(events: seq<Word>)
    | Handle(failed: bool, closes: bool)
    | Swap
    | Admit
    | Settle
    | Manage(victims: set<Word>)
    | Evict(victims: set<Word>)

  predicate Distinct(s: seq<Word>)
  {
    forall i, j :: 0 <= i < j < |s| ==> s[i] != s[j]
  }

  function Ids(s: seq<Word>): set<Word>
  {
    set id | id in s
  }

  /** All connections handed over so far, in order. */
  function HandedOver(s: State): seq<Word>
  {
    s.admitted + s.drained + s.incoming
  }

  const START := State(Polling, [], [], {}, {}, [], [], {}, {})

  /** What can happen next. The acceptor counts ids up, so it never hands over the same id twice; `epoll_wait` reports
      distinct members of the interest set; an eviction round takes at most one connection. */
  predicate Enabled(s: State, a: Action)
  {
    match a
    case HandOver(id) => id !in HandedOver(s) && id != NO_ID
    case Wait(events) => s.phase == Polling && Distinct(events) && Ids(events) <= s.interest
    case Handle(_, _) => s.phase == Handling && s.pending != []
    case Swap => s.phase == Handling && s.pending == []
    case Admit => s.phase == Admitting && s.drained != []
    case Settle => s.phase == Admitting && s.drained == []
    case Manage(victims) => s.phase == Managing && victims <= s.live && |victims| <= 1
    case Evict(victims) => s.phase == Evicting && victims <= s.live && |victims| <= 1
  }

  function Removed(s: State, ids: set<Word>): State
  {
    s.(live := s.live - ids, interest := s.interest - ids, gone := s.gone + (ids * s.live))
  }

  function Next(s: State, a: Action): State
    requires Enabled(s, a)
  {
    match a
    case HandOver(id) => s.(incoming := s.incoming + [id])
    case Wait(events) => s.(phase := Handling, pending := events)
    case Handle(failed, closes) =>
      var id := s.pending[0];
      var t := s.(pending := s.pending[1..], closed := s.closed + if closes then {id} else {});
      if failed || closes then Removed(t, {id}) else t
    case Swap => s.(phase := Admitting, drained := s.incoming, incoming := [])
    case Admit =>
      var id := s.drained[0];
      s.(drained := s.drained[1..], admitted := s.admitted + [id], live := s.live + {id}, interest := s.interest + {id})
    case Settle => s.(phase := Managing)
    case Manage(victims) => Removed(s, victims).(phase := Evicting)
    case Evict(victims) => Removed(s, victims).(phase := Polling)
  }

  /** Every connection handed over is in exactly one place: the incoming queue, the drained queue, the pool, or gone. */
  ghost predicate OnePlace(s: State)
  {
    && Distinct(HandedOver(s)) && NO_ID !in HandedOver(s)
    && Ids(s.admitted) == s.live + s.gone && s.live !! s.gone
  }

  /** The kernel watches exactly the pool; the events still to be handled are distinct members of it; no closed
      connection stays in it. */
  ghost predicate Watched(s: State)
  {
    && s.interest == s.live && s.closed <= s.gone
    && Distinct(s.pending) && Ids(s.pending) <= s.live
    && (s.pending != [] ==> s.phase == Handling) && (s.drained != [] ==> s.phase == Admitting)
  }

  ghost predicate Inv(s: State)
  {
    OnePlace(s) && Watched(s)
  }

  lemma DistinctSplit(a: seq<Word>, b: seq<Word>)
    requires Distinct(a + b)
    ensures Distinct(a) && Distinct(b) && Ids(a) !! Ids(b)
  {
    assert forall i :: 0 <= i < |a| ==> (a + b)[i] == a[i];
    assert forall i :: 0 <= i < |b| ==> (a + b)[|a| + i] == b[i];
  }

  function HandsOver(a: Action): seq<Word>
  {
    if a.HandOver? then [a.id] else []
  }

  lemma StepHandsOver(s: State, a: Action)
    requires Watched(s) && Enabled(s, a)
    ensures HandedOver(Next(s, a)) == HandedOver(s) + HandsOver(a)
  {
  }

  lemma AdmitKeepsOnePlace(s: State)
    requires OnePlace(s) && s.drained != []
    ensures s.drained[0] !in s.admitted && Ids(s.admitted + [s.drained[0]]) == s.live + {s.drained[0]} + s.gone
  {
    DistinctSplit(s.admitted + s.drained, s.incoming);
    DistinctSplit(s.admitted, s.drained);
    assert s.drained[0] in Ids(s.drained);
  }

  lemma StepKeepsOnePlace(s: State, a: Action)
    requires OnePlace(s) && Watched(s) && Enabled(s, a)
    ensures OnePlace(Next(s, a))
  {
    hide HandedOver, Distinct;
    StepHandsOver(s, a);
    if a.HandOver? {
      DistinctAppend(HandedOver(s), a.id);
    } else {
      assert HandedOver(s) + [] == HandedOver(s);
    }
    if a.Admit? {
      AdmitKeepsOnePlace(s);
    } else if a.Handle? {
      assert s.pending[0] in Ids(s.pending);
    }
  }

  lemma DistinctAppend(s: seq<Word>, id: Word)
    requires Distinct(s) && id !in s
    ensures Distinct(s + [id])
  {
  }

  lemma StepKeepsWatched(s: State, a: Action)
    requires OnePlace(s) && Watched(s) && Enabled(s, a)
    ensures Watched(Next(s, a))
  {
    if a.Handle? {
      assert s.pending[0] in Ids(s.pending);
      assert s.pending == [s.pending[0]] + s.pending[1..];
      DistinctSplit([s.pending[0]], s.pending[1..]);
    } else if a.Admit? {
      assert s.pending == [];
    }
  }

  /** The event at hand always belongs to a connection in the pool, so the lookup by `operator[]` inserts nothing. */
  lemma EventsAreLive(s: State)
    requires Inv(s) && s.pending != []
    ensures s.pending[0] in s.live && s.pending[0] in s.interest && s.pending[0] !in s.closed
  {
    assert s.pending[0] in Ids(s.pending);
  }

  predicate Feasible(s: State, run: seq<Action>)
    decreases |run|
  {
    run == [] || (Enabled(s, run[0]) && Feasible(Next(s, run[0]), run[1..]))
  }

  function Run(s: State, run: seq<Action>): State
    requires Feasible(s, run)
    decreases |run|
  {
    if run == [] then s else Run(Next(s, run[0]), run[1..])
  }

  lemma RunOfOne(s: State, a: Action)
    requires Enabled(s, a)
    ensures Feasible(s, [a]) && Run(s, [a]) == Next(s, a)
  {
    assert Feasible(Next(s, a), [a][1..]);
  }

  lemma {:induction false} RunOfConcat(s: State, a: seq<Action>, b: seq<Action>)
    requires Feasible(s, a) && Feasible(Run(s, a), b)
    ensures Feasible(s, a + b) && Run(s, a + b) == Run(Run(s, a), b)
    decreases |a|
  {
    hide Enabled, Next;
    if a == [] {
      assert a + b == b;
    } else {
      RunOfConcat(Next(s, a[0]), a[1..], b);
      assert (a + b)[1..] == a[1..] + b && (a + b)[0] == a[0];
    }
  }

  lemma {:induction false} RunKeepsInv(s: State, run: seq<Action>)
    requires Inv(s) && Feasible(s, run)
    ensures Inv(Run(s, run))
    decreases |run|
  {
    hide Enabled, Next, OnePlace, Watched;
    if run != [] {
      StepKeepsOnePlace(s, run[0]);
      StepKeepsWatched(s, run[0]);
      RunKeepsInv(Next(s, run[0]), run[1..]);
    }
  }

  function HandOvers(run: seq<Action>): seq<Word>
  {
    if run == [] then [] else HandsOver(run[0]) + HandOvers(run[1..])
  }

  lemma {:induction false} RunHandsOver(s: State, run: seq<Action>)
    requires Inv(s) && Feasible(s, run)
    ensures HandedOver(Run(s, run)) == HandedOver(s) + HandOvers(run)
    decreases |run|
  {
    hide Enabled, Next, HandedOver, OnePlace, Watched;
    if run != [] {
      StepHandsOver(s, run[0]);
      StepKeepsOnePlace(s, run[0]);
      StepKeepsWatched(s, run[0]);
      RunHandsOver(Next(s, run[0]), run[1..]);
      var (a, b, c) := (HandedOver(s), HandsOver(run[0]), HandOvers(run[1..]));
      assert a + (b + c) == (a + b) + c;
    }
  }

  lemma IdsCount(s: seq<Word>)
    requires Distinct(s)
    ensures |Ids(s)| == |s|
  {
    if s != [] {
      var front := s[..|s| - 1];
      IdsCount(front);
      assert Ids(s) == Ids(front) + {s[|s| - 1]};
      assert s[|s| - 1] !in front;
    } else {
      assert Ids(s) == {};
    }
  }

  lemma StartIsSound()
    ensures Inv(START) && HandedOver(START) == []
  {
  }

  /** Whatever the interleaving of hand-overs and worker steps, the connections are admitted in the order of their
      hand-over, each is in exactly one of the four places, the kernel watches exactly the pool, and none is lost. */
  lemma ConnectionsAreConserved(run: seq<Action>)
    requires Feasible(START, run)
    ensures
      var t := Run(START, run);
      && HandOvers(run) == t.admitted + t.drained + t.incoming
      && Ids(HandOvers(run)) == t.live + t.gone + Ids(t.drained) + Ids(t.incoming)
      && t.live !! t.gone !! Ids(t.drained) !! Ids(t.incoming)
      && |HandOvers(run)| == |t.live| + |t.gone| + |t.drained| + |t.incoming|
      && t.interest == t.live && t.closed !! t.live
  {
    hide Enabled, Next, Feasible, Run, HandOvers, Distinct, Ids;
    StartIsSound();
    RunKeepsInv(START, run);
    RunHandsOver(START, run);
    var t := Run(START, run);
    assert HandOvers(run) == HandedOver(t);
    PlacesAreApart(t);
  }

  lemma PlacesAreApart(t: State)
    requires OnePlace(t)
    ensures Ids(HandedOver(t)) == t.live + t.gone + Ids(t.drained) + Ids(t.incoming)
    ensures t.live !! t.gone !! Ids(t.drained) !! Ids(t.incoming)
    ensures |HandedOver(t)| == |t.live| + |t.gone| + |t.drained| + |t.incoming|
  {
    DistinctSplit(t.admitted + t.drained, t.incoming);
    DistinctSplit(t.admitted, t.drained);
    IdsCount(t.admitted);
    assert Ids(t.admitted + t.drained) == Ids(t.admitted) + Ids(t.drained);
    assert |t.live + t.gone| == |t.live| + |t.gone|;
  }

  /** A connection never comes back: once gone it stays gone, and is not in the pool again. */
  lemma {:induction false} GoneForGood(s: State, run: seq<Action>)
    requires Inv(s) && Feasible(s, run)
    ensures s.gone <= Run(s, run).gone && s.gone !! Run(s, run).live
    decreases |run|
  {
    hide Enabled;
    if run != [] {
      StepKeepsOnePlace(s, run[0]);
      StepKeepsWatched(s, run[0]);
      GoneForGood(Next(s, run[0]), run[1..]);
    }
  }

  /** A connection leaves the pool only by an event with an error, by being closed in one, or by being evicted. */
  lemma LeavesOnlyByCause(s: State, a: Action, id: Word)
    requires Watched(s) && Enabled(s, a) && id in s.live && id !in Next(s, a).live
    ensures
      || (a.Handle? && id == s.pending[0] && (a.failed || a.closes))
      || (a.Manage? && id in a.victims) || (a.Evict? && id in a.victims)
  {
  }

  /** And then it does leave, for good. */
  lemma LeavesForGood(s: State, a: Action, id: Word, run: seq<Action>)
    requires Inv(s) && Enabled(s, a) && Feasible(Next(s, a), run)
    requires
      || (a.Handle? && id == s.pending[0] && (a.failed || a.closes))
      || (a.Manage? && id in a.victims) || (a.Evict? && id in a.victims)
    ensures var t := Run(Next(s, a), run); id in t.gone && id !in t.live && id !in t.interest
  {
    hide Feasible, Run, OnePlace;
    if a.Handle? {
      assert s.pending[0] in Ids(s.pending);
    }
    StepKeepsOnePlace(s, a);
    StepKeepsWatched(s, a);
    GoneForGood(Next(s, a), run);
    RunKeepsInv(Next(s, a), run);
  }

  lemma StepGrowsTheQueue(s: State, a: Action)
    requires Enabled(s, a) && a != Swap
    ensures Next(s, a).incoming == s.incoming + HandsOver(a)
  {
    assert s.incoming + [] == s.incoming;
  }

  /** What has been handed over since a swap is what waits in the queue. */
  lemma {:induction false} QueueGrows(s: State, run: seq<Action>)
    requires Feasible(s, run) && Swap !in run
    ensures Run(s, run).incoming == s.incoming + HandOvers(run)
    decreases |run|
  {
    hide Enabled, Next, HandsOver;
    if run == [] {
      assert s.incoming + [] == s.incoming;
    } else {
      assert run[0] != Swap && Swap !in run[1..];
      StepGrowsTheQueue(s, run[0]);
      QueueGrows(Next(s, run[0]), run[1..]);
      var (a, b, c) := (s.incoming, HandsOver(run[0]), HandOvers(run[1..]));
      assert a + (b + c) == (a + b) + c;
    }
  }

  lemma AdmittedIs(before: seq<Word>, admitted: seq<Word>, late: seq<Word>)
    requires before + [] + [] + [] + late == admitted + [] + ([] + late)
    ensures admitted == before
  {
    assert before + [] + [] + [] == before && admitted + [] == admitted && [] + late == late;
    assert |before| == |admitted|;
    assert (before + late)[..|before|] == before && (admitted + late)[..|before|] == admitted;
  }

  /** Whatever is handed over meanwhile: when a worker has admitted what it swapped out, everything that was in the
      queue at the swap has been admitted, in order, and nothing else. */
  lemma TurnAdmitsTheQueue(s: State, run: seq<Action>)
    requires Inv(s) && Enabled(s, Swap) && Feasible(Next(s, Swap), run) && Swap !in run
    requires Run(Next(s, Swap), run).phase == Managing
    ensures Run(Next(s, Swap), run).admitted == s.admitted + s.incoming
  {
    hide Feasible, Run, HandOvers, OnePlace;
    var t := Next(s, Swap);
    StepKeepsOnePlace(s, Swap);
    StepKeepsWatched(s, Swap);
    StepHandsOver(s, Swap);
    RunKeepsInv(t, run);
    RunHandsOver(t, run);
    QueueGrows(t, run);
    var u := Run(t, run);
    AdmittedIs(s.admitted + s.incoming, u.admitted, HandOvers(run));
  }

  /** A worker can come to evict with no connection at all: nothing was handed over, nothing happened. */
  lemma EvictsFromAnEmptyPool()
    ensures
      var run := [Wait([]), Swap, Settle, Manage({})];
      Feasible(START, run) && Run(START, run).phase == Evicting && Run(START, run).live == {}
  {
    var run := [Wait([]), Swap, Settle, Manage({})];
    var a := Next(START, run[0]);
    var b := Next(a, Swap);
    var c := Next(b, Settle);
    var d := Next(c, Manage({}));
    assert run[1..] == [Swap, Settle, Manage({})] && run[1..][1..] == [Settle, Manage({})]
      && run[1..][1..][1..] == [Manage({})];
    assert Feasible(d, [Manage({})][1..]);
    assert Feasible(c, [Manage({})]) && Run(c, [Manage({})]) == d;
    assert Feasible(b, run[1..][1..]) && Feasible(a, run[1..]);
  }
}
