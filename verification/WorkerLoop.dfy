/** One turn of the worker's event loop, from one `epoll_wait` to the next. */
module WorkerLoops {
  import opened Bits
  import opened Evictions
  import opened FiniteMaps
  import opened HashTables
  import opened Lifecycle
  import opened WorkerAtomicity
  import opened Workers

  function EventIds(events: seq<Event>): (ids: seq<Word>)
    ensures |ids| == |events| && forall i :: 0 <= i < |ids| ==> ids[i] == events[i].id
  {
    if events == [] then [] else EventIds(events[..|events| - 1]) + [events[|events| - 1].id]
  }

  /** What the worker reads from the server's settings. */
  datatype Settings = Settings(
    maxConnections: int, exceedMaxMemory: bool, maxRule: int, inactiveRule: int, poolSize: int, timeout: int) {

    /** Whether a worker with `n` connections has to evict. */
    predicate MakesRoom(n: int)
    {
      n > maxConnections || exceedMaxMemory
    }
  }

  /** The time of a round of sampling and its random numbers. */
  datatype Sampling = Sampling(now: int, randoms: seq<Random>)

  lemma EmptyRun(s: State)
    ensures Feasible(s, []) && Run(s, []) == s
  {
  }

  lemma ExtendRun(s: State, run: seq<Action>, a: Action)
    requires Feasible(s, run) && Inv(s) && Enabled(Run(s, run), a)
    ensures Feasible(s, run + [a]) && Run(s, run + [a]) == Next(Run(s, run), a) && Inv(Run(s, run + [a]))
  {
    hide Enabled, Next, Inv;
    RunOfOne(Run(s, run), a);
    RunOfConcat(s, run, [a]);
    RunKeepsInv(s, run + [a]);
  }

  /** The connection of an event got the calls of that event, and was handled by the error flag and by whether it was
      closed after them. */
  ghost predicate Treated(event: Event, conn: Connection, was: map<Connection, Status>, now: map<Connection, Status>,
      a: Action)
  {
    && conn in was && conn in now && conn.id == event.id
    && Served(event, was[conn], now[conn]) && a == Handle(event.failed, now[conn].close)
  }

  /** So did those of the first events, which the pool `m` held under their ids. */
  ghost predicate AllTreated(events: seq<Event>, served: seq<Connection>, m: map<Word, Connection?>,
      was: map<Connection, Status>, now: map<Connection, Status>, run: seq<Action>)
  {
    && |served| == |run| <= |events|
    && forall i {:trigger served[i]} :: 0 <= i < |served| ==>
         && Treated(events[i], served[i], was, now, run[i])
         && events[i].id in m && m[events[i].id] == served[i]
  }

  /** New connections have been told that they are connected. */
  ghost predicate Welcomed(connections: seq<Connection>, was: map<Connection, Status>, now: map<Connection, Status>)
  {
    forall conn :: conn in connections ==> conn in was && conn in now && now[conn] == was[conn].After(Connected)
  }

  /** All other connections are as they were. */
  ghost predicate OthersStay(was: map<Connection, Status>, now: map<Connection, Status>, touched: seq<Connection>)
  {
    was.Keys == now.Keys && forall conn :: conn in now && conn !in touched ==> now[conn] == was[conn]
  }

  /** The pool has the same connections as before under the keys that are left. */
  ghost predicate Within(m: map<Word, Connection?>, whole: map<Word, Connection?>)
  {
    forall id {:trigger m[id]} :: id in m ==> id in whole && m[id] == whole[id]
  }

  lemma PoolWithin(m: map<Word, Connection?>, whole: map<Word, Connection?>, id: Word, ids: set<Word>)
    requires Within(m, whole)
    ensures Within(m - ids, whole) && (id in m ==> id in whole && m[id] == whole[id])
  {
  }

  lemma NobodyTouched(events: seq<Event>, was: map<Connection, Status>, m: map<Word, Connection?>)
    ensures AllTreated(events, [], m, was, was, []) && OthersStay(was, was, []) && Within(m, m)
  {
  }

  predicate DistinctEvents(events: seq<Event>)
  {
    forall i, j :: 0 <= i < j < |events| ==> events[i].id != events[j].id
  }

  lemma EventsAreDistinct(s: State, events: seq<Event>)
    requires Inv(s) && s.pending == EventIds(events)
    ensures DistinctEvents(events)
  {
    forall i, j | 0 <= i < j < |events| ensures events[i].id != events[j].id {
      assert s.pending[i] != s.pending[j];
    }
  }

  /** One more event is treated, of another connection than those before. */
  lemma TreatedOneMore(events: seq<Event>, served: seq<Connection>, m: map<Word, Connection?>,
      was: map<Connection, Status>, now: map<Connection, Status>, next: map<Connection, Status>, run: seq<Action>,
      conn: Connection)
    requires AllTreated(events, served, m, was, now, run) && OthersStay(was, now, served) && DistinctEvents(events)
    requires |served| < |events| && OthersStay(now, next, [conn]) && conn in now
    requires
      var event := events[|served|];
      conn.id == event.id && Served(event, now[conn], next[conn]) && event.id in m && m[event.id] == conn
    ensures
      var a := Handle(events[|served|].failed, next[conn].close);
      AllTreated(events, served + [conn], m, was, next, run + [a]) && OthersStay(was, next, served + [conn])
  {
    hide Served;
    forall i | 0 <= i < |served|
      ensures served[i] != conn && Treated(events[i], served[i], was, next, run[i])
    {
      assert Treated(events[i], served[i], was, now, run[i]);
    }
  }

  lemma LiveShrinks(s: State, failed: bool, closes: bool)
    requires Enabled(s, Handle(failed, closes))
    ensures var t := Next(s, Handle(failed, closes));
            |t.live| <= |s.live| && t.incoming == s.incoming && t.phase == Handling && t.pending == s.pending[1..]
  {
  }

  /** One turn of the loop over the events. */
  method HandleOne(w: Worker, event: Event, ghost t: State)
    returns (closes: bool, ghost conn: Connection, ghost next: map<Connection, Status>)
    requires Enabled(t, Handle(event.failed, false)) && event.id == t.pending[0] && Inv(t) && |t.live| < INT_MAX
    requires w.Represents(t)
    modifies w.pool.Repr, w.epoll, w.known
    ensures fresh(w.pool.Repr - old(w.pool.Repr)) && w.known == old(w.known)
    ensures w.Represents(Next(t, Handle(event.failed, closes)))
    ensures conn in w.known && conn.id == event.id
    ensures event.id in old(w.pool.contents) && conn == old(w.pool.contents)[event.id]
    ensures w.pool.contents == old(w.pool.contents) - if event.failed || closes then {event.id} else {}
    ensures next == StatusOf(w.known) && OthersStay(old(StatusOf(w.known)), next, [conn])
    ensures closes == next[conn].close && Served(event, old(StatusOf(w.known))[conn], next[conn])
    ensures w.incoming == old(w.incoming) && w.pool.hits == old(w.pool.hits)
  {
    hide Worker.Represents, Inv, Next, Served;
    ghost var was := StatusOf(w.known);
    closes, conn := w.HandleEvent(event, t);
    next := StatusOf(w.known);
    assert was[conn] == old(conn.Now());
    forall other | other in w.known && other != conn ensures next[other] == was[other] {
      assert unchanged(other);
    }
  }

  /** The loop over the reported events: each of them is handled, and its connection gets its calls. */
  method HandleAll(w: Worker, events: seq<Event>, ghost s: State)
    returns (ghost run: seq<Action>, ghost served: seq<Connection>)
    requires s.phase == Handling && s.pending == EventIds(events) && Inv(s) && |s.live| < INT_MAX
    requires w.Represents(s)
    modifies w.pool.Repr, w.epoll, w.known
    ensures Feasible(s, run) && w.Represents(Run(s, run)) && Inv(Run(s, run))
      && fresh(w.pool.Repr - old(w.pool.Repr)) && w.known == old(w.known)
    ensures
      var t := Run(s, run);
      t.phase == Handling && t.pending == [] && t.incoming == s.incoming
        && |t.live| <= |s.live|
    ensures Quiet(run) && |run| == |events| && w.incoming == old(w.incoming) && w.pool.hits == old(w.pool.hits)
    ensures AllTreated(events, served, old(w.pool.contents), old(StatusOf(w.known)), StatusOf(w.known), run)
    ensures OthersStay(old(StatusOf(w.known)), StatusOf(w.known), served)
  {
    hide Worker.Represents, Inv, Next, Run, Feasible, EventIds, AllTreated, OthersStay, Within, Served;
    run, served := [], [];
    EmptyRun(s);
    EventsAreDistinct(s, events);
    ghost var (was, m) := (StatusOf(w.known), w.pool.contents);
    ghost var now := was;
    NobodyTouched(events, was, m);
    for i := 0 to |events|
      invariant Feasible(s, run) && w.Represents(Run(s, run)) && Inv(Run(s, run))
        && fresh(w.pool.Repr - old(w.pool.Repr)) && w.known == old(w.known)
      invariant
        var t := Run(s, run);
        t.phase == Handling && t.pending == s.pending[i..] && t.incoming == s.incoming
          && |t.live| <= |s.live|
      invariant Quiet(run) && |run| == |served| == i && now == StatusOf(w.known) && Within(w.pool.contents, m)
      invariant w.incoming == old(w.incoming) && w.pool.hits == old(w.pool.hits)
      invariant AllTreated(events, served, m, was, now, run) && OthersStay(was, now, served)
    {
      ghost var (t, contents) := (Run(s, run), w.pool.contents);
      var event := events[i];
      var closes;
      ghost var conn, next;
      closes, conn, next := HandleOne(w, event, t);
      PoolWithin(contents, m, event.id, if event.failed || closes then {event.id} else {});
      TreatedOneMore(events, served, m, was, now, next, run, conn);
      LiveShrinks(t, event.failed, closes);
      ExtendRun(s, run, Handle(event.failed, closes));
      run, served, now := run + [Handle(event.failed, closes)], served + [conn], next;
    }
  }

  lemma LiveGrows(s: State)
    requires Enabled(s, Admit)
    ensures var t := Next(s, Admit); |t.live| <= |s.live| + 1 && t.phase == Admitting && t.drained == s.drained[1..]
  {
  }

  lemma DrainedAreDistinct(s: State, connections: seq<Connection>)
    requires Inv(s) && s.drained == ConnectionIds(connections)
    ensures forall i, j :: 0 <= i < j < |connections| ==> connections[i] != connections[j]
  {
    DistinctSplit(s.admitted + s.drained, s.incoming);
    DistinctSplit(s.admitted, s.drained);
    forall i, j | 0 <= i < j < |connections| ensures connections[i] != connections[j] {
      assert s.drained[i] != s.drained[j];
    }
  }

  lemma WelcomedOneMore(connections: seq<Connection>, i: nat, was: map<Connection, Status>,
      now: map<Connection, Status>, next: map<Connection, Status>)
    requires i < |connections| && forall i, j :: 0 <= i < j < |connections| ==> connections[i] != connections[j]
    requires Welcomed(connections[..i], was, now) && OthersStay(was, now, connections[..i])
    requires Welcomed([connections[i]], now, next) && OthersStay(now, next, [connections[i]])
    ensures Welcomed(connections[..i + 1], was, next) && OthersStay(was, next, connections[..i + 1])
  {
    hide Status.After;
    var conn := connections[i];
    assert conn in [conn] && connections[..i + 1] == connections[..i] + [conn];
    assert conn !in connections[..i];
  }

  /** One turn of the loop that empties the drained queue. */
  method AdmitNext(w: Worker, conn: Connection, ghost t: State) returns (ghost next: map<Connection, Status>)
    requires Enabled(t, Admit) && t.drained[0] == conn.id && w.Represents(t) && conn in w.known && |t.live| < INT_MAX
    modifies w.pool.Repr, w.epoll, conn
    ensures w.Represents(Next(t, Admit)) && fresh(w.pool.Repr - old(w.pool.Repr)) && w.known == old(w.known)
    ensures next == StatusOf(w.known) && w.pool.hits == old(w.pool.hits)
    ensures Welcomed([conn], old(StatusOf(w.known)), next) && OthersStay(old(StatusOf(w.known)), next, [conn])
  {
    hide Worker.Represents, Worker.Valid, Next, Status.After;
    ghost var was := StatusOf(w.known);
    w.KnownAreApart(t);
    w.AdmitOne(conn, t);
    next := StatusOf(w.known);
    assert was[conn] == old(conn.Now());
    forall other | other in w.known && other != conn ensures next[other] == was[other] {
      assert unchanged(other);
    }
  }

  /** The loop that empties the drained queue: everything in it is admitted, in order, and told so. */
  method AdmitAll(w: Worker, temp: seq<Connection>, ghost s: State) returns (ghost run: seq<Action>)
    requires s.phase == Admitting && s.drained == ConnectionIds(temp) && Inv(s) && |s.live| + |temp| < INT_MAX
    requires w.Represents(s) && forall conn :: conn in temp ==> conn in w.known
    modifies w.pool.Repr, w.epoll, w.known
    ensures Feasible(s, run) && w.Represents(Run(s, run)) && Inv(Run(s, run))
      && fresh(w.pool.Repr - old(w.pool.Repr)) && w.known == old(w.known)
    ensures var t := Run(s, run); t.phase == Admitting && t.drained == [] && |t.live| <= |s.live| + |temp|
    ensures Quiet(run) && |run| == |temp| && (forall a :: a in run ==> a == Admit) && w.pool.hits == old(w.pool.hits)
    ensures Welcomed(temp, old(StatusOf(w.known)), StatusOf(w.known))
      && OthersStay(old(StatusOf(w.known)), StatusOf(w.known), temp)
  {
    hide Worker.Represents, Inv, Next, Run, Feasible, ConnectionIds, Welcomed, OthersStay;
    run := [];
    EmptyRun(s);
    DrainedAreDistinct(s, temp);
    ghost var was := StatusOf(w.known);
    ghost var now := was;
    NobodyWelcomed(was, temp);
    for i := 0 to |temp|
      invariant Feasible(s, run) && w.Represents(Run(s, run)) && Inv(Run(s, run))
        && fresh(w.pool.Repr - old(w.pool.Repr)) && w.known == old(w.known)
      invariant var t := Run(s, run); t.phase == Admitting && t.drained == s.drained[i..] && |t.live| <= |s.live| + i
      invariant Quiet(run) && |run| == i && (forall a :: a in run ==> a == Admit) && now == StatusOf(w.known)
      invariant w.pool.hits == old(w.pool.hits)
      invariant Welcomed(temp[..i], was, now) && OthersStay(was, now, temp[..i])
    {
      ghost var t := Run(s, run);
      ghost var next := AdmitNext(w, temp[i], t);
      WelcomedOneMore(temp, i, was, now, next);
      LiveGrows(t);
      ExtendRun(s, run, Admit);
      run, now := run + [Admit], next;
    }
    assert temp[..|temp|] == temp;
  }

  lemma NobodyWelcomed(was: map<Connection, Status>, connections: seq<Connection>)
    ensures Welcomed(connections[..0], was, was) && OthersStay(was, was, connections[..0])
  {
  }

  lemma DrainEffect(s: State)
    requires Enabled(s, Swap)
    ensures var t := Next(s, Swap); t.phase == Admitting && t.drained == s.incoming && t.live == s.live
  {
  }

  lemma SettleEffect(s: State)
    requires Enabled(s, Settle)
    ensures Next(s, Settle) == s.(phase := Managing)
  {
  }

  /** Two stretches of a run, one after the other. */
  lemma JoinRuns(s: State, a: seq<Action>, b: seq<Action>)
    requires Inv(s) && Feasible(s, a) && Feasible(Run(s, a), b)
    ensures Feasible(s, a + b) && Run(s, a + b) == Run(Run(s, a), b) && Inv(Run(s, a)) && Inv(Run(s, a + b))
  {
    hide Inv;
    RunOfConcat(s, a, b);
    RunKeepsInv(s, a);
    RunKeepsInv(s, a + b);
  }

  /** `registerNewConnection` of the worker's thread: whatever is in the queue is admitted. */
  method Register(w: Worker, ghost s: State) returns (ghost run: seq<Action>)
    requires Enabled(s, Swap) && Inv(s) && |s.live| + |s.incoming| < INT_MAX
    requires w.Represents(s)
    modifies w`incoming, w.pool.Repr, w.epoll, w.known
    ensures Feasible(s, run) && w.Represents(Run(s, run)) && Inv(Run(s, run))
      && fresh(w.pool.Repr - old(w.pool.Repr)) && w.known == old(w.known)
    ensures var t := Run(s, run); t.phase == Managing && |t.live| <= |s.live| + |s.incoming|
    ensures SwapsFirst(run) && Admissions(run, |old(w.incoming)|) && w.pool.hits == old(w.pool.hits)
    ensures Welcomed(old(w.incoming), old(StatusOf(w.known)), StatusOf(w.known))
      && OthersStay(old(StatusOf(w.known)), StatusOf(w.known), old(w.incoming))
  {
    hide Worker.Represents, Inv, Run, Feasible, Next, ConnectionIds, Welcomed, OthersStay;
    DrainEffect(s);
    EmptyRun(s);
    ExtendRun(s, [], Swap);
    assert [] + [Swap] == [Swap];
    ghost var t := Next(s, Swap);
    var temp := w.DrainIncoming(s);
    run := AdmitAll(w, temp, t);
    JoinRuns(s, [Swap], run);
    ghost var u := Run(t, run);
    SettleEffect(u);
    ExtendRun(s, [Swap] + run, Settle);
    w.SameView(u, u.(phase := Managing));
    SwapComesFirst(run);
    run := [Swap] + run + [Settle];
  }

  /** The swap of the queues and the admission of `n` connections. */
  predicate Admissions(run: seq<Action>, n: nat)
  {
    |run| == n + 2 && run[0] == Swap && run[n + 1] == Settle && forall i :: 0 < i <= n ==> run[i] == Admit
  }

  lemma SwapComesFirst(admissions: seq<Action>)
    requires Quiet(admissions) && forall a :: a in admissions ==> a == Admit
    ensures SwapsFirst([Swap] + admissions + [Settle]) && Admissions([Swap] + admissions + [Settle], |admissions|)
  {
    var (run, n) := ([Swap] + admissions + [Settle], |admissions|);
    assert run[1..] == admissions + [Settle];
    forall i | 0 < i <= n ensures run[i] == Admit {
      assert run[i] == admissions[i - 1] && admissions[i - 1] in admissions;
    }
  }

  ghost predicate SwapsFirst(run: seq<Action>)
  {
    run != [] && run[0] == Swap && Quiet(run[1..])
  }

  lemma ManageEffect(s: State, victims: set<Word>)
    requires Enabled(s, Manage(victims))
    ensures Next(s, Manage(victims)).phase == Evicting && |Next(s, Manage(victims)).live| <= |s.live|
  {
  }

  lemma EvictEffect(s: State, victims: set<Word>)
    requires Enabled(s, Evict(victims))
    ensures Next(s, Evict(victims)).phase == Polling
    ensures victims == {} ==> var t := Next(s, Evict(victims));
              t.live == s.live && t.interest == s.interest && t.incoming == s.incoming && t.closed == s.closed
  {
  }

  /** The connections that the two rounds at the end of a turn take, and the samples they take them by. */
  datatype Room = Room(inactive: set<Word>, evicted: set<Word>, first: seq<Sample>, second: seq<Sample>)

  /** `manageInactiveConnection` on a pool: the most inactive sample over the timeout goes, if the rule is set. */
  ghost predicate InactiveGo(c: Settings, pool: map<Word, Peer>, room: Room)
  {
    && Round(room.first, pool)
    && |room.first| == (if c.inactiveRule == INACTIVE_TCP_EVICTION_NONE then 0 else RoundLength(c.poolSize, |pool|))
    && room.inactive == Victims(room.first, c.poolSize, false, c.timeout)
  }

  /** `eviction` on a pool, if there are too many connections or too little memory. */
  ghost predicate ExcessGoes(c: Settings, pool: map<Word, Peer>, room: Room)
  {
    if c.MakesRoom(|pool|) then EvictedBy(c.maxRule, pool, c.poolSize, c.timeout, room.evicted, room.second)
    else room.evicted == {} && room.second == []
  }

  /** How a turn ends on the pool `m`: the run of the last two steps, and the outcome. */
  ghost predicate EndsAs(c: Settings, first: Sampling, second: Sampling, m: map<Word, Connection?>,
      status: map<Connection, Status>, room: Room, run: seq<Action>, outcome: Outcome)
  {
    var left := m - room.inactive;
    && (run == [] ==> outcome == Retrying)
    && (run != [] ==>
          && run[0] == Manage(room.inactive) && InactiveGo(c, ViewsBy(m, status, first.now), room)
          && (outcome == NullDereference <==>
              c.MakesRoom(|left|) && c.maxRule == MAX_TCP_EVICTION_RANDOM && left == map[]))
    && (if outcome == Finished then
          && run == [Manage(room.inactive), Evict(room.evicted)]
          && ExcessGoes(c, ViewsBy(left, status, second.now), room)
        else |run| <= 1)
  }

  /** The random hits at the end of a turn, each by the numbers that were drawn for it. */
  ghost predicate HitsAre(c: Settings, hits: seq<Hit<Word>>, before: seq<Hit<Word>>, first: Sampling, second: Sampling,
      room: Room)
  {
    && |room.first| <= |first.randoms| && |room.second| <= |second.randoms| && 0 < |second.randoms|
    && hits == before + HitsOf(first.randoms, room.first)
             + EvictionHits(c.maxRule, second.randoms, room.evicted, room.second)
  }

  /** `manageInactiveConnection`. */
  method RemoveInactive(w: Worker, c: Settings, first: Sampling, ghost s: State)
    returns (outcome: Outcome, ghost room: Room)
    requires Enabled(s, Manage({})) && Inv(s) && |s.live| < INT_MAX && c.poolSize <= |first.randoms|
    requires w.Represents(s)
    modifies w.pool.Repr, w.epoll
    ensures fresh(w.pool.Repr - old(w.pool.Repr)) && w.known == old(w.known)
    ensures StatusOf(w.known) == old(StatusOf(w.known))
    ensures outcome == Finished || outcome == Retrying
    ensures outcome == Retrying ==> w.Represents(s) && w.Valid() && w.OutOfNumbers(first.randoms)
    ensures room.evicted == {} && room.second == [] && |room.first| <= |first.randoms|
    ensures outcome == Finished ==>
              && Enabled(s, Manage(room.inactive)) && w.Represents(Next(s, Manage(room.inactive)))
              && w.pool.contents == old(w.pool.contents) - room.inactive
              && InactiveGo(c, ViewsBy(old(w.pool.contents), StatusOf(w.known), first.now), room)
              && w.pool.hits == old(w.pool.hits) + HitsOf(first.randoms, room.first)
  {
    hide Worker.Represents, Worker.Valid, Worker.OutOfNumbers, Inv, Next, Round, Views, ViewsBy, HitsOf, Pooled,
        StatusOf;
    w.PoolOf(s);
    ViewsAreBy(w.pool.contents, s.live, w.known, first.now);
    PoolFacts(w.pool.contents, s.live, w.known, NO_ID);
    w.CountsConnections(s);
    ghost var samples;
    outcome, samples := w.ManageInactive(c.inactiveRule, c.poolSize, c.timeout, first.now, first.randoms, s);
    room := Room(Victims(samples, c.poolSize, false, c.timeout), {}, samples, []);
  }

  /** `eviction`, when there are too many connections or too little memory. */
  method RemoveExcess(w: Worker, c: Settings, second: Sampling, ghost t: State, ghost before: Room)
    returns (outcome: Outcome, ghost room: Room)
    requires Enabled(t, Evict({})) && Inv(t) && |t.live| < INT_MAX && 0 < |second.randoms|
      && c.poolSize <= |second.randoms|
    requires w.Represents(t) && before.second == [] && before.evicted == {}
    modifies w.pool.Repr, w.epoll
    ensures fresh(w.pool.Repr - old(w.pool.Repr)) && w.known == old(w.known)
    ensures StatusOf(w.known) == old(StatusOf(w.known))
    ensures room.inactive == before.inactive && room.first == before.first && |room.second| <= |second.randoms|
    ensures outcome == Retrying ==> w.Represents(t) && w.Valid() && w.OutOfNumbers(second.randoms)
    ensures outcome == Finished ==>
              && Enabled(t, Evict(room.evicted)) && w.Represents(Next(t, Evict(room.evicted)))
              && ExcessGoes(c, ViewsBy(old(w.pool.contents), StatusOf(w.known), second.now), room)
    ensures outcome == Finished ==>
              w.pool.hits ==
              old(w.pool.hits) + EvictionHits(c.maxRule, second.randoms, room.evicted, room.second)
    ensures outcome == NullDereference <==>
            c.MakesRoom(|old(w.pool.contents)|) && c.maxRule == MAX_TCP_EVICTION_RANDOM && t.live == {}
  {
    hide Worker.Represents, Worker.Valid, Worker.OutOfNumbers, Inv, Next, Round, Views, ViewsBy, HitsOf, Pooled,
        StatusOf, EvictedBy, EvictionHits;
    w.PoolOf(t);
    ViewsAreBy(w.pool.contents, t.live, w.known, second.now);
    PoolFacts(w.pool.contents, t.live, w.known, NO_ID);
    w.CountsConnections(t);
    NoHits(w.pool.hits, second.randoms);
    HitsWithoutVictim(c.maxRule, second.randoms, {}, []);
    room, outcome := before, Finished;
    var size := w.ConnectionCount(t);
    if size > c.maxConnections || c.exceedMaxMemory {
      ghost var victims, samples;
      outcome, victims, samples := w.Eviction(c.maxRule, c.poolSize, c.timeout, second.now, second.randoms, t);
      room := before.(evicted := victims, second := samples);
    } else {
      EvictEffect(t, {});
      w.SameView(t, Next(t, Evict({})));
    }
  }

  lemma HitsAddUp(c: Settings, hits: seq<Hit<Word>>, before: seq<Hit<Word>>, first: Sampling, second: Sampling,
      room: Room)
    requires |room.first| <= |first.randoms| && |room.second| <= |second.randoms| && 0 < |second.randoms|
    requires hits == before + HitsOf(first.randoms, room.first)
                   + EvictionHits(c.maxRule, second.randoms, room.evicted, room.second)
    ensures HitsAre(c, hits, before, first, second, room)
  {
  }

  /** A turn ends with an eviction only from a pool over the limit, or when memory is short. By the rule "random" one
      connection goes exactly then, and so it does by the rule "inactive" if some sample has been inactive. */
  lemma EvictsOverTheLimit(c: Settings, first: Sampling, second: Sampling, m: map<Word, Connection?>,
      status: map<Connection, Status>, room: Room, run: seq<Action>)
    requires EndsAs(c, first, second, m, status, room, run, Finished) && NO_ID !in m
    ensures
      var (left, over) := (m - room.inactive, |m - room.inactive| > c.maxConnections || c.exceedMaxMemory);
      && |room.evicted| <= 1 && room.evicted <= left.Keys && (room.evicted != {} ==> over)
      && (c.maxRule == MAX_TCP_EVICTION_RANDOM && over ==> |left - room.evicted| == |left| - 1)
      && (c.maxRule == MAX_TCP_EVICTION_INACTIVE && over ==>
            (room.evicted != {} <==> exists x :: x in room.second && x.inactive > 0))
  {
    hide Round, Victims;
    var left := m - room.inactive;
    var views := ViewsBy(left, status, second.now);
    if c.MakesRoom(|views|) && c.maxRule == MAX_TCP_EVICTION_INACTIVE {
      OneGoesIff(room.second, views, Min(|views|, c.poolSize), true, c.timeout);
    }
    assert |views| == |views.Keys| && |left| == |left.Keys|;
  }

  lemma EndsAtOnce(c: Settings, first: Sampling, second: Sampling, m: map<Word, Connection?>,
      status: map<Connection, Status>, room: Room)
    ensures EndsAs(c, first, second, m, status, room, [], Retrying)
  {
  }

  lemma EndsWithRounds(c: Settings, first: Sampling, second: Sampling, m: map<Word, Connection?>,
      status: map<Connection, Status>, before: Room, room: Room, run: seq<Action>, outcome: Outcome)
    requires InactiveGo(c, ViewsBy(m, status, first.now), before)
    requires room.inactive == before.inactive && room.first == before.first
    requires
      var left := m - room.inactive;
      && (outcome == NullDereference <==>
          c.MakesRoom(|left|) && c.maxRule == MAX_TCP_EVICTION_RANDOM && left == map[])
      && (outcome == Finished ==> ExcessGoes(c, ViewsBy(left, status, second.now), room))
    requires run == [Manage(room.inactive)] + if outcome == Finished then [Evict(room.evicted)] else []
    ensures EndsAs(c, first, second, m, status, room, run, outcome)
  {
    hide ViewsBy, Round, Victims, EvictedBy;
  }

  /** `manageInactiveConnection`, and `eviction` when there are too many connections or too little memory. */
  method MakeRoom(w: Worker, c: Settings, first: Sampling, second: Sampling, ghost s: State)
    returns (outcome: Outcome, ghost run: seq<Action>, ghost room: Room)
    requires s.phase == Managing && Inv(s) && |s.live| < INT_MAX
    requires c.poolSize <= |first.randoms| && c.poolSize <= |second.randoms| && 0 < |second.randoms|
    requires w.Represents(s)
    modifies w.pool.Repr, w.epoll
    ensures fresh(w.pool.Repr - old(w.pool.Repr)) && Feasible(s, run) && Quiet(run)
      && w.known == old(w.known) && StatusOf(w.known) == old(StatusOf(w.known))
    ensures outcome == Finished ==> w.Represents(Run(s, run)) && Run(s, run).phase == Polling
    ensures outcome == Retrying ==>
              && w.Represents(Run(s, run)) && w.Valid() && |Run(s, run).live| < INT_MAX
              && (w.OutOfNumbers(first.randoms) || w.OutOfNumbers(second.randoms))
    ensures outcome == NullDereference ==>
              Run(s, run).phase == Evicting && Run(s, run).live == {} && c.MakesRoom(0)
                && c.maxRule == MAX_TCP_EVICTION_RANDOM
    ensures EndsAs(c, first, second, old(w.pool.contents), StatusOf(w.known), room, run, outcome)
    ensures outcome == Finished ==> HitsAre(c, w.pool.hits, old(w.pool.hits), first, second, room)
  {
    hide Worker.Represents, Worker.Valid, Worker.OutOfNumbers, Inv, Run, Feasible, Next, Round, Views, HitsOf,
        InactiveGo, ExcessGoes, StatusOf, EvictionHits, ViewsBy, EndsAs, HitsAre, Enabled;
    EmptyRun(s);
    run := [];
    ghost var (m, hits) := (w.pool.contents, w.pool.hits);
    NobodyNeedGo(s);
    outcome, room := RemoveInactive(w, c, first, s);
    if outcome == Retrying {
      EndsAtOnce(c, first, second, m, StatusOf(w.known), room);
      return;
    }
    ManageEffect(s, room.inactive);
    ExtendRun(s, [], Manage(room.inactive));
    run := [Manage(room.inactive)];
    assert [] + run == run;
    ghost var t := Run(s, run);
    w.CountsConnections(t);
    EmptyTogether(w.pool.contents, t.live);
    NobodyNeedGo(t);
    ghost var before := room;
    outcome, room := RemoveExcess(w, c, second, t, before);
    if outcome == Finished {
      EvictEffect(t, room.evicted);
      ExtendRun(s, run, Evict(room.evicted));
      run := run + [Evict(room.evicted)];
    }
    EndsWithRounds(c, first, second, m, StatusOf(w.known), before, room, run, outcome);
    if outcome == Finished {
      HitsAddUp(c, w.pool.hits, hits, first, second, room);
    }
  }

  lemma NobodyNeedGo(s: State)
    ensures s.phase == Managing ==> Enabled(s, Manage({}))
    ensures s.phase == Evicting ==> Enabled(s, Evict({}))
  {
  }

  lemma EmptyTogether(m: map<Word, Connection?>, live: set<Word>)
    requires |m| == |live|
    ensures m == map[] <==> live == {}
  {
  }

  lemma WaitEffect(s: State, events: seq<Word>)
    requires Enabled(s, Wait(events))
    ensures Next(s, Wait(events)) == s.(phase := Handling, pending := events)
  {
  }

  lemma OneSwap(handled: seq<Action>, registered: seq<Action>, rest: seq<Action>)
    requires Quiet(handled) && SwapsFirst(registered) && Quiet(rest)
    ensures SwapsOnce(handled + registered + rest)
  {
    var after := registered[1..] + rest;
    assert handled + registered + rest == handled + ([Swap] + after);
    assert SwapsBetween(handled + registered + rest, handled, after);
  }

  /** What a turn consists of after the wait: the events with their connections, the admissions, and the end on the pool
      that it then has. */
  datatype Parts = Parts(
    handled: seq<Action>, served: seq<Connection>, registered: seq<Action>, pool: map<Word, Connection?>,
    status: map<Connection, Status>, ending: seq<Action>, room: Room)

  /** The steps of the turn before its end. */
  function Before(parts: Parts, events: seq<Event>): seq<Action>
  {
    [Wait(EventIds(events))] + parts.handled + parts.registered
  }

  /** Every event is handled and its connection gets the calls for it; every newcomer is told that it is connected; no
      other connection is touched. */
  ghost predicate CallsAre(events: seq<Event>, parts: Parts, m: map<Word, Connection?>, newcomers: seq<Connection>,
      was: map<Connection, Status>, now: map<Connection, Status>)
  {
    && |parts.handled| == |events| && AllTreated(events, parts.served, m, was, now, parts.handled)
    && Admissions(parts.registered, |newcomers|) && Welcomed(newcomers, was, now)
    && OthersStay(was, now, parts.served + newcomers)
  }

  /** The calls for the events and those for the newcomers go to different connections. */
  lemma CallsAddUp(events: seq<Event>, parts: Parts, m: map<Word, Connection?>, newcomers: seq<Connection>,
      was: map<Connection, Status>, mid: map<Connection, Status>, now: map<Connection, Status>)
    requires |parts.handled| == |events| && AllTreated(events, parts.served, m, was, mid, parts.handled)
    requires OthersStay(was, mid, parts.served) && Admissions(parts.registered, |newcomers|)
    requires Welcomed(newcomers, mid, now) && OthersStay(mid, now, newcomers)
    requires forall conn :: conn in newcomers ==> conn.id !in m
    ensures CallsAre(events, parts, m, newcomers, was, now)
  {
    hide Served, Status.After;
    forall i | 0 <= i < |parts.served|
      ensures Treated(events[i], parts.served[i], was, now, parts.handled[i]) && parts.served[i] !in newcomers
    {
      assert Treated(events[i], parts.served[i], was, mid, parts.handled[i]);
    }
  }

  /** One turn of `workFunction`: a run of the transition system back to the next wait, which handles every event,
      admits every newcomer and makes room. It stays in a retry loop only as long as no random number hits, and it fails
      exactly where room must be made, a random connection is to go, and there is none. */
  method Turn(w: Worker, events: seq<Event>, c: Settings, first: Sampling, second: Sampling, ghost s: State)
    returns (outcome: Outcome, ghost run: seq<Action>, ghost parts: Parts)
    requires Enabled(s, Wait(EventIds(events))) && Inv(s) && |s.live| + |s.incoming| < INT_MAX
    requires c.poolSize <= |first.randoms| && c.poolSize <= |second.randoms| && 0 < |second.randoms|
    requires w.Represents(s)
    modifies w`incoming, w.pool.Repr, w.epoll, w.known
    ensures fresh(w.pool.Repr - old(w.pool.Repr)) && Feasible(s, run) && SwapsOnce(run) && w.known == old(w.known)
    ensures outcome != NullDereference ==> w.Represents(Run(s, run))
    ensures outcome == Finished ==> Run(s, run).phase == Polling
    ensures outcome == Retrying ==> w.Valid() && (w.OutOfNumbers(first.randoms) || w.OutOfNumbers(second.randoms))
    ensures (forall r :: r in first.randoms || r in second.randoms ==> Exhaustive(r.draws)) ==> outcome != Retrying
    ensures outcome == NullDereference ==>
              Run(s, run).phase == Evicting && Run(s, run).live == {} && c.MakesRoom(0)
                && c.maxRule == MAX_TCP_EVICTION_RANDOM
    ensures run == Before(parts, events) + parts.ending && Feasible(s, Before(parts, events))
    ensures CallsAre(events, parts, old(w.pool.contents), old(w.incoming), old(StatusOf(w.known)), StatusOf(w.known))
    ensures Pooled(parts.pool, Run(s, Before(parts, events)).live, w.known)
    ensures parts.status == StatusOf(w.known)
    ensures EndsAs(c, first, second, parts.pool, parts.status, parts.room, parts.ending, outcome)
    ensures outcome == Finished ==> HitsAre(c, w.pool.hits, old(w.pool.hits), first, second, parts.room)
  {
    hide Worker.Represents, Worker.Valid, Worker.OutOfNumbers, Inv, Run, Feasible, Next, EventIds, Enabled, Exhaustive,
        AllTreated, OthersStay, Welcomed, Admissions, Pooled, EndsAs, HitsAre, CallsAre;
    ghost var (was, m, newcomers) := (StatusOf(w.known), w.pool.contents, w.incoming);
    w.NewcomersAreNotPooled(s);
    WaitEffect(s, EventIds(events));
    EmptyRun(s);
    ExtendRun(s, [], Wait(EventIds(events)));
    run := [Wait(EventIds(events))];
    assert [] + run == run;
    w.SameView(s, Run(s, run));
    ghost var handled, served := HandleAll(w, events, Run(s, run));
    ghost var mid := StatusOf(w.known);
    JoinRuns(s, run, handled);
    run := run + handled;
    ghost var upToSwap := run;
    SwapIsEnabled(Run(s, run));
    ghost var registered := Register(w, Run(s, run));
    JoinRuns(s, run, registered);
    run := run + registered;
    parts := Parts(handled, served, registered, w.pool.contents, StatusOf(w.known), [], Room({}, {}, [], []));
    CallsAddUp(events, parts, m, newcomers, was, mid, StatusOf(w.known));
    w.PoolOf(Run(s, run));
    ghost var ending, room;
    outcome, ending, room := MakeRoom(w, c, first, second, Run(s, run));
    OneSwap(upToSwap, registered, ending);
    JoinRuns(s, run, ending);
    SameCalls(events, parts, ending, room, m, newcomers, was, StatusOf(w.known));
    parts := parts.(ending := ending, room := room);
    run := run + ending;
    if outcome == Retrying && forall r :: r in first.randoms || r in second.randoms ==> Exhaustive(r.draws) {
      w.CountsConnections(Run(s, run));
      w.ExhaustiveNumbersSuffice(first.randoms);
      w.ExhaustiveNumbersSuffice(second.randoms);
    }
  }

  lemma SameCalls(events: seq<Event>, parts: Parts, ending: seq<Action>, room: Room, m: map<Word, Connection?>,
      newcomers: seq<Connection>, was: map<Connection, Status>, now: map<Connection, Status>)
    requires CallsAre(events, parts, m, newcomers, was, now)
    ensures CallsAre(events, parts.(ending := ending, room := room), m, newcomers, was, now)
  {
    hide AllTreated, OthersStay, Welcomed, Admissions;
  }

  lemma SwapIsEnabled(s: State)
    requires s.phase == Handling && s.pending == []
    ensures Enabled(s, Swap)
  {
  }

  /** The acceptor hands over open connections. */
  ghost predicate Fresh(w: Worker, connections: seq<Connection>)
    reads w, w.pool, connections
  {
    forall conn :: conn in connections ==> !conn.close && conn !in w.pool.Repr
  }

  /** The acceptor hands connections over, one after the other. */
  method HandOverAll(w: Worker, connections: seq<Connection>, ghost s: State)
    requires w.Represents(s) && Inv(s) && Feasible(s, Arrivals(ConnectionIds(connections)))
    requires Fresh(w, connections)
    modifies w`incoming, w`known
    ensures w.Represents(Run(s, Arrivals(ConnectionIds(connections))))
    ensures w.known == old(w.known) + set conn | conn in connections
  {
    hide Worker.Represents, Inv, Enabled, Next, ConnectionIds;
    ghost var ids := ConnectionIds(connections);
    ghost var t := s;
    for i := 0 to |connections|
      invariant w.Represents(t) && Feasible(t, Arrivals(ids[i..]))
      invariant Run(t, Arrivals(ids[i..])) == Run(s, Arrivals(ids))
      invariant w.known == old(w.known) + set conn | conn in connections[..i]
    {
      FirstArrival(t, ids[i..]);
      assert ids[i..][1..] == ids[i + 1..];
      w.HandOver(connections[i], t);
      t := Next(t, HandOver(ids[i]));
    }
    assert connections[..|connections|] == connections;
  }

  lemma FirstArrival(s: State, ids: seq<Word>)
    requires ids != [] && Feasible(s, Arrivals(ids))
    ensures Enabled(s, HandOver(ids[0]))
    ensures
      var t := Next(s, HandOver(ids[0]));
      Feasible(t, Arrivals(ids[1..])) && Run(t, Arrivals(ids[1..])) == Run(s, Arrivals(ids))
  {
    hide Enabled, Next;
    assert Arrivals(ids)[1..] == Arrivals(ids[1..]);
  }

  /** Before and after a turn: the early hand-overs leave it possible, and it leaves the late ones possible. */
  lemma AroundTurn(s: State, early: seq<Word>, late: seq<Word>)
    requires Inv(s) && Feasible(s, Arrivals(early + late))
    ensures Feasible(s, Arrivals(early)) && Feasible(Run(s, Arrivals(early)), Arrivals(late))
    ensures Run(s, Arrivals(early)) == s.(incoming := s.incoming + early) && Inv(Run(s, Arrivals(early)))
  {
    hide Enabled, Next, Inv, Feasible, Run;
    ArrivalsConcat(early, late);
    RunOfSplit(s, Arrivals(early), Arrivals(late));
    ArrivalsEffect(s, early);
    RunKeepsInv(s, Arrivals(early));
  }

  lemma LateArrivals(s: State, run: seq<Action>, late: seq<Word>)
    requires Inv(s) && Feasible(s, run) && SwapsOnce(run) && Feasible(s, Arrivals(late))
    ensures Feasible(Run(s, run), Arrivals(late)) && Inv(Run(s, run))
    ensures Run(Run(s, run), Arrivals(late)) == Run(s, run).(incoming := Run(s, run).incoming + late)
  {
    hide Enabled, Next, Inv, Feasible, Run, HandedOver;
    NoneHandedOver(run);
    RunHandsOver(s, run);
    RunKeepsInv(s, run);
    assert HandedOver(s) + [] == HandedOver(s);
    ArrivalsAnyTime(s, Run(s, run), late);
    ArrivalsEffect(Run(s, run), late);
  }

  lemma MixesEndAlike(s: State, early: seq<Word>, run: seq<Action>, late: seq<Word>)
    requires Inv(s)
    ensures forall mix :: Feasible(s, mix) && Mixes(mix, early, run, late) ==>
              && Feasible(s, Arrivals(early)) && Feasible(Run(s, Arrivals(early)), run)
              && Feasible(Run(Run(s, Arrivals(early)), run), Arrivals(late))
              && Run(s, mix) == Run(Run(Run(s, Arrivals(early)), run), Arrivals(late))
  {
    hide Inv, Run, Feasible, Mixes;
    forall mix | Feasible(s, mix) && Mixes(mix, early, run, late)
      ensures
        && Feasible(s, Arrivals(early)) && Feasible(Run(s, Arrivals(early)), run)
        && Feasible(Run(Run(s, Arrivals(early)), run), Arrivals(late))
        && Run(s, mix) == Run(Run(Run(s, Arrivals(early)), run), Arrivals(late))
    {
      TurnIsAtomic(s, mix, early, run, late);
    }
  }

  /** A turn after the hand-over of `early` connections; others that are not known yet stay as they are. */
  method TurnAfter(w: Worker, early: seq<Connection>, events: seq<Event>, c: Settings, first: Sampling,
      second: Sampling, ghost late: seq<Connection>, ghost s: State, ghost t: State)
    returns (outcome: Outcome, ghost run: seq<Action>, ghost parts: Parts)
    requires Enabled(t, Wait(EventIds(events))) && Inv(s) && Inv(t) && |t.live| + |t.incoming| < INT_MAX
    requires c.poolSize <= |first.randoms| && c.poolSize <= |second.randoms| && 0 < |second.randoms|
    requires w.Represents(s) && Fresh(w, early) && Fresh(w, late)
    requires forall conn :: conn in late ==> conn !in w.known && conn !in early
    requires Feasible(s, Arrivals(ConnectionIds(early))) && t == Run(s, Arrivals(ConnectionIds(early)))
    modifies w`incoming, w`known, w.pool.Repr, w.epoll, w.known, early
    ensures Fresh(w, late) && Feasible(t, run) && SwapsOnce(run)
    ensures outcome != NullDereference ==> w.Represents(Run(t, run))
    ensures outcome == Finished ==> Run(t, run).phase == Polling
    ensures outcome == NullDereference ==>
              Run(t, run).phase == Evicting && Run(t, run).live == {} && c.MakesRoom(0)
                && c.maxRule == MAX_TCP_EVICTION_RANDOM
    ensures (forall r :: r in first.randoms || r in second.randoms ==> Exhaustive(r.draws)) ==> outcome != Retrying
    ensures run == Before(parts, events) + parts.ending
      && EndsAs(c, first, second, parts.pool, parts.status, parts.room, parts.ending, outcome)
  {
    hide Worker.Represents, Worker.Valid, Worker.OutOfNumbers, Inv, Run, Feasible, Next, Enabled, EventIds,
        ConnectionIds, Exhaustive, SwapsOnce, EndsAs, HitsAre, CallsAre, Pooled, StatusOf, Before;
    HandOverAll(w, early, s);
    assert forall conn :: conn in late ==> conn !in w.known && conn !in w.pool.Repr;
    outcome, run, parts := Turn(w, events, c, first, second, t);
    assert forall conn :: conn in late ==> !conn.close;
  }

  /** A turn in the middle of hand-overs: of `early` connections at any moments until it swaps the queues, of `late`
      ones at any moments after that. Whatever the moments, the worker ends up in the state that the transition system
      ends up in. */
  method TurnAmongHandOvers(w: Worker, early: seq<Connection>, late: seq<Connection>, events: seq<Event>, c: Settings,
      first: Sampling, second: Sampling, ghost s: State)
    returns (outcome: Outcome, ghost run: seq<Action>, ghost parts: Parts)
    requires Enabled(s, Wait(EventIds(events))) && Inv(s) && |s.live| + |s.incoming| + |early| < INT_MAX
    requires c.poolSize <= |first.randoms| && c.poolSize <= |second.randoms| && 0 < |second.randoms|
    requires w.Represents(s) && Fresh(w, early) && Fresh(w, late)
    requires forall conn :: conn in late ==> conn !in w.known && conn !in early
    requires Feasible(s, Arrivals(ConnectionIds(early) + ConnectionIds(late)))
    modifies w`incoming, w`known, w.pool.Repr, w.epoll, w.known, early
    ensures SwapsOnce(run)
    ensures forall mix | Feasible(s, mix) && Mixes(mix, ConnectionIds(early), run, ConnectionIds(late)) ::
              && (outcome != NullDereference ==> w.Represents(Run(s, mix)))
              && (outcome == Finished ==> Run(s, mix).phase == Polling)
              && (outcome == NullDereference ==> Run(s, mix).phase == Evicting && Run(s, mix).live == {})
    ensures (forall r :: r in first.randoms || r in second.randoms ==> Exhaustive(r.draws)) ==> outcome != Retrying
    ensures outcome == NullDereference ==> c.MakesRoom(0) && c.maxRule == MAX_TCP_EVICTION_RANDOM
    ensures run == Before(parts, events) + parts.ending
      && EndsAs(c, first, second, parts.pool, parts.status, parts.room, parts.ending, outcome)
  {
    hide Worker.Represents, Inv, Run, Feasible, Next, EventIds, ConnectionIds, Exhaustive, SwapsOnce, Mixes, EndsAs,
        HitsAre, CallsAre, Pooled, StatusOf, Fresh, Before;
    ghost var earlyIds, lateIds := ConnectionIds(early), ConnectionIds(late);
    AroundTurn(s, earlyIds, lateIds);
    ghost var t := Run(s, Arrivals(earlyIds));
    outcome, run, parts := TurnAfter(w, early, events, c, first, second, late, s, t);
    LateArrivals(t, run, lateIds);
    ghost var u := Run(t, run);
    MixesEndAlike(s, earlyIds, run, lateIds);
    if outcome != NullDereference {
      HandOverAll(w, late, u);
    }
  }
}
