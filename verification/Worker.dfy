/** A worker: its connection pool, its hand-over queue and its event loop, piece by piece. */
module Workers {
  import opened Bits
  import Chains
  import opened Evictions
  import opened FiniteMaps
  import opened HashTables
  import opened Lifecycle

  const MAX_TCP_EVICTION_NONE := 0
  const MAX_TCP_EVICTION_RANDOM := 1
  const MAX_TCP_EVICTION_INACTIVE := 2
  const INACTIVE_TCP_EVICTION_NONE := 0

  /** A call that a worker makes to a connection. `disconnected` says whether there was nothing to read. */
  datatype Callback = Connected | Readable(time: int, disconnected: bool) | Writable(time: int)

  /** What a worker can tell about a connection: the fields it looks at and the calls made so far. */
  datatype Status = Status(close: bool, lastActiveTime: int, calls: seq<Callback>)
  {
    function After(call: Callback): Status
    {
      match call
      case Connected => this.(calls := calls + [call])
      case Readable(time, disconnected) => Status(close || disconnected, time, calls + [call])
      case Writable(time) => Status(close, time, calls + [call])
    }
  }

  /** A connection as its worker sees it. The callbacks of the application do not close it on their own. */
  class Connection {
    const id: Word
    var close: bool
    var lastActiveTime: int
    /** The calls so far. */
    ghost var calls: seq<Callback>

    ghost function Now(): Status
      reads this
    {
      Status(close, lastActiveTime, calls)
    }

    constructor (id: Word, now: int)
      ensures this.id == id && Now() == Status(false, now, [])
    {
      this.id, close, lastActiveTime, calls := id, false, now, [];
    }

    method OnConnection()
      modifies this
      ensures Now() == old(Now()).After(Connected)
    {
      calls := calls + [Connected];
    }

    /** Closes the connection when there is nothing to read. */
    method OnReadableEvent(now: int) returns (ghost disconnected: bool)
      modifies this
      ensures Now() == old(Now()).After(Readable(now, disconnected))
    {
      lastActiveTime := now;
      var nothing: bool := *;
      if nothing {
        close := true;
      }
      disconnected := nothing;
      calls := calls + [Readable(now, disconnected)];
    }

    method OnWritableEvent(now: int)
      modifies this
      ensures Now() == old(Now()).After(Writable(now))
    {
      lastActiveTime := now;
      calls := calls + [Writable(now)];
    }
  }

  /** A reported event, and the time when each of its callbacks looks at the clock. */
  datatype Event = Event(id: Word, failed: bool, readable: bool, writable: bool, readTime: int, writeTime: int)
  {
    /** The calls that it leads to: the connection reads before it writes. */
    function Calls(disconnected: bool): seq<Callback>
    {
      (if readable then [Readable(readTime, disconnected)] else []) + if writable then [Writable(writeTime)] else []
    }
  }

  /** The effect of an event on its connection: `c` before and `d` after. */
  ghost predicate Served(event: Event, c: Status, d: Status)
  {
    && (exists disconnected :: d.calls == c.calls + event.Calls(disconnected)
          && (d.close <==> c.close || (event.readable && disconnected)))
    && d.lastActiveTime ==
         if event.writable then event.writeTime else if event.readable then event.readTime else c.lastActiveTime
  }

  /** The kernel's interest set, by connection id. Deleting what is not there has no effect. */
  class Epoll {
    var interest: set<Word>

    constructor ()
      ensures interest == {}
    {
      interest := {};
    }

    method Add(id: Word)
      modifies this
      ensures interest == old(interest) + {id}
    {
      interest := interest + {id};
    }

    method Del(id: Word)
      modifies this
      ensures interest == old(interest) - {id}
    {
      interest := interest - {id};
    }
  }

  /** The random numbers of one pick from the pool. */
  datatype Random = Random(draws: seq<nat>, pick: nat)

  /** `Retrying`: the numbers ran out before a draw hit a bucket that is not empty. */
  datatype Outcome = Finished | Retrying | NullDereference

  /** The pool as the sampling loop sees it at a given time. */
  ghost function Views(m: map<Word, Connection?>, now: int): (views: map<Word, Peer>)
    reads m.Values
    ensures views.Keys == m.Keys
  {
    map id | id in m :: if m[id] == null then Peer(0, false) else Peer(now - m[id].lastActiveTime, m[id].close)
  }

  /** The hits that a round of samples comes from. */
  ghost function HitsOf(randoms: seq<Random>, samples: seq<Sample>): seq<Hit<Word>>
    requires |samples| <= |randoms|
  {
    if samples == [] then []
    else
      var i := |samples| - 1;
      HitsOf(randoms, samples[..i]) + [Hit(randoms[i].draws, randoms[i].pick, samples[i].id)]
  }

  lemma OneMoreHit(before: seq<Hit<Word>>, randoms: seq<Random>, samples: seq<Sample>, more: seq<Sample>)
    requires |samples| < |randoms| && |more| == |samples| + 1 && more[..|samples|] == samples
    ensures
      var i := |samples|;
      before + HitsOf(randoms, samples) + [Hit(randoms[i].draws, randoms[i].pick, more[i].id)] ==
      before + HitsOf(randoms, more)
  {
  }

  /** What `eviction` takes from a pool by each rule. */
  ghost predicate EvictedBy(rule: int, pool: map<Word, Peer>, poolSize: int, timeout: int, victims: set<Word>,
      samples: seq<Sample>)
  {
    if rule == MAX_TCP_EVICTION_RANDOM then |victims| == 1 && victims <= pool.Keys && samples == []
    else if rule == MAX_TCP_EVICTION_INACTIVE then
      && Round(samples, pool) && |samples| == RoundLength(Min(|pool|, poolSize), |pool|)
      && victims == Victims(samples, Min(|pool|, poolSize), true, timeout)
    else victims == {} && samples == []
  }

  /** The hits that this comes from: that of the one victim, or those of the samples. */
  ghost function EvictionHits(rule: int, randoms: seq<Random>, victims: set<Word>, samples: seq<Sample>): seq<Hit<Word>>
    requires 0 < |randoms| && |samples| <= |randoms|
  {
    if rule == MAX_TCP_EVICTION_RANDOM && victims != {} then
      var id :| id in victims;
      [Hit(randoms[0].draws, randoms[0].pick, id)]
    else HitsOf(randoms, samples)
  }

  lemma HitOfOne(rule: int, randoms: seq<Random>, key: Word)
    requires rule == MAX_TCP_EVICTION_RANDOM && 0 < |randoms|
    ensures EvictionHits(rule, randoms, {key}, []) == [Hit(randoms[0].draws, randoms[0].pick, key)]
  {
  }

  lemma HitsWithoutVictim(rule: int, randoms: seq<Random>, victims: set<Word>, samples: seq<Sample>)
    requires (rule != MAX_TCP_EVICTION_RANDOM || victims == {}) && 0 < |randoms| && |samples| <= |randoms|
    ensures EvictionHits(rule, randoms, victims, samples) == HitsOf(randoms, samples)
  {
  }

  lemma NoHits(before: seq<Hit<Word>>, randoms: seq<Random>)
    ensures before + HitsOf(randoms, []) == before
  {
  }

  /** How many samples a round of up to `n` takes from a pool of the given size, if none of them is dropped. */
  function RoundLength(n: int, size: nat): nat
  {
    if n <= 0 || size == 0 then 0 else n
  }

  /** What the worker can tell about its connections. */
  ghost function StatusOf(known: set<Connection>): (now: map<Connection, Status>)
    reads known
    ensures now.Keys == known
  {
    map conn | conn in known :: conn.Now()
  }

  /** The pool as the sampling loop sees it, by what is known of the connections. */
  ghost function ViewsBy(m: map<Word, Connection?>, status: map<Connection, Status>, now: int): (views: map<Word, Peer>)
    ensures views.Keys == m.Keys
  {
    map id | id in m ::
      if m[id] == null || m[id] !in status then Peer(0, false)
      else Peer(now - status[m[id]].lastActiveTime, status[m[id]].close)
  }

  lemma ViewsAreBy(m: map<Word, Connection?>, live: set<Word>, known: set<Connection>, now: int)
    requires Pooled(m, live, known)
    ensures Views(m, now) == ViewsBy(m, StatusOf(known), now)
  {
    forall id | id in m ensures Views(m, now)[id] == ViewsBy(m, StatusOf(known), now)[id] {
      assert m[id] in known && StatusOf(known)[m[id]] == m[id].Now();
    }
  }

  lemma SmallerMap(m: map<Word, Connection?>, ids: set<Word>)
    ensures |m - ids| <= |m|
  {
    assert (m - ids).Keys <= m.Keys;
    Chains.CountSubset((m - ids).Keys, m.Keys);
    assert |m| == |m.Keys| && |m - ids| == |(m - ids).Keys|;
  }

  /** A further sample, and what it leaves of the pool. */
  lemma AddSample(samples: seq<Sample>, conn: Connection, m: map<Word, Connection?>, e: set<Word>, now: int)
    returns (more: seq<Sample>)
    requires Round(samples, Views(m, now)) && conn.id in m - ClosedIds(samples) && m[conn.id] == conn
    ensures more == samples + [Sample(conn.id, now - conn.lastActiveTime, conn.close)] && Round(more, Views(m, now))
    ensures m - ClosedIds(samples) - (if conn.close then {conn.id} else {}) == m - ClosedIds(more)
    ensures e - ClosedIds(samples) - (if conn.close then {conn.id} else {}) == e - ClosedIds(more)
    ensures Remembered(more) ==
              if now - conn.lastActiveTime > Remembered(samples).inactive then more[|samples|] else Remembered(samples)
  {
    hide Round, ClosedIds, Remembered, Views;
    MinusTwice(m, e, ClosedIds(samples), if conn.close then {conn.id} else {});
    ViewOf(m, now, conn);
    RoundGrows(samples, conn.id, Views(m, now));
    more := samples + [Sample(conn.id, now - conn.lastActiveTime, conn.close)];
  }

  lemma DropsOnceOrTwice(m: map<Word, Connection?>, e: set<Word>, id: Word, first: bool, second: bool)
    ensures
      var ids, more := if first || second then {id} else {}, if second then {id} else {};
      && (if first then m - {id} else m) - more == m - ids
      && (if first then e - {id} else e) - more == e - ids
  {
  }

  lemma MinusTwice(m: map<Word, Connection?>, e: set<Word>, a: set<Word>, b: set<Word>)
    ensures m - a - b == m - (a + b) && e - a - b == e - (a + b) && m - {} == m && e - {} == e
  {
  }

  function ConnectionIds(connections: seq<Connection>): (ids: seq<Word>)
    ensures |ids| == |connections| && forall i :: 0 <= i < |ids| ==> ids[i] == connections[i].id
  {
    if connections == [] then []
    else ConnectionIds(connections[..|connections| - 1]) + [connections[|connections| - 1].id]
  }

  predicate IsKeyed(m: map<Word, Connection?>, id: Word)
    requires id in m
  {
    m[id] != null && m[id].id == id
  }

  /** The pool has the keys `live`, and each maps to a connection with that id. */
  ghost predicate Pooled(m: map<Word, Connection?>, live: set<Word>, known: set<Connection>)
  {
    m.Keys == live && forall id {:trigger m[id]} :: id in m ==> m[id] != null && m[id].id == id && m[id] in known
  }

  ghost predicate ClosedOnesAre(known: set<Connection>, closed: set<Word>)
    reads known
  {
    forall conn :: conn in known && conn.close ==> conn.id in closed
  }

  lemma PoolFacts(m: map<Word, Connection?>, live: set<Word>, known: set<Connection>, id: Word)
    requires Pooled(m, live, known)
    ensures m.Keys == live && |m| == |live|
      && (id in live ==> id in m && m[id] != null && m[id].id == id && m[id] in known)
    ensures Pooled(m - {id}, live - {id}, known) && m.Values <= known
  {
    assert |m| == |m.Keys|;
    assert (m - {id}).Keys == live - {id};
  }

  lemma ViewOf(m: map<Word, Connection?>, now: int, conn: Connection)
    requires conn.id in m && m[conn.id] == conn
    ensures conn.id in Views(m, now) && Views(m, now)[conn.id] == Peer(now - conn.lastActiveTime, conn.close)
  {
  }

  lemma PooledMore(m: map<Word, Connection?>, live: set<Word>, known: set<Connection>, conn: Connection)
    requires Pooled(m, live, known)
    ensures Pooled(m, live, known + {conn})
  {
  }

  lemma PooledWith(m: map<Word, Connection?>, live: set<Word>, known: set<Connection>, conn: Connection)
    requires Pooled(m, live, known) && conn in known
    ensures Pooled(m[conn.id := conn], live + {conn.id}, known)
  {
  }

  lemma HandleEffect(s: State, failed: bool, closes: bool)
    requires Enabled(s, Handle(failed, closes))
    ensures
      var t := Next(s, Handle(failed, closes));
      var ids := if failed || closes then {s.pending[0]} else {};
      && t.live == s.live - ids && t.interest == s.interest - ids
      && t.closed == s.closed + (if closes then {s.pending[0]} else {})
      && t.incoming == s.incoming
  {
  }

  lemma PooledAfter(m: map<Word, Connection?>, live: set<Word>, known: set<Connection>, ids: set<Word>)
    requires Pooled(m, live, known)
    ensures Pooled(m - ids, live - ids, known)
  {
    assert (m - ids).Keys == live - ids;
  }

  lemma PooledRest(m: map<Word, Connection?>, known: set<Connection>, ids: set<Word>)
    requires Pooled(m, m.Keys, known)
    ensures Pooled(m - ids, (m - ids).Keys, known)
  {
  }

  /** No connection of the pool is closed. */
  lemma PoolIsOpen(s: State, m: map<Word, Connection?>, known: set<Connection>, now: int)
    requires Inv(s) && Pooled(m, s.live, known) && ClosedOnesAre(known, s.closed)
    ensures forall id :: id in Views(m, now) ==> !Views(m, now)[id].closed
  {
  }

  lemma NoIdIsFree(s: State)
    requires Inv(s)
    ensures NO_ID !in s.live
  {
    assert NO_ID in s.live ==> NO_ID in Ids(s.admitted) && NO_ID in HandedOver(s);
  }

  class Worker {
    const pool: FiniteMap<Word, Connection?>
    const epoll: Epoll
    var incoming: seq<Connection>
    /** Every connection that was ever handed over. */
    ghost var known: set<Connection>

    ghost predicate Valid()
      reads this, pool, pool.Repr
    {
      pool.Valid() && pool.table.initial == null && this !in pool.Repr && epoll !in pool.Repr && known !! pool.Repr
    }

    /** The fields are those of a state of the transition system. */
    ghost predicate Represents(s: State)
      reads this, pool, pool.Repr, epoll, known
    {
      && Valid() && Pooled(pool.contents, s.live, known) && epoll.interest == s.interest
      && ConnectionIds(incoming) == s.incoming && (forall conn :: conn in incoming ==> conn in known)
      && ClosedOnesAre(known, s.closed)
    }

    lemma SameView(s: State, t: State)
      requires Represents(s)
      requires t.live == s.live && t.interest == s.interest && t.incoming == s.incoming && t.closed == s.closed
      ensures Represents(t)
    {
      hide FiniteMap.Valid, ConnectionIds, ClosedOnesAre, Pooled;
    }

    constructor ()
      ensures fresh(pool.Repr) && fresh(epoll) && known == {}
      ensures Represents(START)
    {
      hide FiniteMap.Valid;
      pool := new FiniteMap((id: Word) => id, null);
      epoll := new Epoll();
      incoming, known := [], {};
      new;
    }

    /** The pool of a state. */
    lemma PoolOf(s: State)
      requires Represents(s)
      ensures Pooled(pool.contents, s.live, known)
    {
    }

    /** Connections that wait to be admitted are not in the pool. */
    lemma NewcomersAreNotPooled(s: State)
      requires Represents(s) && Inv(s)
      ensures forall conn :: conn in incoming ==> conn in known && conn.id !in pool.contents
    {
      hide FiniteMap.Valid, Distinct, Watched, ClosedOnesAre;
      PlacesAreApart(s);
      forall conn | conn in incoming ensures conn in known && conn.id !in pool.contents {
        var i :| 0 <= i < |incoming| && incoming[i] == conn;
        assert s.incoming[i] == conn.id && conn.id in Ids(s.incoming);
      }
    }

    lemma KnownAreApart(s: State)
      requires Represents(s)
      ensures known !! pool.Repr && this !in pool.Repr
    {
    }

    lemma CountsConnections(s: State)
      requires Represents(s)
      ensures Valid() && |pool.contents| == |s.live|
    {
      hide FiniteMap.Valid;
      PoolFacts(pool.contents, s.live, known, NO_ID);
    }

    /** `_connectionPool.size()`. */
    method ConnectionCount(ghost s: State) returns (n: int)
      requires Represents(s)
      ensures n == |s.live|
    {
      hide FiniteMap.Valid;
      PoolFacts(pool.contents, s.live, known, NO_ID);
      n := pool.Size();
    }

    /** `registerNewConnection` of the acceptor's thread. */
    method HandOver(conn: Connection, ghost s: State)
      requires Represents(s) && Enabled(s, Action.HandOver(conn.id)) && !conn.close && conn !in pool.Repr
      modifies this`incoming, this`known
      ensures Represents(Next(s, Action.HandOver(conn.id))) && known == old(known) + {conn}
    {
      hide FiniteMap.Valid, Pooled;
      PooledMore(pool.contents, s.live, known, conn);
      assert (incoming + [conn])[..|incoming|] == incoming;
      incoming := incoming + [conn];
      known := known + {conn};
      assert pool.Valid();
    }

    method RemoveConnection(conn: Connection)
      requires Valid() && |pool.contents| < INT_MAX
      modifies pool.Repr, epoll
      ensures Valid() && fresh(pool.Repr - old(pool.Repr)) && pool.hits == old(pool.hits)
      ensures pool.contents == old(pool.contents) - {conn.id}
      ensures epoll.interest == old(epoll.interest) - {conn.id}
    {
      hide FiniteMap.Valid;
      epoll.Del(conn.id);
      pool.Remove(conn.id);
    }

    /** `_connectionPool[id]`, which would insert an absent id. */
    method Lookup(id: Word) returns (conn: Connection?)
      requires Valid() && |pool.contents| < INT_MAX
      modifies pool.Repr
      ensures Valid() && fresh(pool.Repr - old(pool.Repr)) && pool.hits == old(pool.hits)
      ensures pool.contents == if id in old(pool.contents) then old(pool.contents) else old(pool.contents)[id := null]
      ensures conn == pool.contents[id]
    {
      hide FiniteMap.Valid;
      conn := pool.Read(id);
    }

    /** What is done about `EPOLLERR` and `EPOLLHUP`. */
    method DropFailed(conn: Connection)
      requires Valid() && |pool.contents| < INT_MAX
      modifies pool.Repr, epoll
      ensures Valid() && fresh(pool.Repr - old(pool.Repr)) && pool.hits == old(pool.hits)
      ensures pool.contents == old(pool.contents) - {conn.id}
      ensures epoll.interest == old(epoll.interest) - {conn.id}
    {
      hide FiniteMap.Valid;
      epoll.Del(conn.id);
      RemoveConnection(conn);
    }

    /** The callbacks of an event. */
    method Serve(conn: Connection, event: Event, ghost closed: set<Word>) returns (closes: bool)
      requires Valid() && conn in known && ClosedOnesAre(known, closed)
      modifies conn
      ensures Valid() && ClosedOnesAre(known, closed + if closes then {conn.id} else {})
      ensures closes == conn.close && Served(event, old(conn.Now()), conn.Now())
    {
      hide FiniteMap.Valid;
      ghost var disconnected := false;
      if event.readable {
        disconnected := conn.OnReadableEvent(event.readTime);
      }
      if event.writable {
        conn.OnWritableEvent(event.writeTime);
      }
      closes := conn.close;
      assert conn.calls == old(conn.calls) + event.Calls(disconnected);
    }

    /** The callbacks of an event, and the removal of a connection that they close. */
    method ServeAndClose(conn: Connection, event: Event, ghost closed: set<Word>) returns (closes: bool)
      requires Valid() && |pool.contents| < INT_MAX && conn in known && ClosedOnesAre(known, closed)
      modifies pool.Repr, epoll, conn
      ensures Valid() && fresh(pool.Repr - old(pool.Repr)) && pool.hits == old(pool.hits)
      ensures ClosedOnesAre(known, closed + if closes then {conn.id} else {})
      ensures closes == conn.close && Served(event, old(conn.Now()), conn.Now())
      ensures pool.contents == old(pool.contents) - if closes then {conn.id} else {}
      ensures epoll.interest == old(epoll.interest) - if closes then {conn.id} else {}
    {
      hide FiniteMap.Valid, ClosedOnesAre, Served, Connection.Now;
      closes := Serve(conn, event, closed);
      if closes {
        RemoveConnection(conn);
      } else {
        assert pool.contents - {} == pool.contents && epoll.interest - {} == epoll.interest;
      }
    }

    /** What one event does to the pool, the interest set and the connection. */
    method Process(event: Event, ghost live: set<Word>, ghost closed: set<Word>)
      returns (closes: bool, ghost conn: Connection)
      requires Valid() && Pooled(pool.contents, live, known) && ClosedOnesAre(known, closed)
      requires event.id in live && |live| < INT_MAX
      modifies pool.Repr, epoll, known
      ensures Valid() && fresh(pool.Repr - old(pool.Repr)) && pool.hits == old(pool.hits) && known == old(known)
      ensures ClosedOnesAre(known, closed + if closes then {event.id} else {})
      ensures event.id in old(pool.contents) && conn == old(pool.contents)[event.id] && conn in known
      ensures closes == conn.close && Served(event, old(conn.Now()), conn.Now())
      ensures forall other :: other in known && other != conn ==> unchanged(other)
      ensures Dropped(old(pool.contents), old(epoll.interest), if event.failed || closes then {event.id} else {})
    {
      hide FiniteMap.Valid, Pooled, ClosedOnesAre, Served;
      ghost var m, e := pool.contents, epoll.interest;
      PoolFacts(m, live, known, event.id);
      SmallerMap(m, {event.id});
      var found := Lookup(event.id);
      conn := found;
      if event.failed {
        DropFailed(found);
      }
      assert fresh(pool.Repr - old(pool.Repr));
      closes := ServeAndClose(found, event, closed);
      DropsOnceOrTwice(m, e, event.id, event.failed, closes);
    }

    /** One event of `workFunction`: the connection is looked up, and dropped after an error or when it closes. */
    method HandleEvent(event: Event, ghost s: State) returns (closes: bool, ghost conn: Connection)
      requires Enabled(s, Handle(event.failed, false)) && event.id == s.pending[0] && Inv(s)
      requires Represents(s)
      requires |s.live| < INT_MAX
      modifies pool.Repr, epoll, known
      ensures Represents(Next(s, Handle(event.failed, closes))) && fresh(pool.Repr - old(pool.Repr))
        && known == old(known) && incoming == old(incoming) && pool.hits == old(pool.hits)
      ensures event.id in old(pool.contents) && conn == old(pool.contents)[event.id] && conn in known
        && conn.id == event.id
      ensures closes == conn.close && Served(event, old(conn.Now()), conn.Now())
      ensures forall other :: other in known && other != conn ==> unchanged(other)
      ensures pool.contents == old(pool.contents) - if event.failed || closes then {event.id} else {}
    {
      hide FiniteMap.Valid, OnePlace, Watched, Pooled, ClosedOnesAre, Next, ConnectionIds, Served;
      EventsAreLive(s);
      ghost var m := pool.contents;
      PoolFacts(m, s.live, known, event.id);
      closes, conn := Process(event, s.live, s.closed);
      HandleEffect(s, event.failed, closes);
      PooledAfter(m, s.live, known, if event.failed || closes then {event.id} else {});
    }

    /** `_incomingConnection.swap(temp)`, under the lock. */
    method DrainIncoming(ghost s: State) returns (temp: seq<Connection>)
      requires Represents(s) && Enabled(s, Swap)
      modifies this`incoming
      ensures temp == old(incoming) && ConnectionIds(temp) == Next(s, Swap).drained
      ensures Represents(Next(s, Swap)) && forall conn :: conn in temp ==> conn in known
    {
      hide FiniteMap.Valid;
      temp := incoming;
      incoming := [];
      assert ConnectionIds(incoming) == [];
    }

    /** One turn of the loop that empties the drained queue. */
    method AdmitOne(conn: Connection, ghost s: State)
      requires Enabled(s, Admit) && s.drained[0] == conn.id
      requires Represents(s)
      requires conn in known && |s.live| < INT_MAX
      modifies pool.Repr, epoll, conn
      ensures Represents(Next(s, Admit)) && fresh(pool.Repr - old(pool.Repr)) && known == old(known)
      ensures conn.Now() == old(conn.Now()).After(Connected) && pool.contents == old(pool.contents)[conn.id := conn]
        && pool.hits == old(pool.hits)
    {
      hide FiniteMap.Valid, Pooled, ConnectionIds;
      PoolFacts(pool.contents, s.live, known, conn.id);
      PooledWith(pool.contents, s.live, known, conn);
      conn.OnConnection();
      epoll.Add(conn.id);
      pool.Write(conn.id, conn);
    }

    /** The random numbers of some pick do not hit anything, though the pool is not empty. */
    ghost predicate OutOfNumbers(randoms: seq<Random>)
      requires Valid()
      reads this, pool, pool.Repr
    {
      pool.contents != map[] && exists i :: 0 <= i < |randoms| && pool.Misses(randoms[i].draws)
    }

    /** This cannot happen when the numbers go through the range of `random()`. */
    lemma ExhaustiveNumbersSuffice(randoms: seq<Random>)
      requires Valid() && |pool.contents| < INT_MAX && forall r :: r in randoms ==> Exhaustive(r.draws)
      ensures !OutOfNumbers(randoms)
    {
      hide FiniteMap.Valid, FiniteMap.Misses, Exhaustive;
      if OutOfNumbers(randoms) {
        var i :| 0 <= i < |randoms| && pool.Misses(randoms[i].draws);
        assert randoms[i] in randoms;
        pool.ExhaustiveDrawsHit(randoms[i].draws);
      }
    }

    /** One sample of `evictRandomN`; null exactly when no random number hits. A closed connection is removed. */
    method SampleOne(random: Random) returns (conn: Connection?)
      requires Valid() && |pool.contents| < INT_MAX && Pooled(pool.contents, pool.contents.Keys, known)
      requires pool.contents != map[]
      modifies pool.Repr, epoll
      ensures Valid() && fresh(pool.Repr - old(pool.Repr))
      ensures conn == null ==>
                && pool.contents == old(pool.contents) && epoll.interest == old(epoll.interest)
                && pool.Misses(random.draws)
      ensures pool.hits ==
              old(pool.hits) + if conn == null then [] else [Hit(random.draws, random.pick, conn.id)]
      ensures conn != null ==>
                && conn.id in old(pool.contents) && old(pool.contents)[conn.id] == conn
                && pool.contents == old(pool.contents) - (if conn.close then {conn.id} else {})
                && epoll.interest == old(epoll.interest) - (if conn.close then {conn.id} else {})
    {
      hide FiniteMap.Valid, FiniteMap.Misses, FiniteMap.Chosen;
      var picked, value;
      ghost var key;
      picked, value, key := pool.Pick(random.draws, random.pick);
      if !picked {
        return null;
      }
      conn := value;
      if conn.close {
        RemoveConnection(conn);
      }
    }

    /** Work on the pool does not touch connections. */
    lemma Untouched(m: map<Word, Connection?>)
      requires Valid() && Pooled(m, m.Keys, known)
      ensures m.Values !! pool.Repr
    {
      hide FiniteMap.Valid;
      PoolFacts(m, m.Keys, known, NO_ID);
    }

    /** One turn of the sampling loop on a pool that was `m` when the loop began and that it saw as `views`. */
    method TakeSample(random: Random, now: int, ghost samples: seq<Sample>, ghost m: map<Word, Connection?>,
        ghost e: set<Word>, ghost views: map<Word, Peer>)
      returns (conn: Connection?, inactiveTime: int, ghost more: seq<Sample>)
      requires Valid() && |m| < INT_MAX && Pooled(m, m.Keys, known) && views == Views(m, now)
      requires Round(samples, views) && Dropped(m, e, ClosedIds(samples)) && pool.contents != map[]
      modifies pool.Repr, epoll
      ensures Valid() && fresh(pool.Repr - old(pool.Repr)) && views == Views(m, now)
      ensures Round(more, views) && Dropped(m, e, ClosedIds(more))
      ensures conn == null ==> more == samples && pool.contents != map[] && pool.Misses(random.draws)
      ensures pool.hits ==
              old(pool.hits) + if conn == null then [] else [Hit(random.draws, random.pick, conn.id)]
      ensures conn != null ==>
                && more == samples + [Sample(conn.id, inactiveTime, conn.close)]
                && Remembered(more) ==
                   if inactiveTime > Remembered(samples).inactive then more[|samples|] else Remembered(samples)
    {
      hide Worker.Valid, FiniteMap.Valid, FiniteMap.Misses, ClosedIds, Remembered, Round, Views, Pooled;
      SmallerMap(m, ClosedIds(samples));
      PooledRest(m, known, ClosedIds(samples));
      Untouched(m);
      conn := SampleOne(random);
      if conn == null {
        return null, 0, samples;
      }
      inactiveTime := now - conn.lastActiveTime;
      more := AddSample(samples, conn, m, e, now);
    }

    /** The sampling loop of `evictRandomN`; `complete` unless it runs into an empty pool or out of random numbers. */
    method SampleMany(n: int, now: int, randoms: seq<Random>)
      returns (outcome: Outcome, complete: bool, mostInactiveId: Word, mostInactiveTime: int,
          ghost samples: seq<Sample>)
      requires Valid() && |pool.contents| < INT_MAX && Pooled(pool.contents, pool.contents.Keys, known)
      requires 0 < n <= |randoms|
      modifies pool.Repr, epoll
      ensures Valid() && fresh(pool.Repr - old(pool.Repr))
      ensures Round(samples, old(Views(pool.contents, now)))
        && Dropped(old(pool.contents), old(epoll.interest), ClosedIds(samples))
      ensures mostInactiveId == Remembered(samples).id && mostInactiveTime == Remembered(samples).inactive
      ensures outcome == Finished || (outcome == Retrying && |samples| < n && OutOfNumbers(randoms))
      ensures complete <==> |samples| == n
      ensures |samples| <= n && (outcome == Finished && !complete ==> pool.contents == map[])
      ensures pool.hits == old(pool.hits) + HitsOf(randoms, samples)
    {
      hide FiniteMap.Valid, FiniteMap.Misses, ClosedIds, Remembered, Round, Pooled, Dropped, Views, HitsOf;
      samples, outcome, complete := [], Finished, true;
      mostInactiveId, mostInactiveTime := NO_ID, 0;
      ghost var m, e, views := pool.contents, epoll.interest, Views(pool.contents, now);
      EmptyRound(views);
      NothingDropped(ClosedIds([]));
      ghost var before := pool.hits;
      NoHits(before, randoms);
      for i := 0 to n
        invariant Valid() && fresh(pool.Repr - old(pool.Repr)) && views == Views(m, now)
        invariant |samples| == i && Round(samples, views) && Dropped(m, e, ClosedIds(samples))
        invariant mostInactiveId == Remembered(samples).id && mostInactiveTime == Remembered(samples).inactive
        invariant pool.hits == before + HitsOf(randoms, samples)
      {
        var size := pool.Size();
        if size == 0 {
          complete := false;
          return;
        }
        var conn, inactiveTime;
        ghost var more;
        conn, inactiveTime, more := TakeSample(randoms[i], now, samples, m, e, views);
        if conn != null {
          assert more[..i] == samples;
          OneMoreHit(before, randoms, samples, more);
        }
        samples := more;
        if conn == null {
          outcome, complete := Retrying, false;
          return;
        }
        if inactiveTime > mostInactiveTime {
          mostInactiveTime, mostInactiveId := inactiveTime, conn.id;
        }
      }
    }

    lemma NothingDropped(ids: set<Word>)
      requires ids == {}
      ensures Dropped(pool.contents, epoll.interest, ids)
    {
      assert pool.contents - {} == pool.contents;
    }

    /** Samples `n` connections and removes the most inactive one if that is forced or if its time is up. It can fail
        only on a pool that meets `CanFail`, and does so when the round drawn from that pool is a failing one. */
    method EvictRandomN(n: int, force: bool, now: int, timeout: int, randoms: seq<Random>)
      returns (outcome: Outcome, ghost samples: seq<Sample>)
      requires Valid() && |pool.contents| < INT_MAX && Pooled(pool.contents, pool.contents.Keys, known)
      requires NO_ID !in pool.contents && n <= |randoms|
      modifies pool.Repr, epoll
      ensures Valid() && fresh(pool.Repr - old(pool.Repr))
      ensures Round(samples, old(Views(pool.contents, now))) && (|samples| <= n || samples == [])
      ensures outcome == Retrying ==>
                && Dropped(old(pool.contents), old(epoll.interest), ClosedIds(samples))
                && |samples| < n && OutOfNumbers(randoms)
      ensures outcome == Finished ==>
                && Dropped(old(pool.contents), old(epoll.interest),
                    ClosedIds(samples) + Victims(samples, n, force, timeout))
                && (|samples| < n ==> pool.contents == map[])
      ensures outcome == NullDereference <==> outcome != Retrying && Fails(samples, n, force, timeout)
      ensures outcome == NullDereference ==> CanFail(old(Views(pool.contents, now)), n, force, timeout)
      ensures |samples| <= |randoms| && pool.hits == old(pool.hits) + HitsOf(randoms, samples)
    {
      hide FiniteMap.Valid, ClosedIds, Remembered, Round, Pooled, Dropped, Views, CanFail, HitsOf;
      samples, outcome := [], Finished;
      NoHits(pool.hits, randoms);
      ghost var m, e, views := pool.contents, epoll.interest, Views(pool.contents, now);
      EmptyRound(views);
      PoolFacts(m, m.Keys, known, NO_ID);
      if n <= 0 {
        NothingDropped(ClosedIds([]) + Victims(samples, n, force, timeout));
        return;
      }
      var complete, mostInactiveId, mostInactiveTime;
      outcome, complete, mostInactiveId, mostInactiveTime, samples := SampleMany(n, now, randoms);
      if outcome == Finished {
        RoundIsHonest(samples, views);
        PoolFacts(m, m.Keys, known, mostInactiveId);
        var evict := complete && mostInactiveId != NO_ID && (force || mostInactiveTime > timeout);
        outcome := Conclude(evict, mostInactiveId, m, e, ClosedIds(samples));
        if outcome == NullDereference {
          FailureNeedsSuchAPool(samples, views, n, force, timeout);
        }
      }
    }

    /** The end of `evictRandomN`: `removeConnection(_connectionPool[id])`, or nothing. */
    method Conclude(evict: bool, id: Word, ghost m: map<Word, Connection?>, ghost e: set<Word>, ghost ids: set<Word>)
      returns (outcome: Outcome)
      requires Valid() && |m| < INT_MAX && Dropped(m, e, ids) && (evict ==> id in m && IsKeyed(m, id))
      modifies pool.Repr, epoll
      ensures Valid() && fresh(pool.Repr - old(pool.Repr))
      ensures outcome == if evict && id in ids then NullDereference else Finished
      ensures outcome == Finished ==> Dropped(m, e, ids + if evict then {id} else {})
      ensures !evict ==> pool.contents == old(pool.contents)
      ensures pool.hits == old(pool.hits)
    {
      hide FiniteMap.Valid;
      outcome := Finished;
      if evict {
        SmallerMap(m, ids);
        MinusTwice(m, e, ids, {id});
        var conn := Lookup(id);
        if conn == null {
          outcome := NullDereference;
        } else {
          RemoveConnection(conn);
        }
      } else {
        assert ids + {} == ids;
      }
    }

    /** The pool holds a single connection, and it is closed: a forced round of one sample fails with any random numbers
        that hit, unless no time has passed since the connection was active. */
    method EvictSingleClosed(id: Word, now: int, timeout: int, random: Random) returns (outcome: Outcome)
      requires Valid() && Pooled(pool.contents, {id}, known) && id != NO_ID
      requires id in pool.contents && pool.contents[id] != null && pool.contents[id].close
      modifies pool.Repr, epoll
      ensures outcome == Retrying ==> Valid() && OutOfNumbers([random])
      ensures Exhaustive(random.draws) ==> outcome != Retrying
      ensures outcome != Retrying ==>
                (outcome == NullDereference <==> now > old(pool.contents[id].lastActiveTime))
    {
      hide FiniteMap.Valid, FiniteMap.Misses, CanFail, Exhaustive, Round, ClosedIds, Remembered, Pooled;
      ghost var m, views := pool.contents, Views(pool.contents, now);
      PoolFacts(m, {id}, known, id);
      PoolFacts(m, m.Keys, known, id);
      ghost var samples;
      outcome, samples := EvictRandomN(1, true, now, timeout, [random]);
      if |samples| == 1 {
        OnlyConnectionFailsIff(samples, views, id, timeout);
      } else {
        EmptyRound(views);
        assert samples == [] && Victims(samples, 1, true, timeout) == {} && m - {} == m - ({} + {}) == m;
        assert pool.contents == m && |m| == 1;
        if Exhaustive(random.draws) {
          ExhaustiveNumbersSuffice([random]);
        }
      }
    }

    /** The pool and the interest set have lost `ids` and nothing else. */
    ghost predicate Dropped(m: map<Word, Connection?>, interest: set<Word>, ids: set<Word>)
      reads this, pool, epoll
    {
      pool.contents == m - ids && epoll.interest == interest - ids
    }

    /** What is left after the removal of `ids` represents the state without them. */
    lemma StillRepresents(s: State, m: map<Word, Connection?>, ids: set<Word>, t: State)
      requires Valid() && Pooled(m, s.live, known) && Dropped(m, s.interest, ids) && ClosedOnesAre(known, s.closed)
      requires ConnectionIds(incoming) == s.incoming && forall conn :: conn in incoming ==> conn in known
      requires t.live == s.live - ids && t.interest == s.interest - ids && t.incoming == s.incoming
        && t.closed == s.closed
      ensures Represents(t)
    {
      hide FiniteMap.Valid, ConnectionIds, ClosedOnesAre, Pooled;
      PooledAfter(m, s.live, known, ids);
    }

    /** `evictRandomN` on a pool without closed connections does not fail. */
    method EvictOpen(n: int, force: bool, timeout: int, now: int, randoms: seq<Random>, ghost s: State)
      returns (outcome: Outcome, ghost samples: seq<Sample>)
      requires Represents(s) && Inv(s) && |s.live| < INT_MAX && n <= |randoms|
      modifies pool.Repr, epoll
      ensures Valid() && fresh(pool.Repr - old(pool.Repr)) && ClosedOnesAre(known, s.closed)
      ensures outcome != NullDereference && (outcome == Retrying ==> OutOfNumbers(randoms))
      ensures Round(samples, old(Views(pool.contents, now))) && Victims(samples, n, force, timeout) <= s.live
      ensures StatusOf(known) == old(StatusOf(known))
      ensures Dropped(old(pool.contents), s.interest,
          if outcome == Finished then Victims(samples, n, force, timeout) else {})
      ensures |samples| <= |randoms| && pool.hits == old(pool.hits) + HitsOf(randoms, samples)
      ensures outcome == Finished ==> |samples| == RoundLength(n, |s.live|)
    {
      hide FiniteMap.Valid, ClosedIds, Remembered, Round, Pooled, ClosedOnesAre, ConnectionIds, Dropped, Views, CanFail,
          OnePlace, Watched, HitsOf, StatusOf;
      ghost var m, views := pool.contents, Views(pool.contents, now);
      NoIdIsFree(s);
      PoolFacts(m, s.live, known, NO_ID);
      PoolIsOpen(s, m, known, now);
      OpenPoolCannotFail(views, n, force, timeout);
      outcome, samples := EvictRandomN(n, force, now, timeout, randoms);
      RoundIsHonest(samples, views);
      assert {} + Victims(samples, n, force, timeout) == Victims(samples, n, force, timeout);
      if outcome == Finished {
        if |samples| < n {
          AllAreLeft(m, s.interest, Victims(samples, n, force, timeout));
        }
        if m == map[] {
          NothingToDraw(samples, views);
        }
      }
    }

    lemma AllAreLeft(m: map<Word, Connection?>, interest: set<Word>, ids: set<Word>)
      requires Dropped(m, interest, ids) && ids == {} && pool.contents == map[]
      ensures m == map[]
    {
    }

    /** `manageInactiveConnection`: at most one connection goes, the most inactive of the samples, and only after the
        timeout. */
    method ManageInactive(rule: int, poolSize: int, timeout: int, now: int, randoms: seq<Random>, ghost s: State)
      returns (outcome: Outcome, ghost samples: seq<Sample>)
      requires Enabled(s, Manage({})) && Inv(s) && |s.live| < INT_MAX && poolSize <= |randoms|
      requires Represents(s)
      modifies pool.Repr, epoll
      ensures Valid() && fresh(pool.Repr - old(pool.Repr)) && known == old(known)
      ensures StatusOf(known) == old(StatusOf(known))
      ensures outcome != NullDereference && (outcome == Retrying ==> Represents(s) && OutOfNumbers(randoms))
      ensures Round(samples, old(Views(pool.contents, now)))
      ensures Enabled(s, Manage(Victims(samples, poolSize, false, timeout)))
      ensures rule == INACTIVE_TCP_EVICTION_NONE ==> outcome == Finished && samples == []
      ensures outcome == Finished && rule != INACTIVE_TCP_EVICTION_NONE ==> |samples| == RoundLength(poolSize, |s.live|)
      ensures |samples| <= |randoms| && pool.hits == old(pool.hits) + HitsOf(randoms, samples)
      ensures outcome == Finished ==> Represents(Next(s, Manage(Victims(samples, poolSize, false, timeout))))
      ensures outcome == Finished ==> pool.contents == old(pool.contents) - Victims(samples, poolSize, false, timeout)
    {
      hide FiniteMap.Valid, Round, Pooled, ClosedOnesAre, ConnectionIds, Views, OnePlace, Watched, HitsOf, StatusOf;
      NoHits(pool.hits, randoms);
      ghost var m := pool.contents;
      samples, outcome := [], Finished;
      NothingDropped({});
      EmptyRound(Views(m, now));
      if rule != INACTIVE_TCP_EVICTION_NONE {
        outcome, samples := EvictOpen(poolSize, false, timeout, now, randoms, s);
      }
      ghost var victims := Victims(samples, poolSize, false, timeout);
      if outcome == Finished {
        StillRepresents(s, m, victims, Next(s, Manage(victims)));
      } else {
        StillRepresents(s, m, {}, s);
      }
    }

    /** `eviction`. It fails exactly if a random connection is to be taken from an empty pool. */
    method Eviction(rule: int, poolSize: int, timeout: int, now: int, randoms: seq<Random>, ghost s: State)
      returns (outcome: Outcome, ghost victims: set<Word>, ghost samples: seq<Sample>)
      requires Enabled(s, Evict({})) && Inv(s) && |s.live| < INT_MAX && 0 < |randoms| && poolSize <= |randoms|
      requires Represents(s)
      modifies pool.Repr, epoll
      ensures Valid() && fresh(pool.Repr - old(pool.Repr)) && known == old(known)
      ensures StatusOf(known) == old(StatusOf(known))
      ensures outcome == NullDereference <==> rule == MAX_TCP_EVICTION_RANDOM && s.live == {}
      ensures outcome == Retrying ==> Represents(s) && OutOfNumbers(randoms)
      ensures outcome == Finished ==> Enabled(s, Evict(victims)) && Represents(Next(s, Evict(victims)))
      ensures |samples| <= |randoms|
      ensures outcome == Finished ==>
                && EvictedBy(rule, old(Views(pool.contents, now)), poolSize, timeout, victims, samples)
                && pool.hits == old(pool.hits) + EvictionHits(rule, randoms, victims, samples)
    {
      hide FiniteMap.Valid, Round, Pooled, ClosedOnesAre, ConnectionIds, Dropped, Views, OnePlace, Watched, HitsOf,
          EvictionHits, StatusOf, EvictedBy;
      ghost var m := pool.contents;
      PoolFacts(m, s.live, known, NO_ID);
      outcome, victims, samples := EvictByRule(rule, poolSize, timeout, now, randoms, s);
      if outcome != NullDereference {
        StillRepresents(s, m, victims, if outcome == Finished then Next(s, Evict(victims)) else s);
      }
    }

    /** The choice of the rule. */
    method EvictByRule(rule: int, poolSize: int, timeout: int, now: int, randoms: seq<Random>, ghost s: State)
      returns (outcome: Outcome, ghost victims: set<Word>, ghost samples: seq<Sample>)
      requires Represents(s) && Inv(s) && |s.live| < INT_MAX && 0 < |randoms| && poolSize <= |randoms|
      modifies pool.Repr, epoll
      ensures Valid() && fresh(pool.Repr - old(pool.Repr)) && known == old(known) && incoming == old(incoming)
      ensures StatusOf(known) == old(StatusOf(known)) && ClosedOnesAre(known, s.closed)
      ensures Dropped(old(pool.contents), s.interest, victims) && victims <= s.live && |victims| <= 1
      ensures outcome == NullDereference <==> rule == MAX_TCP_EVICTION_RANDOM && s.live == {}
      ensures outcome == Retrying ==> victims == {} && OutOfNumbers(randoms)
      ensures |samples| <= |randoms|
      ensures outcome == Finished ==>
                && EvictedBy(rule, old(Views(pool.contents, now)), poolSize, timeout, victims, samples)
                && pool.hits == old(pool.hits) + EvictionHits(rule, randoms, victims, samples)
    {
      hide FiniteMap.Valid, Round, Pooled, ClosedOnesAre, ConnectionIds, Dropped, Views, OnePlace, Watched, HitsOf,
          EvictionHits, StatusOf;
      ghost var m := pool.contents;
      samples, victims, outcome := [], {}, Finished;
      PoolFacts(m, s.live, known, NO_ID);
      NothingDropped({});
      EmptyRound(Views(m, now));
      NoHits(pool.hits, randoms);
      HitsWithoutVictim(rule, randoms, {}, []);
      if rule == MAX_TCP_EVICTION_RANDOM {
        var size := pool.Size();
        if size == 0 {
          outcome := NullDereference;
          return;
        }
        ghost var victim;
        outcome, victim := EvictOne(randoms[0], s.live);
        if outcome == Finished {
          victims := {victim};
          HitOfOne(rule, randoms, victim);
        }
      } else if rule == MAX_TCP_EVICTION_INACTIVE {
        var size := pool.Size();
        var n := Min(size, poolSize);
        outcome, samples := EvictOpen(n, true, timeout, now, randoms, s);
        victims := if outcome == Finished then Victims(samples, n, true, timeout) else {};
        HitsWithoutVictim(rule, randoms, victims, samples);
      }
    }

    /** `removeConnection(_connectionPool.getRandomValue())` on a pool that is not empty. */
    method EvictOne(random: Random, ghost live: set<Word>) returns (outcome: Outcome, ghost victim: Word)
      requires Valid() && Pooled(pool.contents, live, known) && 0 < |live| < INT_MAX
      modifies pool.Repr, epoll
      ensures Valid() && fresh(pool.Repr - old(pool.Repr)) && (outcome == Finished || outcome == Retrying)
      ensures outcome == Retrying ==> pool.contents != map[] && pool.Misses(random.draws)
      ensures Dropped(old(pool.contents), old(epoll.interest), if outcome == Finished then {victim} else {})
      ensures outcome == Finished ==>
                victim in live && pool.hits == old(pool.hits) + [Hit(random.draws, random.pick, victim)]
    {
      hide FiniteMap.Valid, FiniteMap.Misses, FiniteMap.Chosen, Pooled;
      ghost var m := pool.contents;
      PoolFacts(m, live, known, NO_ID);
      NothingDropped({});
      var picked, value;
      picked, value, victim := pool.Pick(random.draws, random.pick);
      if !picked {
        outcome := Retrying;
      } else {
        PoolFacts(m, live, known, victim);
        RemoveConnection(value);
        outcome := Finished;
      }
    }
  }
}
