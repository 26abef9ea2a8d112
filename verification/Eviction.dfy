/** Sampling from the pool, on values: what a round of `evictRandomN` can come to, whatever the random numbers. */
module Evictions {
  import opened Bits
  import opened Lifecycle
  import Chains

  /** A connection as the sampling loop sees it. */
  datatype Peer = Peer(inactive: int, closed: bool)

  datatype Sample = Sample(id: Word, inactive: int, closed: bool)

  /** The sample that the loop of `evictRandomN` remembers. */
  function Remembered(samples: seq<Sample>): Sample
  {
    if samples == [] then Sample(NO_ID, 0, false)
    else
      var best, last := Remembered(samples[..|samples| - 1]), samples[|samples| - 1];
      if last.inactive > best.inactive then last else best
  }

  /** It is the first of the most inactive samples, or none if no sample has been inactive for any time. */
  lemma {:induction false} RememberedIsMostInactive(samples: seq<Sample>)
    requires forall x :: x in samples ==> x.id != NO_ID
    ensures forall x :: x in samples ==> x.inactive <= Remembered(samples).inactive
    ensures Remembered(samples).id == NO_ID <==> forall x :: x in samples ==> x.inactive <= 0
    ensures Remembered(samples).id != NO_ID ==>
              exists i :: 0 <= i < |samples| && samples[i] == Remembered(samples) && forall j :: 0 <= j < i ==>
                  samples[j].inactive < samples[i].inactive
    ensures Remembered(samples).inactive >= 0
      && (Remembered(samples).inactive == 0 <==> Remembered(samples).id == NO_ID)
  {
    if samples != [] {
      var front, last := samples[..|samples| - 1], samples[|samples| - 1];
      RememberedIsMostInactive(front);
      assert samples == front + [last];
      if last.inactive > Remembered(front).inactive {
        assert samples[|samples| - 1] == Remembered(samples);
        assert forall j :: 0 <= j < |front| ==> samples[j] in front;
      } else if Remembered(front).id != NO_ID {
        var i :| 0 <= i < |front| && front[i] == Remembered(front) && forall j :: 0 <= j < i ==>
            front[j].inactive < front[i].inactive;
        assert samples[i] == Remembered(samples) && forall j :: 0 <= j < i ==> samples[j] == front[j];
      }
    }
  }

  /** The connections dropped while sampling. */
  function ClosedIds(samples: seq<Sample>): set<Word>
  {
    set x | x in samples && x.closed :: x.id
  }

  /** Sample `i` is a connection of the pool that was not dropped before. */
  predicate Drawable(samples: seq<Sample>, i: nat, pool: map<Word, Peer>)
    requires i < |samples|
  {
    var x := samples[i];
    x.id in pool && x.id !in ClosedIds(samples[..i]) && x.inactive == pool[x.id].inactive
      && x.closed == pool[x.id].closed
  }

  /** What the sampling loop can draw from a pool, one sample after the other. */
  predicate Round(samples: seq<Sample>, pool: map<Word, Peer>)
  {
    forall i :: 0 <= i < |samples| ==> Drawable(samples, i, pool)
  }

  /** Whether a round of `n` samples ends in the removal of the remembered connection. */
  predicate Evicts(samples: seq<Sample>, n: int, force: bool, timeout: int)
  {
    && n > 0 && |samples| == n && Remembered(samples).id != NO_ID
    && (force || Remembered(samples).inactive > timeout)
  }

  /** The connection that a round of samples removes at its end. */
  function Victims(samples: seq<Sample>, n: int, force: bool, timeout: int): set<Word>
  {
    if Evicts(samples, n, force, timeout) then {Remembered(samples).id} else {}
  }

  /** The remembered connection is to be removed, but was dropped when it was sampled. */
  predicate Fails(samples: seq<Sample>, n: int, force: bool, timeout: int)
  {
    Evicts(samples, n, force, timeout) && Remembered(samples).closed
  }

  lemma EmptyRound(pool: map<Word, Peer>)
    ensures Round([], pool) && ClosedIds([]) == {} && Remembered([]) == Sample(NO_ID, 0, false)
  {
  }

  /** At the end of a round a connection goes exactly if some sample has been inactive for long enough, and none of the
      samples has been inactive for longer than the one that goes. */
  lemma OneGoesIff(samples: seq<Sample>, pool: map<Word, Peer>, n: int, force: bool, timeout: int)
    requires NO_ID !in pool && Round(samples, pool)
    ensures Victims(samples, n, force, timeout) != {} <==>
            && n > 0 && |samples| == n
            && exists x :: x in samples && x.inactive > 0 && (force || x.inactive > timeout)
    ensures |Victims(samples, n, force, timeout)| <= 1
    ensures forall id :: id in Victims(samples, n, force, timeout) ==>
                id in pool && forall x :: x in samples ==> x.inactive <= pool[id].inactive
  {
    RoundIsHonest(samples, pool);
    RememberedIsMostInactive(samples);
    if n > 0 && |samples| == n && exists x :: x in samples && x.inactive > 0 && (force || x.inactive > timeout) {
      var x :| x in samples && x.inactive > 0 && (force || x.inactive > timeout);
      assert x.inactive <= Remembered(samples).inactive;
      assert Remembered(samples).id in Victims(samples, n, force, timeout);
    }
  }

  /** An empty pool has no samples. */
  lemma NothingToDraw(samples: seq<Sample>, pool: map<Word, Peer>)
    requires Round(samples, pool) && pool == map[]
    ensures samples == []
  {
    if samples != [] {
      FirstIsInPool(samples, pool);
    }
  }

  lemma FirstIsInPool(samples: seq<Sample>, pool: map<Word, Peer>)
    requires Round(samples, pool) && samples != []
    ensures samples[0].id in pool
  {
    assert Drawable(samples, 0, pool);
  }

  /** A further sample. */
  lemma RoundGrows(samples: seq<Sample>, id: Word, pool: map<Word, Peer>)
    requires Round(samples, pool) && id in pool && id !in ClosedIds(samples)
    ensures
      var x := Sample(id, pool[id].inactive, pool[id].closed);
      var more := samples + [x];
      && Round(more, pool) && ClosedIds(more) == ClosedIds(samples) + (if x.closed then {id} else {})
      && Remembered(more) == if x.inactive > Remembered(samples).inactive then x else Remembered(samples)
  {
    var more := samples + [Sample(id, pool[id].inactive, pool[id].closed)];
    assert more[..|samples|] == samples;
    forall i | 0 <= i < |more| ensures Drawable(more, i, pool) {
      if i < |samples| {
        assert Drawable(samples, i, pool) && more[..i] == samples[..i];
      }
    }
  }

  /** The samples of a round carry the data of the pool, and the remembered one was dropped exactly if it was closed. */
  lemma RoundIsHonest(samples: seq<Sample>, pool: map<Word, Peer>)
    requires Round(samples, pool) && NO_ID !in pool
    ensures forall x :: x in samples ==>
        x.id in pool && x.inactive == pool[x.id].inactive
          && x.closed == pool[x.id].closed
    ensures
      var x := Remembered(samples);
      x.id != NO_ID ==> x in samples && x.inactive > 0 && (x.id in ClosedIds(samples) <==> x.closed)
  {
    forall x | x in samples
      ensures x.id in pool && x.inactive == pool[x.id].inactive && x.closed == pool[x.id].closed
    {
      var i :| 0 <= i < |samples| && samples[i] == x;
      assert Drawable(samples, i, pool);
    }
    RememberedIsMostInactive(samples);
  }

  /** The closed connections inactive for at most a given time. */
  function ClosedUpTo(pool: map<Word, Peer>, time: int): set<Word>
  {
    set id | id in pool && pool[id].closed && pool[id].inactive <= time
  }

  /** There are `n` samples to draw without any of them being inactive for longer. */
  ghost predicate FillsRound(pool: map<Word, Peer>, n: int, time: int)
  {
    (exists d :: d in pool && !pool[d].closed && pool[d].inactive <= time) || |ClosedUpTo(pool, time)| >= n
  }

  /** A pool from which `evictRandomN` can fail: some closed connection would be evicted, and the round can be filled up
      with connections that are not inactive for longer. */
  ghost predicate CanFail(pool: map<Word, Peer>, n: int, force: bool, timeout: int)
  {
    n > 0 && exists c :: c in pool && pool[c].closed && pool[c].inactive > 0 && (force || pool[c].inactive > timeout)
                         && FillsRound(pool, n, pool[c].inactive)
  }

  /** Some round of `n` samples fails exactly on such a pool. */
  lemma SomeRoundFailsIff(pool: map<Word, Peer>, n: int, force: bool, timeout: int)
    requires NO_ID !in pool
    ensures (exists samples :: Round(samples, pool) && Fails(samples, n, force, timeout)) <==>
        CanFail(pool, n, force, timeout)
  {
    if CanFail(pool, n, force, timeout) {
      var samples := FailingRound(pool, n, force, timeout);
    }
    forall samples | Round(samples, pool) && Fails(samples, n, force, timeout)
      ensures CanFail(pool, n, force, timeout)
    {
      FailureNeedsSuchAPool(samples, pool, n, force, timeout);
    }
  }

  lemma FailureNeedsSuchAPool(samples: seq<Sample>, pool: map<Word, Peer>, n: int, force: bool, timeout: int)
    requires NO_ID !in pool && Round(samples, pool) && Fails(samples, n, force, timeout)
    ensures CanFail(pool, n, force, timeout)
  {
    hide Remembered, Drawable;
    RoundIsHonest(samples, pool);
    RememberedIsMostInactive(samples);
    var c := Remembered(samples);
    if forall x :: x in samples ==> x.closed {
      ClosedRoundIsDistinct(samples, pool);
      assert ClosedIds(samples) <= ClosedUpTo(pool, c.inactive);
      Chains.CountSubset(ClosedIds(samples), ClosedUpTo(pool, c.inactive));
    } else {
      var x :| x in samples && !x.closed;
      assert x.id in pool && !pool[x.id].closed && pool[x.id].inactive <= c.inactive;
    }
    assert FillsRound(pool, n, pool[c.id].inactive);
  }

  /** No closed connection is sampled twice. */
  lemma {:induction false} ClosedRoundIsDistinct(samples: seq<Sample>, pool: map<Word, Peer>)
    requires Round(samples, pool) && forall x :: x in samples ==> x.closed
    ensures |ClosedIds(samples)| == |samples|
  {
    if samples != [] {
      var front, last := samples[..|samples| - 1], samples[|samples| - 1];
      forall i | 0 <= i < |front| ensures Drawable(front, i, pool) {
        assert Drawable(samples, i, pool) && front[..i] == samples[..i];
      }
      ClosedRoundIsDistinct(front, pool);
      assert Drawable(samples, |front|, pool);
      assert samples == front + [last];
      assert ClosedIds(samples) == ClosedIds(front) + {last.id};
    } else {
      assert ClosedIds(samples) == {};
    }
  }

  /** The closed connection comes first, then connections that are not inactive for longer. */
  lemma FailingRound(pool: map<Word, Peer>, n: int, force: bool, timeout: int) returns (samples: seq<Sample>)
    requires NO_ID !in pool && CanFail(pool, n, force, timeout)
    ensures Round(samples, pool) && Fails(samples, n, force, timeout)
  {
    hide Remembered, Drawable;
    var c :| c in pool && pool[c].closed && pool[c].inactive > 0 && (force || pool[c].inactive > timeout)
             && FillsRound(pool, n, pool[c].inactive);
    var first := Sample(c, pool[c].inactive, true);
    EmptyRound(pool);
    RoundGrows([], c, pool);
    samples := [] + [first];
    ghost var rest := ClosedUpTo(pool, first.inactive) - {c};
    if d :| d in pool && !pool[d].closed && pool[d].inactive <= first.inactive {
      for i := 1 to n
        invariant |samples| == i && Round(samples, pool) && Remembered(samples) == first && d !in ClosedIds(samples)
      {
        RoundGrows(samples, d, pool);
        samples := samples + [Sample(d, pool[d].inactive, false)];
      }
    } else {
      for i := 1 to n
        invariant |samples| == i && Round(samples, pool) && Remembered(samples) == first
        invariant rest <= ClosedUpTo(pool, first.inactive) && |rest| >= n - i && rest !! ClosedIds(samples)
      {
        var id :| id in rest;
        RoundGrows(samples, id, pool);
        samples := samples + [Sample(id, pool[id].inactive, true)];
        rest := rest - {id};
      }
    }
  }

  /** One closed connection, inactive for a second, and a forced round of one sample: the smallest failure. */
  lemma SmallestFailure()
    ensures
      var pool := map[1 := Peer(1, true)];
      CanFail(pool, 1, true, 0) && Round([Sample(1, 1, true)], pool) && Fails([Sample(1, 1, true)], 1, true, 0)
  {
    var pool := map[1 := Peer(1, true)];
    EmptyRound(pool);
    RoundGrows([], 1, pool);
    assert [] + [Sample(1, 1, true)] == [Sample(1, 1, true)];
    FailureNeedsSuchAPool([Sample(1, 1, true)], pool, 1, true, 0);
  }

  /** If the only connection is closed, a forced round of one sample fails, unless no time has passed for it. */
  lemma OnlyConnectionFailsIff(samples: seq<Sample>, pool: map<Word, Peer>, id: Word, timeout: int)
    requires pool.Keys == {id} && id != NO_ID && pool[id].closed
    requires Round(samples, pool) && |samples| == 1
    ensures Fails(samples, 1, true, timeout) <==> pool[id].inactive > 0
  {
    assert Drawable(samples, 0, pool) && samples[..0] == [];
    EmptyRound(pool);
    RoundGrows([], id, pool);
    assert samples == [] + [Sample(id, pool[id].inactive, true)];
  }

  /** Without closed connections no round fails. */
  lemma OpenPoolCannotFail(pool: map<Word, Peer>, n: int, force: bool, timeout: int)
    requires forall id :: id in pool ==> !pool[id].closed
    ensures !CanFail(pool, n, force, timeout)
    ensures forall samples: seq<Sample> :: Round(samples, pool) ==> ClosedIds(samples) == {}
  {
    forall samples: seq<Sample> | Round(samples, pool) ensures ClosedIds(samples) == {} {
      forall i | 0 <= i < |samples| ensures !samples[i].closed {
        assert Drawable(samples, i, pool);
      }
    }
  }
}
