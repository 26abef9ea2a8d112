/** Whole runs of the hash table against one finite map. */
module HashRuns {
  import opened Bits
  import opened TableSizes
  import opened Chains
  import opened HashTables

  /** The calls a user can make; `Get` and `Put` go through `operator[]`. */
  datatype Op<K, V> =
    | Insert(key: K, val: V)
    | Get(key: K)
    | Put(key: K, val: V)
    | Erase(key: K)
    | Exist(key: K)
    | Random(draws: seq<nat>, pick: nat)
    | Clear

  datatype Answer<K, V> =
    | Done
    | Code(code: int)
    | Found(found: bool)
    | Read(value: V)
    | Picked(key: K, value: V)
    | NonePicked

  /** The map after one call. */
  ghost function After<K, V>(op: Op<K, V>, m: map<K, V>, initial: V): map<K, V>
  {
    match op
    case Insert(k, v) => if k in m then m else m[k := v]
    case Get(k) => if k in m then m else m[k := initial]
    case Put(k, v) => m[k := v]
    case Erase(k) => m - {k}
    case Exist(_) => m
    case Random(_, _) => m
    case Clear => map[]
  }

  /** What a finite map answers to a call. */
  ghost predicate Answers<K, V>(op: Op<K, V>, m: map<K, V>, initial: V, a: Answer<K, V>)
  {
    match op
    case Insert(k, _) => a == Code(if k in m then DICT_ERR else DICT_OK)
    case Get(k) => a == Read(if k in m then m[k] else initial)
    case Exist(k) => a == Found(k in m)
    case Random(draws, _) =>
      (a.Picked? && a.key in m && m[a.key] == a.value) || (a == NonePicked && (m == map[] || !Exhaustive(draws)))
    case _ => a == Done
  }

  ghost function AfterAll<K, V>(ops: seq<Op<K, V>>, m: map<K, V>, initial: V): map<K, V>
  {
    if ops == [] then m else After(ops[|ops| - 1], AfterAll(ops[..|ops| - 1], m, initial), initial)
  }

  /** The calls that shorten a migration: those that may insert and `clear` always, the others on a map that is not
      empty. */
  ghost predicate Advances<K, V>(op: Op<K, V>, m: map<K, V>)
  {
    op.Insert? || op.Get? || op.Put? || op.Clear? || (m != map[] && (op.Erase? || op.Exist? || op.Random?))
  }

  /** The calls that free the node of a key. */
  ghost predicate Frees<K, V>(op: Op<K, V>, key: K)
  {
    op.Clear? || (op.Erase? && op.key == key)
  }

  /** Nodes handed out before are still those of their keys, unless a call has freed them. */
  ghost predicate NodesStay<K, V>(ops: seq<Op<K, V>>, was: map<K, Entry<K, V>>, now: map<K, Entry<K, V>>)
  {
    forall key :: key in was && (forall op :: op in ops ==> !Frees(op, key)) ==> key in now && now[key] == was[key]
  }

  lemma NodesStayAfter<K, V>(op: Op<K, V>, was: map<K, Entry<K, V>>, now: map<K, Entry<K, V>>)
    requires op.Clear? || (op.Erase? && now == was - {op.key}) || forall k :: k in was ==> k in now && now[k] == was[k]
    ensures NodesStay([op], was, now)
  {
    assert op in [op];
  }

  lemma NodesStayAtFirst<K, V>(ops: seq<Op<K, V>>, nodes: map<K, Entry<K, V>>)
    ensures NodesStay(ops[..0], nodes, nodes)
  {
  }

  lemma NodesStayOnward<K, V>(ops: seq<Op<K, V>>, n: nat, was: map<K, Entry<K, V>>, mid: map<K, Entry<K, V>>,
      now: map<K, Entry<K, V>>)
    requires n < |ops| && NodesStay(ops[..n], was, mid) && NodesStay([ops[n]], mid, now)
    ensures NodesStay(ops[..n + 1], was, now)
  {
    hide Frees;
    assert ops[..n + 1] == ops[..n] + [ops[n]];
  }

  /** `t[key] = val;` */
  method Assign<K(==), V>(t: HashTable<K, V>, key: K, val: V)
    requires t.Valid() && t.Size() < INT_MAX
    modifies t.Repr()
    ensures t.Valid() && fresh(t.Repr() - old(t.Repr()))
    ensures t.Model() == old(t.Model())[key := val]
    ensures t.Size() == old(t.Size()) + if key in old(t.Model()) then 0 else 1
    ensures forall k :: k in old(t.Entries()) ==> k in t.Entries() && t.Entries()[k] == old(t.Entries())[k]
    ensures old(t.Left()) > 0 ==> t.Left() < old(t.Left())
    ensures old(t.rehashidx) != -1 ==> OneStep(old(t.ht0.lay.chains), old(t.rehashidx), t.rehashidx)
  {
    hide HashTable.Valid, HashTable.Model, OneStep;
    var e := t.Subscript(key);
    t.SetValue(e, val);
  }

  /** `t.getRandomValue()` on a table that is not empty. */
  method PickFrom<K(==),
      V>(t: HashTable<K, V>, draws: seq<nat>, pick: nat) returns (picked: bool, value: V, ghost key: K)
    requires t.Valid() && t.Size() < INT_MAX && t.Model() != map[]
    modifies t.Repr()
    ensures t.Valid() && fresh(t.Repr() - old(t.Repr())) && t.Model() == old(t.Model())
    ensures picked <==> !t.Misses(draws)
    ensures picked ==> key == t.Selected(draws, pick).key
    ensures key in t.Model() && (picked ==> value == t.Model()[key])
  {
    hide HashTable.Valid, HashTable.Model, HashTable.Misses;
    ghost var m := t.Model();
    var e := t.GetRandomEntry(draws, pick);
    picked := e != null;
    if picked {
      value, key := e.value, e.key;
    } else {
      value := t.initial;
      key :| key in m;
    }
  }

  /** One call; it answers as the finite map does and has the same effect on it. */
  method Step<K(==), V>(t: HashTable<K, V>, op: Op<K, V>) returns (a: Answer<K, V>)
    requires t.Valid() && t.Size() < INT_MAX
    modifies t.Repr()
    ensures t.Valid() && fresh(t.Repr() - old(t.Repr()))
    ensures t.Model() == After(op, old(t.Model()), t.initial)
    ensures Answers(op, old(t.Model()), t.initial, a)
    ensures op.Random? && t.Model() != map[] ==>
              if t.Misses(op.draws) then a == NonePicked
              else t.Selected(op.draws, op.pick) != null && a.Picked? && a.key == t.Selected(op.draws, op.pick).key
    ensures t.Size() <= old(t.Size()) + 1
    ensures NodesStay([op], old(t.Entries()), t.Entries())
    ensures old(t.rehashidx) != -1 && Advances(op, old(t.Model())) && !op.Clear? ==>
              OneStep(old(t.ht0.lay.chains), old(t.rehashidx), t.rehashidx)
    ensures Advances(op, old(t.Model())) && old(t.Left()) > 0 ==> t.Left() < old(t.Left())
    ensures old(t.Left()) > 0 ==> t.Left() <= old(t.Left())
  {
    hide HashTable.Valid, HashTable.Model, HashTable.Entries, NodesStay, OneStep;
    t.EmptyHasNoKeys();
    t.ModelKeys();
    ghost var nodes := t.Entries();
    match op {
      case Insert(k, v) =>
        var r := t.Insert(k, v);
        a := Code(r);
      case Get(k) =>
        var e := t.Subscript(k);
        a := Read(e.value);
      case Put(k, v) =>
        Assign(t, k, v);
        a := Done;
      case Erase(k) =>
        t.Erase(k);
        a := Done;
      case Exist(k) =>
        var found := t.Exist(k);
        a := Found(found);
      case Random(draws, pick) =>
        var e := t.GetRandomEntry(draws, pick);
        a := if e == null then NonePicked else Picked(e.key, e.value);
        t.ModelKeys();
        if e == null && t.Model() != map[] && Exhaustive(draws) {
          t.ExhaustiveDrawsHit(draws);
        }
      case Clear =>
        t.Clear();
        a := Done;
    }
    NodesStayAfter(op, nodes, t.Entries());
  }

  /** The map a run passes through before its call number `i`. */
  ghost function MapBefore<K, V>(ops: seq<Op<K, V>>, i: nat, m: map<K, V>, initial: V): map<K, V>
    requires i <= |ops|
  {
    AfterAll(ops[..i], m, initial)
  }

  /** Every run of calls answers as one finite map does, whatever the table migrates meanwhile;
      `lefts` are the lengths of the migration still ahead before and after each call. */
  method Run<K(==), V>(t: HashTable<K, V>, ops: seq<Op<K, V>>) returns (answers: seq<Answer<K, V>>,
      ghost lefts: seq<int>)
    requires t.Valid() && t.Size() + |ops| <= INT_MAX
    modifies t.Repr()
    ensures t.Valid() && fresh(t.Repr() - old(t.Repr()))
    ensures t.Model() == AfterAll(ops, old(t.Model()), t.initial)
    ensures |answers| == |ops|
    ensures forall i :: 0 <= i < |ops| ==>
        Answers(ops[i], MapBefore(ops, i, old(t.Model()), t.initial), t.initial, answers[i])
    ensures Migrates(ops, old(t.Model()), t.initial, lefts) && lefts[0] == old(t.Left())
    ensures NodesStay(ops, old(t.Entries()), t.Entries())
  {
    hide HashTable.Valid, HashTable.Model, Answers, After, AfterAll, HashTable.Left, Advances, NodesStay,
        HashTable.Entries;
    t.LeftIsBounded();
    answers, lefts := [], [t.Left()];
    ghost var m := t.Model();
    ghost var nodes := t.Entries();
    BeforeFirst(ops, m, t.initial);
    NodesStayAtFirst(ops, nodes);
    for n := 0 to |ops|
      invariant t.Valid() && fresh(t.Repr() - old(t.Repr())) && t.Size() <= old(t.Size()) + n
      invariant t.Model() == MapBefore(ops, n, m, t.initial)
      invariant |answers| == n
      invariant forall i :: 0 <= i < n ==> Answers(ops[i], MapBefore(ops, i, m, t.initial), t.initial, answers[i])
      invariant Migrates(ops[..n], m, t.initial, lefts) && lefts[0] == old(t.Left()) && lefts[n] == t.Left()
      invariant NodesStay(ops[..n], nodes, t.Entries())
    {
      ghost var before := t.Entries();
      var a := Step(t, ops[n]);
      t.LeftIsBounded();
      MigratesOnward(ops, n, m, t.initial, lefts, t.Left());
      AfterOnward(ops, n, m, t.initial);
      NodesStayOnward(ops, n, nodes, before, t.Entries());
      answers := answers + [a];
      lefts := lefts + [t.Left()];
    }
    assert ops[..|ops|] == ops;
  }

  /** By how much one call shortens the migration ahead, at least. */
  ghost function Advance<K, V>(ops: seq<Op<K, V>>, i: nat, m: map<K, V>, initial: V): nat
    requires i < |ops|
  {
    if Advances(ops[i], MapBefore(ops, i, m, initial)) then 1 else 0
  }

  /** How the length of the migration ahead changes along a run. */
  ghost predicate Migrates<K, V>(ops: seq<Op<K, V>>, m: map<K, V>, initial: V, lefts: seq<int>)
  {
    && |lefts| == |ops| + 1
    && (forall i :: 0 <= i < |lefts| ==> lefts[i] >= 0)
    && (forall i :: 0 <= i < |ops| && lefts[i] > 0 ==> lefts[i + 1] <= lefts[i] - Advance(ops, i, m, initial))
  }

  lemma PrefixAdvances<K, V>(ops: seq<Op<K, V>>, n: nat, i: nat, m: map<K, V>, initial: V)
    requires i < n <= |ops|
    ensures Advance(ops[..n], i, m, initial) == Advance(ops, i, m, initial)
  {
    assert ops[..n][..i] == ops[..i];
  }

  lemma MigratesOnward<K, V>(ops: seq<Op<K, V>>, n: nat, m: map<K, V>, initial: V, lefts: seq<int>, left: int)
    requires n < |ops| && Migrates(ops[..n], m, initial, lefts) && left >= 0
    requires lefts[n] > 0 ==> left <= lefts[n] - Advance(ops, n, m, initial)
    ensures Migrates(ops[..n + 1], m, initial, lefts + [left])
  {
    hide Advance;
    forall i | 0 <= i < n + 1
      ensures Advance(ops[..n + 1], i, m, initial) == Advance(ops, i, m, initial)
      ensures i < n ==> Advance(ops[..n], i, m, initial) == Advance(ops, i, m, initial)
    {
      PrefixAdvances(ops, n + 1, i, m, initial);
      if i < n {
        PrefixAdvances(ops, n, i, m, initial);
      }
    }
  }

  lemma AfterOnward<K, V>(ops: seq<Op<K, V>>, n: nat, m: map<K, V>, initial: V)
    requires n < |ops|
    ensures MapBefore(ops, n + 1, m, initial) == After(ops[n], MapBefore(ops, n, m, initial), initial)
  {
    assert ops[..n + 1][..n] == ops[..n];
  }

  lemma BeforeFirst<K, V>(ops: seq<Op<K, V>>, m: map<K, V>, initial: V)
    ensures MapBefore(ops, 0, m, initial) == m
  {
  }

  /** How many of the first `n` calls make a migration step. */
  ghost function Advancing<K, V>(ops: seq<Op<K, V>>, n: nat, m: map<K, V>, initial: V): nat
    requires n <= |ops|
  {
    if n == 0 then 0 else Advancing(ops, n - 1, m, initial) + Advance(ops, n - 1, m, initial)
  }

  /** A migration is over after at most as many calls that shorten it as it had buckets ahead: all calls count but
      erasures, lookups and random picks on an empty map. */
  lemma MigrationTerminates<K, V>(ops: seq<Op<K, V>>, m: map<K, V>, initial: V, lefts: seq<int>)
    requires Migrates(ops, m, initial, lefts) && Advancing(ops, |ops|, m, initial) >= lefts[0]
    ensures exists i :: 0 <= i < |lefts| && lefts[i] == 0
  {
    if forall i :: 0 <= i < |lefts| ==> lefts[i] != 0 {
      LeftShrinks(ops, |ops|, m, initial, lefts);
    }
  }

  lemma {:induction false} LeftShrinks<K, V>(ops: seq<Op<K, V>>, n: nat, m: map<K, V>, initial: V, lefts: seq<int>)
    requires n <= |ops| && Migrates(ops, m, initial, lefts) && forall i :: 0 <= i < |lefts| ==> lefts[i] != 0
    ensures lefts[n] <= lefts[0] - Advancing(ops, n, m, initial)
  {
    if n > 0 {
      LeftShrinks(ops, n - 1, m, initial, lefts);
      assert lefts[n - 1] > 0;
    }
  }
}
