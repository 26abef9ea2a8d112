/** The hash table behind the finite map that it stands for: what a client may rely on. */
module FiniteMaps {
  import opened Bits
  import opened HashTables
  import opened HashRuns

  /** A random pick that has hit: its numbers and the key it came to. */
  datatype Hit<K> = Hit(draws: seq<nat>, pick: nat, key: K)

  class FiniteMap<!K(==), V> {
    const table: HashTable<K, V>
    ghost var contents: map<K, V>
    /** The random hits so far. */
    ghost var hits: seq<Hit<K>>
    ghost var Repr: set<object>

    ghost predicate Valid()
      reads this, Repr
    {
      && this in Repr && table in Repr && table.ht0 in Repr && table.ht1 in Repr
      && table.Repr() <= Repr && this !in table.Repr() && table.Valid() && table.Model() == contents
    }

    constructor (hash: K -> Word, initial: V)
      ensures Valid() && fresh(Repr) && contents == map[] && hits == [] && table.initial == initial
    {
      hide HashTable.Valid, HashTable.Model;
      table := new HashTable(hash, initial);
      contents, hits := map[], [];
      new;
      Repr := {this} + table.Repr();
    }

    /** None of the random numbers hits anything, in the present state of the table. */
    ghost predicate Misses(draws: seq<nat>)
      requires Valid()
      reads this, Repr
    {
      table.Misses(draws)
    }

    /** The key that random numbers pick in the present state of the table. */
    ghost function Chosen(draws: seq<nat>, pick: nat): K
      requires Valid() && !Misses(draws)
      reads this, Repr
    {
      table.Selected(draws, pick).key
    }

    /** Every key is picked by some numbers in the range of `random()`. */
    lemma EveryKeyCanBePicked(key: K) returns (draw: nat, pick: nat)
      requires Valid() && |contents| < INT_MAX && key in contents
      ensures draw <= INT_MAX && pick <= INT_MAX
      ensures !Misses([draw]) && Chosen([draw], pick) == key
    {
      hide HashTable.Valid, HashTable.Model, HashTable.Size, HashTable.Selected, HashTable.Misses;
      table.SizeCountsKeys();
      table.ModelKeys();
      table.EntryOf(key);
      draw, pick := table.EveryEntryCanBeDrawn(key);
    }

    /** Numbers that go through the whole range of `random()` pick something. */
    lemma ExhaustiveDrawsHit(draws: seq<nat>)
      requires Valid() && |contents| < INT_MAX && contents != map[] && Exhaustive(draws)
      ensures !Misses(draws)
    {
      hide HashTable.Valid, HashTable.Model, HashTable.Size, HashTable.Misses;
      table.SizeCountsKeys();
      table.ModelKeys();
      table.ExhaustiveDrawsHit(draws);
    }

    method Size() returns (n: int)
      requires Valid()
      ensures n == |contents|
    {
      hide HashTable.Valid, HashTable.Model;
      table.SizeCountsKeys();
      n := table.Size();
    }

    /** Any call: the contents change and the answer is given as by the finite map. */
    method Call(op: Op<K, V>) returns (answer: Answer<K, V>)
      requires Valid() && |contents| < INT_MAX
      modifies Repr
      ensures Valid() && fresh(Repr - old(Repr))
      ensures contents == After(op, old(contents), table.initial) && hits == old(hits)
      ensures Answers(op, old(contents), table.initial, answer)
    {
      hide HashTable.Valid, HashTable.Model, HashTable.Size, HashTable.Entries, After, Answers, NodesStay, Advances;
      table.SizeCountsKeys();
      answer := Step(table, op);
      Update([]);
    }

    /** Takes note of what a call has done to the table. */
    ghost method Update(more: seq<Hit<K>>)
      requires table.Valid() && this !in table.Repr()
      modifies this`contents, this`hits, this`Repr
      ensures Valid() && contents == table.Model() && Repr == {this} + table.Repr() && hits == old(hits) + more
    {
      hide HashTable.Valid, HashTable.Model;
      contents, hits := table.Model(), hits + more;
      Repr := {this} + table.Repr();
      assert table.Valid();
    }

    /** `t[key]`, read. */
    method Read(key: K) returns (value: V)
      requires Valid() && |contents| < INT_MAX
      modifies Repr
      ensures Valid() && fresh(Repr - old(Repr))
      ensures contents == if key in old(contents) then old(contents) else old(contents)[key := table.initial]
      ensures value == contents[key] && hits == old(hits)
    {
      hide Valid;
      var answer := Call(Get(key));
      value := answer.value;
    }

    /** `t[key] = value`. */
    method Write(key: K, value: V)
      requires Valid() && |contents| < INT_MAX
      modifies Repr
      ensures Valid() && fresh(Repr - old(Repr)) && contents == old(contents)[key := value]
        && hits == old(hits)
    {
      hide Valid;
      var _ := Call(Put(key, value));
    }

    /** `getRandomValue`: nothing is picked exactly when the map is empty or no draw hits. */
    method Pick(draws: seq<nat>, pick: nat) returns (picked: bool, value: V, ghost key: K)
      requires Valid() && |contents| < INT_MAX && contents != map[]
      modifies Repr
      ensures Valid() && fresh(Repr - old(Repr)) && contents == old(contents)
      ensures picked <==> !Misses(draws)
      ensures key in contents && (picked ==> key == Chosen(draws, pick) && value == contents[key])
      ensures hits == old(hits) + if picked then [Hit(draws, pick, key)] else []
    {
      hide HashTable.Valid, HashTable.Model, HashTable.Size, HashTable.Misses, HashTable.Selected,
          HashTable.Entries;
      table.SizeCountsKeys();
      picked, value, key := PickFrom(table, draws, pick);
      Update(if picked then [Hit(draws, pick, key)] else []);
    }

    method Remove(key: K)
      requires Valid() && |contents| < INT_MAX
      modifies Repr
      ensures Valid() && fresh(Repr - old(Repr)) && contents == old(contents) - {key}
        && hits == old(hits)
    {
      hide Valid;
      var _ := Call(Erase(key));
    }
  }
}
