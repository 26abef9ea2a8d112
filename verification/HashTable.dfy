/** The hash table with incremental rehashing. */
module HashTables {
  import opened Bits
  import opened TableSizes
  import opened Chains

  /** Growth never overtakes migration: the sizes and fill levels that can occur. */
  ghost predicate Paced(size0: nat, size1: nat, used0: nat, used1: nat, rehashidx: int)
  {
    if rehashidx == -1 then
      && size1 == used1 == 0
      && (size0 == 0 ==> used0 == 0)
      && (size0 != 0 ==> IsTableSize(size0) && size0 <= 0x4000_0000 && used0 <= 6 * size0)
    else
      && 0 <= rehashidx < size0
      && IsTableSize(size0)
      && size1 == 16 * size0 <= 0x4000_0000
      && used0 + used1 <= 6 * size0 + 1 + rehashidx
  }

  /** There is room for one more entry. */
  ghost predicate Roomy(size0: nat, size1: nat, used0: nat, used1: nat, rehashidx: int)
  {
    size0 > 0 &&
    if rehashidx == -1 then Paced(size0, size1, used0 + 1, used1, rehashidx)
    else Paced(size0, size1, used0, used1 + 1, rehashidx)
  }

  /** A migration that has just finished leaves a table that is far from full. */
  lemma FinishedIsFarFromFull(size0: nat, size1: nat, used0: nat, used1: nat, rehashidx: int)
    requires Paced(size0, size1, used0, used1, rehashidx) && rehashidx != -1
    ensures used0 + used1 < size1
  {
  }

  lemma FinishedIsPaced(size0: nat, size1: nat, used0: nat, used1: nat, rehashidx: int)
    requires Paced(size0, size1, used0, used1, rehashidx) && rehashidx != -1
    ensures Paced(size1, 0, used0 + used1, 0, -1)
  {
  }

  /** Two layouts share neither nodes nor keys. */
  ghost predicate Apart<K, V>(l0: Layout<K, V>, l1: Layout<K, V>)
  {
    l0.nodes !! l1.nodes && l0.entries.Keys !! l1.entries.Keys
  }

  /** Moving the first node of bucket `b` from one layout to the other changes neither
      the nodes nor which node holds which key. */
  lemma MoveKeepsUnion<K, V>(l0: Layout<K, V>, l1: Layout<K, V>, b: nat, h: nat)
    requires l0.Shape() && Apart(l0, l1) && b < |l0.chains| && l0.chains[b] != [] && h < |l1.chains|
    ensures var e := l0.chains[b][0];
      var (k0, k1) := (l0.Without(b, 0), l1.WithFirst(h, e));
      Apart(k0, k1) && k0.entries + k1.entries == l0.entries + l1.entries && k0.nodes + k1.nodes == l0.nodes + l1.nodes
  {
    assert l0.BucketShape(b);
  }

  /** A new key goes into either layout with the same effect on the whole. */
  lemma AddKeepsUnion<K, V>(l0: Layout<K, V>, l1: Layout<K, V>, e: Entry<K, V>)
    requires l0.Shape() && l1.Shape() && Apart(l0, l1) && e.key !in l0.entries && e.key !in l1.entries
    ensures e !in l0.nodes && e !in l1.nodes
    ensures l0.entries[e.key := e] + l1.entries == (l0.entries + l1.entries)[e.key := e]
    ensures l0.entries + l1.entries[e.key := e] == (l0.entries + l1.entries)[e.key := e]
    ensures (l0.nodes + {e}) + l1.nodes == l0.nodes + l1.nodes + {e} == l0.nodes + (l1.nodes + {e})
  {
  }

  /** The chain that a random number selects: among the buckets not yet migrated and the new table's
      during a migration, among all buckets otherwise. */
  ghost function DrawnChain<K, V>(l0: Layout<K, V>, l1: Layout<K, V>, rehashidx: int, draw: nat): Chain<K, V>
    requires rehashidx < |l0.chains| && |l0.chains| > 0
  {
    if rehashidx < 0 then l0.chains[draw % |l0.chains|]
    else
      var h := rehashidx + draw % (|l0.chains| + |l1.chains| - rehashidx);
      if h >= |l0.chains| then l1.chains[h - |l0.chains|] else l0.chains[h]
  }

  /** Small numbers select the buckets one after the other. */
  lemma DrawsBucket<K, V>(l0: Layout<K, V>, l1: Layout<K, V>, rehashidx: int, draw: nat)
    requires rehashidx < |l0.chains| && |l0.chains| > 0
    ensures
      rehashidx < 0 && draw < |l0.chains| ==> DrawnChain(l0, l1, rehashidx, draw) == l0.chains[draw]
    ensures
      rehashidx >= 0 && rehashidx + draw < |l0.chains| + |l1.chains| ==>
        DrawnChain(l0, l1, rehashidx, draw) ==
        var h := rehashidx + draw;
        if h < |l0.chains| then l0.chains[h] else l1.chains[h - |l0.chains|]
  {
    SmallModulus(draw, |l0.chains|);
    SmallModulus(draw, |l0.chains| + |l1.chains| - rehashidx);
  }

  /** How many numbers in a row go once through the buckets that a random number can select: all buckets, or, during a
      migration, those still ahead in the old table and all of the new one. */
  function DrawRange(size0: nat, size1: nat, rehashidx: int): int
  {
    if rehashidx < 0 then size0 else size0 + size1 - rehashidx
  }

  /** Larger numbers go through them again, in the same order. */
  lemma DrawsRepeat<K, V>(l0: Layout<K, V>, l1: Layout<K, V>, rehashidx: int, draw: nat)
    requires rehashidx < |l0.chains| && |l0.chains| > 0
    ensures
      var range := DrawRange(|l0.chains|, |l1.chains|, rehashidx);
      range > 0 && DrawnChain(l0, l1, rehashidx, draw + range) == DrawnChain(l0, l1, rehashidx, draw)
  {
    RemainderRepeats(draw, DrawRange(|l0.chains|, |l1.chains|, rehashidx));
  }

  lemma RemainderRepeats(x: nat, n: nat)
    requires n > 0
    ensures (x + n) % n == x % n
  {
    RemainderUnique(x + n, n, x / n + 1, x % n);
  }

  /** Among any `n` numbers in a row there is one with a given remainder. */
  lemma RemainderInWindow(from: nat, n: nat, r: nat) returns (x: nat)
    requires r < n
    ensures from <= x < from + n && x % n == r
  {
    var q := (r - from) / n;
    x := from + (r - from) % n;
    assert x == r - n * q;
    RemainderUnique(x, n, -q, r);
  }

  /** The same buckets from `from` on. */
  ghost predicate SameFrom<K, V>(a: seq<Chain<K, V>>, b: seq<Chain<K, V>>, from: int)
  {
    |a| == |b| && forall k {:trigger b[k]} :: 0 <= k < |a| && from <= k ==> a[k] == b[k]
  }

  /** How many of the buckets `from` up to `to` hold anything. */
  ghost function Filled<K, V>(chains: seq<Chain<K, V>>, from: nat, to: nat): (n: nat)
    requires to <= |chains|
    ensures from <= to ==> n <= to - from
  {
    if to <= from then 0 else Filled(chains, from, to - 1) + if chains[to - 1] == [] then 0 else 1
  }

  lemma {:induction false} NoneFilled<K, V>(chains: seq<Chain<K, V>>, from: nat, to: nat)
    requires to <= |chains| && forall b :: from <= b < to ==> chains[b] == []
    ensures Filled(chains, from, to) == 0
  {
    if from < to {
      NoneFilled(chains, from, to - 1);
    }
  }

  lemma NoneLeft<K, V>(chains: seq<Chain<K, V>>, now: seq<Chain<K, V>>, from: nat, to: nat)
    requires from <= to <= |chains| && SameFrom(chains, now, from) && forall b :: from <= b < to ==> now[b] == []
    ensures Filled(chains, from, to) == 0
  {
    forall b | from <= b < to ensures chains[b] == [] {
      assert now[b] == [];
    }
    NoneFilled(chains, from, to);
  }

  lemma {:induction false} SomeFilled<K, V>(chains: seq<Chain<K, V>>, from: nat, to: nat, b: nat)
    requires from <= b < to <= |chains| && chains[b] != []
    ensures Filled(chains, from, to) > 0
  {
    if b < to - 1 {
      SomeFilled(chains, from, to - 1, b);
    }
  }

  lemma OneFilled<K, V>(chains: seq<Chain<K, V>>, from: nat, to: nat)
    requires from <= to < |chains| && chains[to] != []
    ensures Filled(chains, from, to + 1) == Filled(chains, from, to) + 1
  {
  }

  /** What `rehash(n)` has done from bucket `from` on: it has migrated the buckets up to `to`, at most `n` that hold
      anything and at most `10 * n` empty ones. The migration is over exactly if nothing is left, and otherwise it has
      used up one of the two. */
  ghost predicate Migrated<K, V>(chains: seq<Chain<K, V>>, from: nat, n: nat, to: nat, rehashidx: int)
  {
    && from <= to <= |chains|
    && var (filled, empty) := (Filled(chains, from, to), to - from - Filled(chains, from, to));
    && filled <= n && empty <= 10 * n
    && (rehashidx == -1 <==> Filled(chains, to, |chains|) == 0)
    && (rehashidx != -1 ==> rehashidx == to && (filled == n || empty == 10 * n))
  }

  lemma FilledIsBounded<K, V>(chains: seq<Chain<K, V>>, from: nat, to: nat)
    requires from <= to <= |chains|
    ensures 0 <= Filled(chains, from, to) <= to - from
  {
  }

  lemma StillMigrating<K, V>(chains: seq<Chain<K, V>>, from: nat, n: nat, to: nat)
    requires from <= to <= |chains| && Filled(chains, to, |chains|) > 0
    requires Filled(chains, from, to) <= n && to - from - Filled(chains, from, to) <= 10 * n
    requires Filled(chains, from, to) == n || to - from - Filled(chains, from, to) == 10 * n
    ensures Migrated(chains, from, n, to, to)
  {
  }

  /** One step of `rehash` was made from bucket `from` on. */
  ghost predicate OneStep<K, V>(chains: seq<Chain<K, V>>, from: int, rehashidx: int)
  {
    from >= 0 && exists to: nat :: Migrated(chains, from, 1, to, rehashidx)
  }

  lemma {:induction false} FilledSplit<K, V>(chains: seq<Chain<K, V>>, from: nat, mid: nat, to: nat)
    requires from <= mid <= to <= |chains|
    ensures Filled(chains, from, to) == Filled(chains, from, mid) + Filled(chains, mid, to)
  {
    if mid < to {
      FilledSplit(chains, from, mid, to - 1);
    }
  }

  lemma EntryPosition<K, V>(l: Layout<K, V>, key: K) returns (b: nat, position: nat)
    requires l.Shape() && key in l.entries
    ensures b == l.Home(key) < |l.chains| && position < |l.chains[b]| <= |l.nodes|
    ensures l.chains[b][position] == l.entries[key]
  {
    b := l.Home(key);
    l.ChainFits(b);
    position :| 0 <= position < |l.chains[b]| && l.chains[b][position] == l.entries[key];
  }

  /** Counts a chain and then walks to a random position of it. */
  method PickFromChain<K, V>(head: Entry<K, V>, ghost chain: Chain<K, V>, pick: nat) returns (he: Entry<K, V>)
    requires chain != [] && head == chain[0] && ChainLinked(chain)
    ensures he == chain[pick % |chain|]
  {
    var p: Entry?<K, V> := head;
    var listlen: nat := 0;
    while p != null
      invariant listlen <= |chain| && p == At(chain, listlen)
      decreases |chain| - listlen
    {
      p := p.next;
      listlen := listlen + 1;
    }
    var listele := pick % listlen;
    he := head;
    while listele > 0
      invariant 0 <= listele <= pick % listlen && he == chain[pick % listlen - listele]
    {
      he := he.next;
      listele := listele - 1;
    }
  }

  const DICT_OK := 0
  const DICT_ERR := 1

  class HashTable<!K(==), V> {
    const hash: K -> Word
    /** The value of a new entry before one is assigned. */
    const initial: V
    const ht0: Dictht<K, V>
    const ht1: Dictht<K, V>
    /** The next bucket of `ht0` to migrate, -1 when no migration is going on. */
    var rehashidx: int

    /** Both tables are well formed, up to the slot `skip` of `ht0`, and share nothing. */
    ghost predicate Tables(skip: int)
      reads ht0, ht1, ht0.table, ht1.table, ht0.lay.nodes`next, ht1.lay.nodes`next
    {
      && ht0 != ht1
      && ht0.Books() && ht0.Links(skip)
      && ht1.Valid()
      && (ht0.table == null || ht0.table != ht1.table)
      && Apart(ht0.lay, ht1.lay)
    }

    /** Keys are filed by their hash, and the buckets before `rehashidx` have been emptied. */
    ghost predicate Filed()
      reads this, ht0, ht1
    {
      && ht0.lay.filing.hash == ht1.lay.filing.hash == hash
      && rehashidx <= |ht0.lay.chains|
      && (forall b {:trigger ht0.lay.chains[b]} :: 0 <= b < rehashidx ==> ht0.lay.chains[b] == [])
    }

    ghost predicate Valid()
      reads this, ht0, ht1, ht0.table, ht1.table, ht0.lay.nodes`next, ht1.lay.nodes`next
    {
      Tables(-1) && Filed() && Paced(ht0.size, ht1.size, ht0.used, ht1.used, rehashidx)
    }

    /** The node of every key, in whichever table it is. */
    ghost function Entries(): map<K, Entry<K, V>>
      reads ht0, ht1
    {
      ht0.lay.entries + ht1.lay.entries
    }

    ghost function Nodes(): set<Entry<K, V>>
      reads ht0, ht1
    {
      ht0.lay.nodes + ht1.lay.nodes
    }

    /** The finite map that the table stands for. */
    ghost function Model(): map<K, V>
      requires Valid()
      reads this, ht0, ht1, ht0.table, ht1.table, ht0.lay.nodes, ht1.lay.nodes
    {
      map key | key in Entries() :: Entries()[key].value
    }

    ghost function Repr(): set<object>
      reads this, ht0, ht1
    {
      {this, ht0, ht1} + Nodes()
      + (if ht0.table == null then {} else {ht0.table})
      + (if ht1.table == null then {} else {ht1.table})
    }

    /** The number of entries; `int` in the original, which is exact up to `INT_MAX` entries. */
    function Size(): int
      reads ht0, ht1
    {
      ht0.used + ht1.used
    }

    /** How many buckets the migration still has to visit; 0 when none is going on. */
    ghost function Left(): int
      reads this, ht0
    {
      if rehashidx == -1 then 0 else ht0.size - rehashidx
    }

    lemma LeftIsBounded()
      requires Valid()
      ensures 0 <= Left() <= ht0.size && (Left() == 0 <==> rehashidx == -1)
    {
    }

    predicate Empty()
      reads ht0, ht1
    {
      Size() == 0
    }

    /** Every key is on its node, and `Size()` counts the keys. */
    lemma SizeCountsKeys()
      requires Valid()
      ensures Size() == |Entries()| == |Model()|
    {
      ht0.lay.AsManyNodesAsKeys();
      ht1.lay.AsManyNodesAsKeys();
      assert Entries().Keys == ht0.lay.entries.Keys + ht1.lay.entries.Keys;
      assert Model().Keys == Entries().Keys;
    }

    lemma EmptyHasNoKeys()
      requires Valid()
      ensures Empty() <==> Entries() == map[]
      ensures !Empty() ==> ht0.size > 0
    {
      SizeCountsKeys();
    }

    /** A key is in at most one table, and while no migration is going on only in `ht0`. */
    lemma KeyInOneTable(key: K)
      requires Valid()
      ensures !(key in ht0.lay.entries && key in ht1.lay.entries)
      ensures if rehashidx == -1 then ht1.lay.entries == map[] else ht1.size > 0
      ensures ht0 != ht1
    {
      if rehashidx == -1 {
        ht1.NothingIn();
      }
    }

    /** Every entry is in the bucket that the low bits of its hash number, in the table that it is in. */
    lemma FiledByItsBits(key: K)
      requires Valid() && key in Entries()
      ensures
        var ht := if key in ht0.lay.entries then ht0 else ht1;
        var b := And(Trunc32(hash(key)), ht.size - 1);
        b < |ht.lay.chains| == ht.size && Entries()[key] in ht.lay.chains[b]
    {
      var ht := if key in ht0.lay.entries then ht0 else ht1;
      KeyInOneTable(key);
      assert Entries()[key] == ht.lay.entries[key] && ht.lay.entries[key] in ht.lay.chains[ht.lay.Home(key)];
      IndexAgreement(hash(key), ht.size);
    }

    lemma ModelKeys()
      requires Valid()
      ensures Model().Keys == Entries().Keys
      ensures forall key {:trigger Model()[key]} :: key in Model() ==> Model()[key] == Entries()[key].value
    {
    }

    /** Every key's node carries that key, so different keys have different nodes. */
    lemma EntriesCarryKeys()
      requires Valid()
      ensures forall key {:trigger Entries()[key]} :: key in Entries() ==>
          Entries()[key].key == key
            && Entries()[key] in Nodes()
    {
    }

    lemma EntryOf(key: K)
      requires Valid() && key in Entries()
      ensures Entries()[key].key == key && Entries()[key] in Nodes()
    {
    }

    constructor (hash: K -> Word, initial: V)
      ensures Valid() && Entries() == map[] && this.hash == hash && this.initial == initial
      ensures fresh(Repr() - {this}) && Model() == map[]
    {
      hide Layout.Shape, IsTableSize;
      this.hash, this.initial := hash, initial;
      ht0 := new Dictht<K, V>(hash);
      ht1 := new Dictht<K, V>(hash);
      rehashidx := -1;
    }

    /** The bucket of `ht1` that a migrated key moves to: the hash is masked, then truncated. */
    method MigrationIndex(key: K) returns (h: nat)
      requires ht1.Books() && ht1.size > 0 && ht1.lay.filing.hash == hash
      ensures h == ht1.lay.Home(key) < ht1.size
    {
      IndexAgreement(hash(key), ht1.size);
      h := Trunc32(And(hash(key), ht1.sizemask));
    }

    /** Files a node in one table; the other table, well formed but for the slot `skip`, is not affected. */
    method LinkIn(ht: Dictht<K, V>, ghost other: Dictht<K, V>, ghost skip: int, entry: Entry<K, V>, index: nat)
      requires ht.Valid() && other.Books() && other.Links(skip) && ht != other && Apart(ht.lay, other.lay)
      requires ht.size > 0 && (ht.table == null || ht.table != other.table)
      requires entry.key !in ht.lay.entries && entry.key !in other.lay.entries && index == ht.lay.Home(entry.key)
      modifies ht, ht.table, entry`next
      ensures ht.Valid() && other.Books() && other.Links(skip) && Apart(ht.lay, other.lay)
      ensures ht.table == old(ht.table) && ht.size == old(ht.size)
      ensures index < |old(ht.lay.chains)| && ht.lay == old(ht.lay).WithFirst(index, entry)
      ensures ht.used == old(ht.used) + 1
    {
      hide Layout.Shape, Dictht.Links, IsPow2;
      AddKeepsUnion(ht.lay, other.lay, entry);
      ht.Link(entry, index);
      assert other.Books();
      assert other.Links(skip);
    }

    /** Moves the first node `de` of the bucket being migrated to the new table. */
    method MoveHead(de: Entry<K, V>) returns (nextde: Entry?<K, V>)
      requires Tables(rehashidx) && Filed() && 0 <= rehashidx < ht0.size && ht1.size > 0
      requires ht0.lay.chains[rehashidx] != [] && de == ht0.lay.chains[rehashidx][0]
      modifies ht0, ht1, ht1.table, de`next
      ensures Tables(rehashidx)
      ensures ht0.table == old(ht0.table) && ht0.size == old(ht0.size) && ht0.used == old(ht0.used) - 1
      ensures ht1.table == old(ht1.table) && ht1.size == old(ht1.size) && ht1.used == old(ht1.used) + 1
      ensures ht0.lay == old(ht0.lay).Without(rehashidx, 0)
      ensures ht1.lay == old(ht1.lay).WithFirst(old(ht1.lay).Home(de.key), de)
      ensures nextde == At(ht0.lay.chains[rehashidx], 0)
    {
      hide Layout.Shape, Dictht.Links, IsPow2;
      ht0.HeadOf(rehashidx, rehashidx);
      nextde := de.next;
      var h := MigrationIndex(de.key);
      MoveKeepsUnion(ht0.lay, ht1.lay, rehashidx, h);
      ht0.DropHead(rehashidx);
      LinkIn(ht1, ht0, rehashidx, de, h);
    }

    /** One round of the migration loop: nothing that a user can observe changes. */
    method MoveOne(de: Entry<K, V>) returns (nextde: Entry?<K, V>)
      requires Tables(rehashidx) && Filed() && 0 <= rehashidx < ht0.size && ht1.size > 0
      requires ht0.lay.chains[rehashidx] != [] && de == ht0.lay.chains[rehashidx][0]
      modifies ht0, ht1, ht1.table, de`next
      ensures Tables(rehashidx) && Filed()
      ensures ht0.table == old(ht0.table) && ht0.size == old(ht0.size)
      ensures ht1.table == old(ht1.table) && ht1.size == old(ht1.size)
      ensures Size() == old(Size())
      ensures |ht0.lay.chains[rehashidx]| < |old(ht0.lay.chains[rehashidx])|
      ensures nextde == At(ht0.lay.chains[rehashidx], 0)
      ensures Entries() == old(Entries()) && Nodes() == old(Nodes())
      ensures SameFrom(old(ht0.lay.chains), ht0.lay.chains, rehashidx + 1)
    {
      hide Layout.Shape, Dictht.Links, IsPow2;
      MoveKeepsUnion(ht0.lay, ht1.lay, rehashidx, ht1.lay.Home(de.key));
      nextde := MoveHead(de);
    }

    /** Moves every node of the bucket at `rehashidx` to the new table. */
    method MigrateBucket()
      requires Tables(-1) && Filed() && 0 <= rehashidx < ht0.size && ht1.size > 0
      modifies this`rehashidx, ht0, ht1, ht0.table, ht1.table, Nodes()`next
      ensures Tables(-1) && Filed() && rehashidx == old(rehashidx) + 1
      ensures ht0.table == old(ht0.table) && ht0.size == old(ht0.size)
      ensures ht1.table == old(ht1.table) && ht1.size == old(ht1.size)
      ensures Size() == old(Size())
      ensures Entries() == old(Entries()) && Nodes() == old(Nodes())
      ensures SameFrom(old(ht0.lay.chains), ht0.lay.chains, rehashidx)
    {
      hide Layout.Shape, Layout.Linked, IsPow2;
      var de := ht0.table[rehashidx];
      while de != null
        invariant rehashidx == old(rehashidx) && Tables(rehashidx) && Filed()
        invariant ht0.table == old(ht0.table) && ht0.size == old(ht0.size)
        invariant ht1.table == old(ht1.table) && ht1.size == old(ht1.size)
        invariant Size() == old(Size())
        invariant Entries() == old(Entries()) && Nodes() == old(Nodes())
        invariant de == At(ht0.lay.chains[rehashidx], 0)
        invariant SameFrom(old(ht0.lay.chains), ht0.lay.chains, rehashidx + 1)
        decreases |ht0.lay.chains[rehashidx]|
      {
        ht0.HeadOf(rehashidx, rehashidx);
        de := MoveOne(de);
      }
      CloseBucket();
    }

    /** Empties the slot of a bucket whose nodes have all been moved, and goes on to the next. */
    method CloseBucket()
      requires Tables(rehashidx) && Filed() && 0 <= rehashidx < ht0.size && ht0.lay.chains[rehashidx] == []
      modifies this`rehashidx, ht0.table
      ensures Tables(-1) && Filed() && rehashidx == old(rehashidx) + 1 && ht0.lay == old(ht0.lay)
    {
      hide Layout.Shape, Layout.Linked, IsPow2;
      ht0.table[rehashidx] := null;
      rehashidx := rehashidx + 1;
    }

    /** While `ht0` holds entries, some bucket from `rehashidx` on is not empty. */
    lemma SomeBucketAhead() returns (b: nat)
      requires Tables(-1) && Filed() && ht0.used > 0
      ensures rehashidx <= b < ht0.size && ht0.lay.chains[b] != []
    {
      var e :| e in ht0.lay.nodes;
      b := ht0.lay.Home(e.key);
      assert ht0.lay.entries[e.key] in ht0.lay.chains[b];
    }

    /** Advances `rehashidx` over empty buckets, at most `emptyVisits` of them; `left` is 0 when the visits ran out. */
    method SkipEmptyBuckets(emptyVisits: nat) returns (left: nat)
      requires Tables(-1) && Filed() && 0 <= rehashidx && ht0.used > 0 && emptyVisits > 0
      modifies this`rehashidx
      ensures Tables(-1) && Filed() && old(rehashidx) <= rehashidx < ht0.size
      ensures left == emptyVisits - (rehashidx - old(rehashidx))
      ensures forall b :: old(rehashidx) <= b < rehashidx ==> ht0.lay.chains[b] == []
      ensures left > 0 ==> ht0.lay.chains[rehashidx] != []
    {
      hide Layout.Shape, Layout.Linked;
      ghost var b := SomeBucketAhead();
      left := emptyVisits;
      while ht0.table[rehashidx] == null
        invariant Tables(-1) && Filed() && old(rehashidx) <= rehashidx <= b
        invariant left == emptyVisits - (rehashidx - old(rehashidx)) && left > 0
        invariant forall b :: old(rehashidx) <= b < rehashidx ==> ht0.lay.chains[b] == []
        decreases left
      {
        rehashidx := rehashidx + 1;
        left := left - 1;
        if left == 0 {
          return;
        }
      }
    }

    /** Replaces the emptied `ht0` by `ht1`; the clearing of `ht0` deletes no node. */
    method FinishRehash()
      requires Tables(-1) && Filed() && ht0.used == 0
      modifies this`rehashidx, ht0, ht1
      ensures Tables(-1) && Filed() && rehashidx == -1
      ensures ht0.table == old(ht1.table) && ht0.size == old(ht1.size) && ht0.used == old(ht1.used)
      ensures ht1.table == null && ht1.size == 0 && ht1.used == 0
      ensures Entries() == old(Entries()) && Nodes() == old(Nodes())
    {
      hide Layout.Shape, Layout.Linked, SlotsAre, IsPow2;
      ht0.NothingIn();
      ghost var freed := ht0.Clear();
      assert freed == {};
      ht0.Assign(ht1);
      ht1.Reset();
      rehashidx := -1;
    }

    /** Migrates `n` buckets that hold anything, visiting at most `10 * n` empty ones on the way: the buckets before
        `to`. It stops early only when the visits are used up or nothing is left. The nodes, their keys and their values
        are the same before and after; only `next` fields of nodes change. */
    method Rehash(n: nat) returns (more: int, ghost to: nat)
      requires Valid()
      modifies this`rehashidx, ht0, ht1, ht0.table, ht1.table, Nodes()`next
      ensures Valid()
      ensures Entries() == old(Entries()) && Nodes() == old(Nodes())
      ensures Size() == old(Size())
      ensures more == if rehashidx == -1 then 0 else 1
      ensures old(rehashidx) == -1 ==> rehashidx == -1
      ensures rehashidx != -1 ==>
          old(rehashidx) < rehashidx + (if n == 0 then 1 else 0)
            && rehashidx <= old(rehashidx) + 11 * n
      ensures (old(rehashidx) == -1) == (rehashidx == -1) ==>
                ht0.table == old(ht0.table) && ht0.size == old(ht0.size) && ht1.table == old(ht1.table)
                  && ht1.size == old(ht1.size)
      ensures old(rehashidx) != -1 && rehashidx == -1 ==> ht0.table == old(ht1.table) && ht0.size == old(ht1.size)
      ensures old(rehashidx) != -1 ==> Migrated(old(ht0.lay.chains), old(rehashidx), n, to, rehashidx)
    {
      hide Layout.Shape, Layout.Linked, SlotsAre, IsPow2, IsTableSize, Filled, SameFrom, Migrated;
      if rehashidx == -1 {
        return 0, 0;
      }
      ghost var (chains, from) := (ht0.lay.chains, rehashidx);
      var visitsUsedUp := MigrateBuckets(n);
      to := rehashidx;
      FilledIsBounded(chains, from, to);
      if visitsUsedUp {
        StillMigrating(chains, from, n, to);
        return 1, to;
      }
      if ht0.used == 0 {
        NothingLeft(chains, from, n, to);
        FinishedIsPaced(ht0.size, ht1.size, old(ht0.used), old(ht1.used), old(rehashidx));
        FinishRehash();
        return 0, to;
      }
      SomethingLeft(chains, to);
      StillMigrating(chains, from, n, to);
      return 1, to;
    }

    /** The loop over the buckets. */
    method MigrateBuckets(n: nat) returns (visitsUsedUp: bool)
      requires Tables(-1) && Filed() && 0 <= rehashidx && ht1.size > 0
      modifies this`rehashidx, ht0, ht1, ht0.table, ht1.table, Nodes()`next
      ensures Tables(-1) && Filed() && old(rehashidx) <= rehashidx <= ht0.size && |old(ht0.lay.chains)| == ht0.size
      ensures ht0.table == old(ht0.table) && ht0.size == old(ht0.size)
      ensures ht1.table == old(ht1.table) && ht1.size == old(ht1.size)
      ensures Size() == old(Size()) && Entries() == old(Entries()) && Nodes() == old(Nodes())
      ensures SameFrom(old(ht0.lay.chains), ht0.lay.chains, rehashidx)
      ensures
        var (chains, from) := (old(ht0.lay.chains), old(rehashidx));
        var filled := Filled(chains, from, rehashidx);
        && filled <= n && rehashidx - from - filled <= 10 * n
        && (if visitsUsedUp then rehashidx - from - filled == 10 * n && Filled(chains, rehashidx, |chains|) > 0
            else filled == n || ht0.used == 0)
    {
      hide Layout.Shape, Layout.Linked, SlotsAre, IsPow2, IsTableSize, Filled, SameFrom, HashTable.Entries,
          HashTable.Size;
      var m, emptyVisits := n, n * 10;
      ghost var (chains, from) := (ht0.lay.chains, rehashidx);
      NothingMigrated(chains, from);
      while m > 0 && ht0.used != 0
        invariant Tables(-1) && Filed() && from <= rehashidx <= ht0.size
        invariant ht0.table == old(ht0.table) && ht0.size == old(ht0.size)
        invariant ht1.table == old(ht1.table) && ht1.size == old(ht1.size)
        invariant Size() == old(Size()) && Entries() == old(Entries()) && Nodes() == old(Nodes())
        invariant 0 <= m <= n && (emptyVisits > 0 || m == 0 <= emptyVisits)
        invariant rehashidx + emptyVisits == from + 10 * n + (n - m)
        invariant SameFrom(chains, ht0.lay.chains, rehashidx) && Filled(chains, from, rehashidx) == n - m
      {
        m := m - 1;
        emptyVisits := MigrateNext(emptyVisits, chains, from);
        if emptyVisits == 0 {
          return true;
        }
      }
      visitsUsedUp := false;
    }

    lemma NothingMigrated(chains: seq<Chain<K, V>>, from: nat)
      requires chains == ht0.lay.chains && from <= |chains|
      ensures SameFrom(chains, ht0.lay.chains, from) && Filled(chains, from, from) == 0
    {
    }

    lemma NothingLeft(chains: seq<Chain<K, V>>, from: nat, n: nat, to: nat)
      requires ht0.Books() && ht0.used == 0 && SameFrom(chains, ht0.lay.chains, to) && from <= to <= |chains|
      requires Filled(chains, from, to) <= n && to - from - Filled(chains, from, to) <= 10 * n
      ensures Migrated(chains, from, n, to, -1)
    {
      hide Layout.Shape, Filled;
      ht0.NothingIn();
      ht0.lay.NothingFiled();
      NoneLeft(chains, ht0.lay.chains, to, |chains|);
    }

    /** While `ht0` holds entries, some of the buckets from the cursor on are filled. */
    lemma SomethingLeft(chains: seq<Chain<K, V>>, to: nat)
      requires Tables(-1) && Filed() && ht0.used > 0 && to == rehashidx && SameFrom(chains, ht0.lay.chains, to)
      ensures to < |chains| && Filled(chains, to, |chains|) > 0
    {
      hide Layout.Shape, Layout.Linked, Filled;
      var b := SomeBucketAhead();
      SomeFilled(chains, to, |chains|, b);
    }

    /** One round of the loop: some empty buckets are passed over, and then, if there are visits left, one bucket is
        migrated. */
    method MigrateNext(emptyVisits: nat, ghost chains: seq<Chain<K, V>>, ghost from: nat) returns (left: nat)
      requires Tables(-1) && Filed() && from <= rehashidx && ht0.used > 0 && ht1.size > 0 && emptyVisits > 0
      requires SameFrom(chains, ht0.lay.chains, rehashidx) && rehashidx <= |chains|
      modifies this`rehashidx, ht0, ht1, ht0.table, ht1.table, Nodes()`next
      ensures Tables(-1) && Filed() && old(rehashidx) <= rehashidx <= ht0.size && |chains| == |ht0.lay.chains|
      ensures ht0.table == old(ht0.table) && ht0.size == old(ht0.size)
      ensures ht1.table == old(ht1.table) && ht1.size == old(ht1.size)
      ensures Size() == old(Size())
      ensures Entries() == old(Entries()) && Nodes() == old(Nodes())
      ensures SameFrom(chains, ht0.lay.chains, rehashidx)
      ensures Filled(chains, from, rehashidx) == Filled(chains, from, old(rehashidx)) + if left > 0 then 1 else 0
      ensures rehashidx - old(rehashidx) == emptyVisits - left + if left > 0 then 1 else 0
      ensures left == 0 ==> ht0.used == old(ht0.used) && rehashidx < ht0.size && Filled(chains, rehashidx, |chains|) > 0
    {
      hide Layout.Shape, Layout.Linked, SlotsAre, IsPow2, Filled;
      ghost var was := rehashidx;
      left := SkipEmptyBuckets(emptyVisits);
      NoneLeft(chains, ht0.lay.chains, was, rehashidx);
      FilledSplit(chains, from, was, rehashidx);
      SomethingLeft(chains, rehashidx);
      if left > 0 {
        OneFilled(chains, from, rehashidx);
        MigrateBucket();
      }
    }

    /** One step: at most one bucket that holds anything is migrated, and at most ten empty ones are passed over. */
    method RehashStep()
      requires Valid() && rehashidx != -1
      modifies this`rehashidx, ht0, ht1, ht0.table, ht1.table, Nodes()`next
      ensures Valid() && Entries() == old(Entries()) && Nodes() == old(Nodes()) && Model() == old(Model())
      ensures Size() == old(Size())
      ensures {ht0.table, ht1.table} <= {old(ht0.table), old(ht1.table), null} && Repr() <= old(Repr())
      ensures OneStep(old(ht0.lay.chains), old(rehashidx), rehashidx)
      // every step completes the migration or moves on by up to eleven buckets
      ensures rehashidx == -1 || old(rehashidx) < rehashidx <= old(rehashidx) + 11
      ensures ht0.size > 0 && (rehashidx != -1 ==> Roomy(ht0.size, ht1.size, ht0.used, ht1.used, rehashidx))
      ensures Left() < old(Left())
      // and a table just migrated is far from full
      ensures rehashidx == -1 ==> ht0.used < ht0.size
    {
      hide Layout.Shape, Layout.Linked, SlotsAre, IsPow2, IsTableSize, Migrated;
      FinishedIsFarFromFull(ht0.size, ht1.size, ht0.used, ht1.used, rehashidx);
      var more, to := Rehash(1);
    }

    /** The step that most calls begin with. */
    method StepIfMigrating()
      requires Valid() && ht0.size > 0
      modifies this`rehashidx, ht0, ht1, ht0.table, ht1.table, Nodes()`next
      ensures Valid() && Entries() == old(Entries()) && Nodes() == old(Nodes()) && Model() == old(Model())
      ensures Size() == old(Size()) && Repr() <= old(Repr()) && ht0.size > 0
      ensures {ht0.table, ht1.table} <= {old(ht0.table), old(ht1.table), null}
      ensures Left() <= old(Left()) && (old(rehashidx) != -1 ==> Left() < old(Left()))
      ensures old(rehashidx) != -1 ==> OneStep(old(ht0.lay.chains), old(rehashidx), rehashidx)
    {
      hide HashTable.Valid, HashTable.Repr, HashTable.Nodes, HashTable.Model, HashTable.Size, HashTable.Left, OneStep;
      if rehashidx != -1 {
        RehashStep();
      }
    }

    /** Replaces an empty table, or starts a migration to a larger one. */
    method Expand(size: Word) returns (r: int)
      requires Tables(-1) && Filed() && size <= TWO_TO_THE_31 && rehashidx >= -1
      requires rehashidx == -1 ==> ht1.size == 0
      modifies this`rehashidx, ht0, ht1
      ensures Tables(-1) && Filed()
      ensures Entries() == old(Entries()) && Nodes() == old(Nodes())
      ensures ht0.used == old(ht0.used) && ht1.used == old(ht1.used)
      ensures r == DICT_OK || r == DICT_ERR
      ensures r == DICT_ERR ==> unchanged(this) && unchanged(ht0) && unchanged(ht1)
      ensures forall i: nat | IsNextPower(size, i) ::
        && (r == DICT_ERR <==> old(rehashidx) != -1 || old(ht0.used) > size || i == old(ht0.size))
        && (r == DICT_OK && old(ht0.size) == 0 ==>
            rehashidx == -1 && ht0.size == i && unchanged(ht1)
              && fresh(ht0.table))
        && (r == DICT_OK && old(ht0.size) != 0 ==>
            rehashidx == 0 && ht1.size == i && unchanged(ht0)
              && fresh(ht1.table))
    {
      var realsize := NextPower(size);
      if rehashidx != -1 || ht0.used > size {
        return DICT_ERR;
      }
      if realsize == ht0.size {
        return DICT_ERR;
      }
      NextPowerIsBounded(size, realsize);
      if ht0.table == null {
        AllocateFirst(realsize);
      } else {
        AllocateSecond(realsize);
      }
      return DICT_OK;
    }

    /** The first allocation. */
    method AllocateFirst(realsize: nat)
      requires Tables(-1) && Filed() && rehashidx == -1 && ht0.table == null && IsPow2(realsize)
        && realsize <= TWO_TO_THE_31
      modifies ht0
      ensures Tables(-1) && Filed() && ht0.size == realsize && fresh(ht0.table) && ht0.used == old(ht0.used)
      ensures Entries() == old(Entries()) && Nodes() == old(Nodes())
    {
      hide Layout.Linked, IsPow2;
      ht0.Allocate(realsize);
    }

    /** The beginning of a migration. */
    method AllocateSecond(realsize: nat)
      requires Tables(-1) && Filed() && rehashidx == -1 && ht0.size > 0 && ht1.size == 0
      requires IsPow2(realsize) && realsize <= TWO_TO_THE_31
      modifies this`rehashidx, ht1
      ensures Tables(-1) && Filed() && rehashidx == 0
      ensures ht1.size == realsize && fresh(ht1.table) && ht1.used == old(ht1.used)
      ensures Entries() == old(Entries()) && Nodes() == old(Nodes())
    {
      hide Layout.Linked, IsPow2;
      ht1.Allocate(realsize);
      rehashidx := 0;
    }

    /** Never fails, and leaves room for one more entry. */
    method ExpandIfNeeded() returns (r: int)
      requires Valid() && Size() < INT_MAX
      requires rehashidx != -1 ==> Roomy(ht0.size, ht1.size, ht0.used, ht1.used, rehashidx)
      modifies this`rehashidx, ht0, ht1
      ensures r == DICT_OK
      ensures Valid() && Entries() == old(Entries()) && Nodes() == old(Nodes()) && Model() == old(Model())
      ensures Roomy(ht0.size, ht1.size, ht0.used, ht1.used, rehashidx)
      ensures ht0.used == old(ht0.used) && ht1.used == old(ht1.used)
      ensures ht0.table == old(ht0.table) || fresh(ht0.table)
      ensures ht1.table == old(ht1.table) || fresh(ht1.table)
      // the first table has four buckets, and a migration starts exactly when the load factor is exceeded
      ensures old(ht0.size) == 0 ==> ht0.size == HASHTABLE_INIT_SIZE
      ensures old(rehashidx) == -1 ==>
          (rehashidx != -1 <==> old(ht0.size) > 0 && old(ht0.used) / old(ht0.size) > MAX_LOAD_FACTOR)
      ensures old(rehashidx) != -1 || old(ht0.used < ht0.size) ==> Left() == old(Left()) && rehashidx == old(rehashidx)
    {
      hide Layout.Shape, Layout.Linked, SlotsAre, IsPow2, IsNextPower, IsTableSize;
      if rehashidx != -1 {
        return DICT_OK;
      }
      if ht0.size == 0 {
        ghost var i := NextPowerExists(HASHTABLE_INIT_SIZE);
        InitialSize(i);
        r := Expand(HASHTABLE_INIT_SIZE);
        return;
      }
      LoadFactor(ht0.used, ht0.size);
      if ht0.used / ht0.size > MAX_LOAD_FACTOR {
        assert ht0.used == 6 * ht0.size;
        ghost var i := NextPowerExists(ht0.used * 2);
        FullTableIsSmall(ht0.size);
        GrowthIsSixteenfold(ht0.size, i);
        r := Expand(ht0.used * 2);
        return;
      }
      return DICT_OK;
    }

    /** The bucket of a table that a looked-up key belongs to: the hash is truncated, then masked. */
    method LookupIndex(ht: Dictht<K, V>, key: K) returns (idx: nat)
      requires ht.Books() && ht.size > 0 && ht.lay.filing.hash == hash
      ensures idx == ht.lay.Home(key) < ht.size
    {
      IndexAgreement(hash(key), ht.size);
      idx := And(Trunc32(hash(key)), ht.sizemask);
    }

    /** Searches both tables for a key; `idx` is its bucket in the last table searched. */
    method Search(key: K) returns (he: Entry?<K, V>, idx: nat)
      requires Valid() && ht0.size > 0
      ensures he == null <==> key !in Entries()
      ensures he != null ==> he == Entries()[key]
      ensures he == null ==> idx == (if rehashidx == -1 then ht0 else ht1).lay.Home(key)
    {
      hide Layout.Shape, Dictht.Links, IsPow2, IsTableSize;
      if rehashidx == -1 {
        ht1.NothingIn();
      }
      he, idx := null, 0;
      for t := 0 to 2
        invariant t > 0 ==> he == null && rehashidx != -1 && key !in ht0.lay.entries
        invariant t > 1 ==> key !in ht1.lay.entries && idx == ht1.lay.Home(key)
      {
        var ht := if t == 0 then ht0 else ht1;
        idx := LookupIndex(ht, key);
        he := ht.Find(key, idx);
        if he != null || rehashidx == -1 {
          return;
        }
      }
    }

    /** The bucket of a new key, or -1 when the key is already there, in `existing`. */
    method KeyIndex(key: K) returns (index: int, existing: Entry?<K, V>)
      requires Valid() && Size() < INT_MAX
      requires rehashidx != -1 ==> Roomy(ht0.size, ht1.size, ht0.used, ht1.used, rehashidx)
      modifies this`rehashidx, ht0, ht1
      ensures Valid() && Entries() == old(Entries()) && Nodes() == old(Nodes()) && Model() == old(Model())
      ensures Roomy(ht0.size, ht1.size, ht0.used, ht1.used, rehashidx)
      ensures ht0.table == old(ht0.table) || fresh(ht0.table)
      ensures ht1.table == old(ht1.table) || fresh(ht1.table)
      ensures index == -1 <==> key in Entries()
      ensures index == -1 ==> existing == Entries()[key]
      ensures index != -1 ==> existing == null && index == (if rehashidx == -1 then ht0 else ht1).lay.Home(key)
      ensures ht0.used == old(ht0.used) && ht1.used == old(ht1.used)
      ensures old(rehashidx) != -1 || old(ht0.used < ht0.size) ==> Left() == old(Left()) && rehashidx == old(rehashidx)
    {
      hide HashTable.Valid, Paced;
      var r := ExpandIfNeeded();
      if r == DICT_ERR {
        return -1, null;
      }
      var idx;
      existing, idx := Search(key);
      index := if existing == null then idx else -1;
    }

    /** The part of an insertion before the new node exists: a migration step, growth, and the search for the key. */
    method FindPlace(key: K) returns (index: int, existing: Entry?<K, V>)
      requires Valid() && Size() < INT_MAX
      modifies this`rehashidx, ht0, ht1, ht0.table, ht1.table, Nodes()`next
      ensures Valid() && Entries() == old(Entries()) && Nodes() == old(Nodes()) && Model() == old(Model())
      ensures Size() == old(Size())
      ensures Roomy(ht0.size, ht1.size, ht0.used, ht1.used, rehashidx)
      ensures ht0.table in {old(ht0.table), old(ht1.table), null} || fresh(ht0.table)
      ensures ht1.table in {old(ht0.table), old(ht1.table), null} || fresh(ht1.table)
      ensures index == -1 <==> key in Entries()
      ensures index == -1 ==> existing == Entries()[key]
      ensures index != -1 ==> existing == null && index == (if rehashidx == -1 then ht0 else ht1).lay.Home(key)
      ensures old(rehashidx) != -1 ==> Left() < old(Left())
      ensures old(rehashidx) != -1 ==> OneStep(old(ht0.lay.chains), old(rehashidx), rehashidx)
    {
      hide HashTable.Tables, HashTable.Filed, Paced, HashTable.Model, OneStep;
      if rehashidx != -1 {
        RehashStep();
      }
      index, existing := KeyIndex(key);
    }

    /** A new node for a key that is not in the table; otherwise null and the key's node. */
    method InsertRaw(key: K) returns (entry: Entry?<K, V>, existing: Entry?<K, V>)
      requires Valid() && Size() < INT_MAX
      modifies this`rehashidx, ht0, ht1, ht0.table, ht1.table, Nodes()`next
      ensures Valid()
      ensures fresh(Repr() - old(Repr()))
      ensures entry == null <==> key in old(Entries())
      ensures entry == null ==>
          existing == old(Entries())[key] && Entries() == old(Entries())
            && Nodes() == old(Nodes())
      ensures Model() == if entry == null then old(Model()) else old(Model())[key := initial]
      ensures entry != null ==> fresh(entry) && entry.key == key && entry.value == initial
      ensures entry != null ==> Entries() == old(Entries())[key := entry] && Nodes() == old(Nodes()) + {entry}
      ensures Size() == old(Size()) + if entry == null then 0 else 1
      ensures old(rehashidx) != -1 ==> Left() < old(Left())
      ensures old(rehashidx) != -1 ==> OneStep(old(ht0.lay.chains), old(rehashidx), rehashidx)
    {
      hide HashTable.Valid, HashTable.Tables, HashTable.Filed, Paced, Roomy, HashTable.Model, HashTable.Size,
          HashTable.Entries, HashTable.Left, OneStep;
      var index;
      index, existing := FindPlace(key);
      if index == -1 {
        return null, existing;
      }
      entry := AddNew(key, index);
    }

    /** Allocates a node for a key and files it. */
    method AddNew(key: K, index: nat) returns (entry: Entry<K, V>)
      requires Valid() && Roomy(ht0.size, ht1.size, ht0.used, ht1.used, rehashidx)
      requires key !in Entries() && index == (if rehashidx == -1 then ht0 else ht1).lay.Home(key)
      modifies ht0, ht1, ht0.table, ht1.table
      ensures Valid() && fresh(entry) && entry.key == key && entry.value == initial
      ensures Entries() == old(Entries())[key := entry] && Nodes() == old(Nodes()) + {entry}
      ensures Model() == old(Model())[key := initial]
      ensures ht0.table == old(ht0.table) && ht1.table == old(ht1.table)
      ensures Size() == old(Size()) + 1
      ensures Left() == old(Left())
    {
      hide HashTable.Valid, HashTable.Tables, HashTable.Filed, Paced, Roomy, HashTable.Model, HashTable.Repr;
      entry := new Entry(key, initial);
      Add(entry, index);
    }

    /** Files a new node in the table that takes insertions. */
    method Add(entry: Entry<K, V>, index: nat)
      requires Valid() && Roomy(ht0.size, ht1.size, ht0.used, ht1.used, rehashidx)
      requires entry.key !in Entries() && index == (if rehashidx == -1 then ht0 else ht1).lay.Home(entry.key)
      modifies ht0, ht1, ht0.table, ht1.table, entry`next
      ensures Valid() && Entries() == old(Entries())[entry.key := entry] && Nodes() == old(Nodes()) + {entry}
      ensures Model() == old(Model())[entry.key := entry.value]
      ensures ht0.table == old(ht0.table) && ht1.table == old(ht1.table)
      ensures Size() == old(Size()) + 1
      ensures Left() == old(Left())
    {
      hide HashTable.Valid, Roomy, HashTable.Size, HashTable.Left, OneStep, HashTable.Nodes;
      if rehashidx != -1 {
        AddToNew(entry, index);
      } else {
        AddToOld(entry, index);
      }
    }

    /** Files a new node in `ht0`, which takes insertions while no migration is going on. */
    method AddToOld(entry: Entry<K, V>, index: nat)
      requires Valid() && Roomy(ht0.size, ht1.size, ht0.used, ht1.used, rehashidx)
      requires rehashidx == -1 && entry.key !in Entries() && index == ht0.lay.Home(entry.key)
      modifies ht0, ht0.table, entry`next
      ensures Valid() && Entries() == old(Entries())[entry.key := entry] && Nodes() == old(Nodes()) + {entry}
      ensures ht0.table == old(ht0.table) && ht1.table == old(ht1.table)
      ensures Size() == old(Size()) + 1
      ensures Left() == old(Left())
    {
      hide Dictht.Books, Dictht.Links;
      LinkIn(ht0, ht1, -1, entry, index);
    }

    /** Files a new node in `ht1`, which takes insertions during a migration. */
    method AddToNew(entry: Entry<K, V>, index: nat)
      requires Valid() && Roomy(ht0.size, ht1.size, ht0.used, ht1.used, rehashidx)
      requires rehashidx != -1 && entry.key !in Entries() && index == ht1.lay.Home(entry.key)
      modifies ht1, ht1.table, entry`next
      ensures Valid() && Entries() == old(Entries())[entry.key := entry] && Nodes() == old(Nodes()) + {entry}
      ensures ht0.table == old(ht0.table) && ht1.table == old(ht1.table)
      ensures Size() == old(Size()) + 1
      ensures Left() == old(Left())
    {
      hide Dictht.Books, Dictht.Links;
      LinkIn(ht1, ht0, -1, entry, index);
    }

    /** Inserts a new entry, or reports `DICT_ERR` and changes nothing when the key is there. */
    method Insert(key: K, val: V) returns (r: int)
      requires Valid() && Size() < INT_MAX
      modifies this`rehashidx, ht0, ht1, ht0.table, ht1.table, Nodes()`next
      ensures Valid() && fresh(Repr() - old(Repr()))
      ensures r == if key in old(Model()) then DICT_ERR else DICT_OK
      ensures Model() == if key in old(Model()) then old(Model()) else old(Model())[key := val]
      ensures Size() == old(Size()) + if r == DICT_OK then 1 else 0
      ensures forall k :: k in old(Entries()) ==> k in Entries() && Entries()[k] == old(Entries())[k]
      ensures old(rehashidx) != -1 ==> Left() < old(Left())
      ensures old(rehashidx) != -1 ==> OneStep(old(ht0.lay.chains), old(rehashidx), rehashidx)
    {
      hide HashTable.Valid, HashTable.Model, HashTable.Repr, HashTable.Size, HashTable.Nodes, HashTable.Entries,
          HashTable.Left, OneStep;
      ModelKeys();
      var entry, _ := InsertRaw(key);
      if entry == null {
        return DICT_ERR;
      }
      SetValue(entry, val);
      return DICT_OK;
    }

    /** Writing through a key's node changes that key's value alone. */
    method SetValue(entry: Entry<K, V>, val: V)
      requires Valid() && entry.key in Entries() && Entries()[entry.key] == entry
      modifies entry`value
      ensures Valid() && Model() == old(Model())[entry.key := val]
      ensures Repr() == old(Repr()) && Entries() == old(Entries()) && Size() == old(Size()) && Left() == old(Left())
    {
      hide HashTable.Valid, HashTable.Nodes;
      EntriesCarryKeys();
      entry.value := val;
    }

    /** `operator[]`: the node of the key, a new one with the initial value when the key is not there.
        The value is read and written through the node, which later operations leave in place. */
    method Subscript(key: K) returns (e: Entry<K, V>)
      requires Valid() && Size() < INT_MAX
      modifies this`rehashidx, ht0, ht1, ht0.table, ht1.table, Nodes()`next
      ensures Valid() && fresh(Repr() - old(Repr()))
      ensures key in Entries() && e == Entries()[key] && e.key == key && e in Nodes()
      ensures key in Model() && e.value == Model()[key]
      ensures Model() == if key in old(Model()) then old(Model()) else old(Model())[key := initial]
      ensures Size() == old(Size()) + if key in old(Model()) then 0 else 1
      ensures forall k :: k in old(Entries()) ==> k in Entries() && Entries()[k] == old(Entries())[k]
      ensures old(rehashidx) != -1 ==> Left() < old(Left())
      ensures old(rehashidx) != -1 ==> OneStep(old(ht0.lay.chains), old(rehashidx), rehashidx)
    {
      hide HashTable.Valid, HashTable.Model;
      ModelKeys();
      var entry, existing := InsertRaw(key);
      e := if entry == null then existing else entry;
      EntryOf(key);
      ModelKeys();
    }

    /** Looks a key up; the migration step it makes changes nothing that can be observed. */
    method Exist(key: K) returns (found: bool)
      requires Valid() && Size() <= INT_MAX
      modifies this`rehashidx, ht0, ht1, ht0.table, ht1.table, Nodes()`next
      ensures Valid() && Repr() <= old(Repr())
      ensures Entries() == old(Entries()) && Model() == old(Model())
      ensures found <==> key in Model()
      ensures Size() == old(Size())
      ensures Left() <= old(Left()) && (old(rehashidx) != -1 && !old(Empty()) ==> Left() < old(Left()))
      ensures old(rehashidx) != -1 && !old(Empty()) ==> OneStep(old(ht0.lay.chains), old(rehashidx), rehashidx)
    {
      hide HashTable.Valid, HashTable.Repr, HashTable.Nodes, HashTable.Left, OneStep, HashTable.Model,
          HashTable.Entries,
          HashTable.Size;
      EmptyHasNoKeys();
      ModelKeys();
      if Empty() {
        return false;
      }
      found := Present(key);
      ModelKeys();
    }

    /** The search in a table that is not empty. */
    method Present(key: K) returns (found: bool)
      requires Valid() && ht0.size > 0
      modifies this`rehashidx, ht0, ht1, ht0.table, ht1.table, Nodes()`next
      ensures Valid() && Repr() <= old(Repr())
      ensures Entries() == old(Entries()) && Model() == old(Model()) && Size() == old(Size())
      ensures found <==> key in Entries()
      ensures Left() <= old(Left()) && (old(rehashidx) != -1 ==> Left() < old(Left()))
      ensures old(rehashidx) != -1 ==> OneStep(old(ht0.lay.chains), old(rehashidx), rehashidx)
    {
      hide HashTable.Valid, HashTable.Repr, HashTable.Model, HashTable.Left, OneStep, HashTable.Size;
      StepIfMigrating();
      var he, _ := Search(key);
      found := he != null;
    }

    /** Unlinks and frees a key's node in one table; the other table is not affected. */
    method UnlinkIn(ht: Dictht<K, V>, ghost other: Dictht<K, V>, key: K) returns (found: bool)
      requires ht.Valid() && other.Valid() && ht != other && Apart(ht.lay, other.lay)
      requires ht.size > 0 && (ht.table == null || ht.table != other.table) && ht.lay.filing.hash == hash
      modifies ht, ht.table, ht.lay.nodes`next
      ensures ht.Valid() && other.Valid() && Apart(ht.lay, other.lay)
      ensures ht.table == old(ht.table) && ht.size == old(ht.size) && ht.lay.filing == old(ht.lay.filing)
      ensures |ht.lay.chains| == |old(ht.lay.chains)|
      ensures forall b {:trigger ht.lay.chains[b]} :: 0 <= b < |ht.lay.chains| && old(ht.lay.chains)[b] == [] ==>
          ht.lay.chains[b] == []
      ensures found <==> key in old(ht.lay.entries)
      ensures ht.lay.entries == old(ht.lay.entries) - {key} && ht.lay.nodes <= old(ht.lay.nodes)
      ensures ht.used == old(ht.used) - if found then 1 else 0
    {
      hide Layout.Shape, Dictht.Links, IsPow2;
      ghost var l, j := ht.lay, 0;
      var idx := LookupIndex(ht, key);
      found, j := ht.Unlink(key, idx);
      if found {
        l.EntryOf(key);
      } else {
        assert l.entries == l.entries - {key};
      }
      assert other.Books();
      assert other.Links(-1);
    }

    /** Unlinks and frees the key's node in `ht0`, if it is there. */
    method EraseFromOld(key: K) returns (found: bool)
      requires Valid() && ht0.size > 0
      modifies ht0, ht0.table, ht0.lay.nodes`next
      ensures Valid() && ht0.table == old(ht0.table) && ht1.table == old(ht1.table)
      ensures found <==> key in old(ht0.lay.entries)
      ensures ht0.lay.entries == old(ht0.lay.entries) - {key} && ht0.lay.nodes <= old(ht0.lay.nodes)
      ensures Size() == old(Size()) - if found then 1 else 0
      ensures Left() == old(Left())
    {
      hide Dictht.Books, Dictht.Links;
      found := UnlinkIn(ht0, ht1, key);
    }

    /** Unlinks and frees the key's node in `ht1`, if it is there. */
    method EraseFromNew(key: K) returns (found: bool)
      requires Valid() && ht1.size > 0
      modifies ht1, ht1.table, ht1.lay.nodes`next
      ensures Valid() && ht0.table == old(ht0.table) && ht1.table == old(ht1.table)
      ensures found <==> key in old(ht1.lay.entries)
      ensures ht1.lay.entries == old(ht1.lay.entries) - {key} && ht1.lay.nodes <= old(ht1.lay.nodes)
      ensures Size() == old(Size()) - if found then 1 else 0
      ensures Left() == old(Left())
    {
      hide Dictht.Books, Dictht.Links;
      found := UnlinkIn(ht1, ht0, key);
    }

    /** Removes a key, if it is there; every other key keeps its node and its value. */
    method Erase(key: K)
      requires Valid()
      modifies this`rehashidx, ht0, ht1, ht0.table, ht1.table, Nodes()`next
      ensures Valid() && Repr() <= old(Repr())
      ensures Entries() == old(Entries()) - {key}
      ensures Model() == old(Model()) - {key}
      ensures Size() == old(Size()) - if key in old(Model()) then 1 else 0
      ensures Left() <= old(Left()) && (old(rehashidx) != -1 && !old(Empty()) ==> Left() < old(Left()))
      ensures old(rehashidx) != -1 && !old(Empty()) ==> OneStep(old(ht0.lay.chains), old(rehashidx), rehashidx)
    {
      hide HashTable.Valid, HashTable.Model;
      EmptyHasNoKeys();
      ModelKeys();
      if ht0.used == 0 && ht1.used == 0 {
        assert Entries() - {key} == Entries() && Model() - {key} == Model();
        return;
      }
      StepIfMigrating();
      EraseStored(key);
    }

    method EraseStored(key: K)
      requires Valid() && ht0.size > 0
      modifies ht0, ht1, ht0.table, ht1.table, Nodes()`next
      ensures Valid() && Entries() == old(Entries()) - {key} && Model() == old(Model()) - {key}
      ensures Nodes() <= old(Nodes()) && ht0.table == old(ht0.table) && ht1.table == old(ht1.table)
      ensures Size() == old(Size()) - if key in old(Entries()) then 1 else 0
      ensures Left() == old(Left())
    {
      hide HashTable.Valid;
      EraseFromTables(key);
    }

    /** Searches `ht0` and then, during a migration, `ht1`. */
    method EraseFromTables(key: K)
      requires Valid() && ht0.size > 0
      modifies ht0, ht1, ht0.table, ht1.table, Nodes()`next
      ensures Valid() && Entries() == old(Entries()) - {key}
      ensures Nodes() <= old(Nodes()) && ht0.table == old(ht0.table) && ht1.table == old(ht1.table)
      ensures Size() == old(Size()) - if key in old(Entries()) then 1 else 0
      ensures Left() == old(Left())
    {
      hide HashTable.Valid;
      KeyInOneTable(key);
      var found := EraseFromOld(key);
      KeyInOneTable(key);
      if found || rehashidx == -1 {
        return;
      }
      found := EraseFromNew(key);
    }

    /** Frees everything. */
    method Clear()
      requires Valid()
      modifies this`rehashidx, ht0, ht1
      ensures Valid() && Repr() <= old(Repr()) && Model() == map[] && Size() == 0 && rehashidx == -1
    {
      hide Layout.Shape, Layout.Linked, SlotsAre, IsPow2, IsTableSize;
      ghost var freed0 := ht0.Clear();
      ghost var freed1 := ht1.Clear();
      assert freed0 + freed1 == old(Nodes());
      rehashidx := -1;
    }

    /** The chain that a random number selects in the present state. */
    ghost function Drawn(draw: nat): Chain<K, V>
      requires Valid() && ht0.size > 0
      reads this, ht0, ht1, ht0.table, ht1.table, ht0.lay.nodes`next, ht1.lay.nodes`next
    {
      DrawnChain(ht0.lay, ht1.lay, rehashidx, draw)
    }

    ghost function Range(): int
      reads this, ht0, ht1
    {
      DrawRange(ht0.size, ht1.size, rehashidx)
    }

    /** None of the random numbers selects a bucket that holds anything. */
    ghost predicate Misses(draws: seq<nat>)
      requires Valid()
      reads this, ht0, ht1, ht0.table, ht1.table, ht0.lay.nodes`next, ht1.lay.nodes`next
    {
      ht0.size == 0 || forall draw :: draw in draws ==> Drawn(draw) == []
    }

    /** The node that random numbers select in the present state: the first of `draws` that hits a bucket which is not
        empty chooses the bucket, and `pick` the position in its chain. */
    ghost function Selected(draws: seq<nat>, pick: nat): (e: Entry?<K, V>)
      requires Valid()
      reads this, ht0, ht1, ht0.table, ht1.table, ht0.lay.nodes`next, ht1.lay.nodes`next
      ensures e == null <==> Misses(draws)
    {
      if ht0.size == 0 || draws == [] then null
      else
        var chain := Drawn(draws[0]);
        if chain != [] then chain[pick % |chain|] else Selected(draws[1..], pick)
    }

    /** The head of the bucket that a random number selects. */
    method DrawHead(draw: nat) returns (he: Entry?<K, V>, ghost chain: Chain<K, V>)
      requires Valid() && ht0.size > 0
      ensures chain == Drawn(draw) && he == At(chain, 0) && ChainLinked(chain)
      ensures forall e {:trigger e in chain} :: e in chain ==> e.key in Entries() && Entries()[e.key] == e
    {
      hide Layout.Shape, Dictht.Links, IsTableSize;
      chain := Drawn(draw);
      if rehashidx != -1 {
        var h := rehashidx + draw % (ht0.size + ht1.size - rehashidx);
        if h >= ht0.size {
          ht1.BucketOf(h - ht0.size);
          he := ht1.table[h - ht0.size];
        } else {
          ht0.BucketOf(h);
          he := ht0.table[h];
        }
      } else {
        var h := And(draw, ht0.sizemask);
        MaskIsRemainder(draw, ht0.size);
        ht0.BucketOf(h);
        he := ht0.table[h];
      }
    }

    /** Picks a live entry: `draws` are the random numbers of the retries, in order, and `pick` the
        one that chooses within the chain. Null when the table is empty or the draws run out. */
    method GetRandomEntry(draws: seq<nat>, pick: nat) returns (he: Entry?<K, V>)
      requires Valid() && Size() <= INT_MAX
      modifies this`rehashidx, ht0, ht1, ht0.table, ht1.table, Nodes()`next
      ensures Valid() && Repr() <= old(Repr())
      ensures Entries() == old(Entries()) && Model() == old(Model()) && Size() == old(Size())
      ensures he == if Model() == map[] then null else Selected(draws, pick)
      ensures he != null ==> he.key in Entries() && Entries()[he.key] == he
      ensures he != null ==> he.key in Model() && he.value == Model()[he.key]
      ensures Left() <= old(Left()) && (old(rehashidx) != -1 && !old(Empty()) ==> Left() < old(Left()))
      ensures old(rehashidx) != -1 && !old(Empty()) ==> OneStep(old(ht0.lay.chains), old(rehashidx), rehashidx)
    {
      hide HashTable.Valid, HashTable.Repr, HashTable.Nodes, HashTable.Model, HashTable.Selected, HashTable.Misses,
          HashTable.Drawn, HashTable.Left, OneStep, HashTable.Entries;
      EmptyHasNoKeys();
      ModelKeys();
      if Size() == 0 {
        return null;
      }
      he := DrawLiveEntry(draws, pick);
      ModelKeys();
    }

    /** The pick from a table that is not empty. */
    method DrawLiveEntry(draws: seq<nat>, pick: nat) returns (he: Entry?<K, V>)
      requires Valid() && ht0.size > 0
      modifies this`rehashidx, ht0, ht1, ht0.table, ht1.table, Nodes()`next
      ensures Valid() && Repr() <= old(Repr())
      ensures Entries() == old(Entries()) && Model() == old(Model()) && Size() == old(Size())
      ensures he == Selected(draws, pick)
      ensures he != null ==> he.key in Entries() && Entries()[he.key] == he
      ensures Left() <= old(Left()) && (old(rehashidx) != -1 ==> Left() < old(Left()))
      ensures old(rehashidx) != -1 ==> OneStep(old(ht0.lay.chains), old(rehashidx), rehashidx)
    {
      hide HashTable.Valid, HashTable.Repr, HashTable.Model, HashTable.Selected, HashTable.Misses, HashTable.Drawn,
          HashTable.Left, OneStep, HashTable.Size;
      StepIfMigrating();
      he := DrawEntry(draws, pick);
    }

    /** The retry loop: draws buckets until one is not empty. */
    method DrawEntry(draws: seq<nat>, pick: nat) returns (he: Entry?<K, V>)
      requires Valid() && ht0.size > 0
      ensures he == Selected(draws, pick)
      ensures he != null ==> he.key in Entries() && Entries()[he.key] == he
    {
      hide Layout.Shape, Layout.Linked, IsTableSize, IsPow2, DrawnChain, HashTable.Drawn, HashTable.Misses;
      for i := 0 to |draws|
        invariant Valid() && ht0.size > 0
        invariant Selected(draws, pick) == Selected(draws[i..], pick)
      {
        ghost var chain;
        he, chain := DrawHead(draws[i]);
        if he != null {
          he := PickFromChain(he, chain, pick);
          assert he in chain;
          return;
        }
      }
      he := null;
    }

    lemma SelectsAtOnce(draw: nat, pick: nat)
      requires Valid() && ht0.size > 0 && Drawn(draw) != []
      ensures Selected([draw], pick) == Drawn(draw)[pick % |Drawn(draw)|]
    {
      hide HashTable.Valid, HashTable.Drawn, HashTable.Misses;
    }

    /** Every live entry is somewhere in the chain that some number selects. */
    lemma EveryEntryIsAhead(key: K) returns (draw: nat, position: nat)
      requires Valid() && Size() <= INT_MAX && key in Entries()
      ensures ht0.size > 0 && draw <= INT_MAX && position <= INT_MAX && draw < Range()
      ensures position < |Drawn(draw)| && Drawn(draw)[position] == Entries()[key]
    {
      hide Dictht.Links, IsTableSize, IsPow2, Layout.Shape, DrawnChain;
      var ht := if key in ht1.lay.entries then ht1 else ht0;
      var b;
      b, position := EntryPosition(ht.lay, key);
      if rehashidx == -1 {
        draw := b;
      } else if ht == ht1 {
        draw := ht0.size + b - rehashidx;
      } else {
        draw := b - rehashidx;
      }
      DrawsBucket(ht0.lay, ht1.lay, rehashidx, draw);
    }

    /** Every live entry is a possible result, of numbers in the range of `random()`. */
    lemma EveryEntryCanBeDrawn(key: K) returns (draw: nat, pick: nat)
      requires Valid() && Size() <= INT_MAX && key in Entries()
      ensures ht0.size > 0 && draw <= INT_MAX && pick <= INT_MAX
      ensures Drawn(draw) != [] && Selected([draw], pick) == Entries()[key]
    {
      hide HashTable.Valid, HashTable.Size, HashTable.Entries, HashTable.Drawn, HashTable.Selected;
      draw, pick := EveryEntryIsAhead(key);
      SelectsAtOnce(draw, pick);
      SmallModulus(pick, |Drawn(draw)|);
    }

    /** So it is among any numbers in a row that go once through the buckets and then once through the chain. */
    lemma EveryEntryIsDrawnAgain(key: K, n: nat, m: nat) returns (draw: nat, pick: nat)
      requires Valid() && Size() <= INT_MAX && key in Entries()
      ensures ht0.size > 0 && n <= draw < n + Range() && Drawn(draw) != [] && m <= pick < m + |Drawn(draw)|
      ensures Selected([draw], pick) == Entries()[key]
    {
      hide HashTable.Size, HashTable.Entries, HashTable.Selected, Layout.Shape, Dictht.Links, IsTableSize, IsPow2;
      var d, position := EveryEntryIsAhead(key);
      draw := RemainderInWindow(n, Range(), d);
      SmallModulus(d, Range());
      assert Drawn(draw) == Drawn(d);
      pick := RemainderInWindow(m, |Drawn(draw)|, position);
      SelectsAtOnce(draw, pick);
    }

    /** The first number that hits decides, whatever numbers come after it. */
    lemma {:induction false} FirstHitDecides(draws: seq<nat>, i: nat, pick: nat)
      requires Valid() && ht0.size > 0 && i < |draws| && Drawn(draws[i]) != []
      requires forall j :: 0 <= j < i ==> Drawn(draws[j]) == []
      ensures Selected(draws, pick) == Drawn(draws[i])[pick % |Drawn(draws[i])|]
    {
      hide HashTable.Valid, HashTable.Drawn, HashTable.Misses;
      if i > 0 {
        FirstHitDecides(draws[1..], i - 1, pick);
      }
    }

    /** A retry loop that goes through the whole range of `random()` ends with an entry. */
    lemma ExhaustiveDrawsHit(draws: seq<nat>)
      requires Valid() && Size() <= INT_MAX && Entries() != map[] && Exhaustive(draws)
      ensures !Misses(draws)
    {
      hide HashTable.Valid, HashTable.Drawn, HashTable.Entries;
      var key :| key in Entries();
      var draw, pick := EveryEntryCanBeDrawn(key);
      assert draw in draws;
    }
  }

  /** Every number that `random()` can return occurs. */
  ghost predicate Exhaustive(draws: seq<nat>)
  {
    forall draw: nat :: draw <= INT_MAX ==> draw in draws
  }

  lemma SmallModulus(x: nat, n: int)
    ensures x < n ==> x % n == x
  {
  }
}
