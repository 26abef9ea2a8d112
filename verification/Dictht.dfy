/** One chained bucket table and its entries. */
module Chains {
  import opened Bits

  /** A node of a bucket chain. The key is written once, right after the allocation. */
  class Entry<K, V> {
    const key: K
    var value: V
    var next: Entry?<K, V>

    constructor (key: K, value: V)
      ensures this.key == key && this.value == value && next == null
    {
      this.key, this.value, next := key, value, null;
    }
  }

  type Chain<K, V> = seq<Entry<K, V>>

  /** The node at position `j` of a chain, null one past the end. */
  ghost function At<K, V>(chain: Chain<K, V>, j: nat): Entry?<K, V>
  {
    if j < |chain| then chain[j] else null
  }

  /** The chain without the node at position `j`. */
  ghost function Skip<K, V>(chain: Chain<K, V>, j: nat): Chain<K, V>
    requires j < |chain|
  {
    chain[..j] + chain[j + 1..]
  }

  ghost predicate NoDuplicates<K, V>(chain: Chain<K, V>)
  {
    chain == [] || (chain[0] !in chain[1..] && NoDuplicates(chain[1..]))
  }

  lemma {:induction false} SkipKeepsNoDuplicates<K, V>(chain: Chain<K, V>, j: nat)
    requires NoDuplicates(chain) && j < |chain|
    ensures NoDuplicates(Skip(chain, j))
    ensures chain[j] !in chain[..j] && chain[j] !in chain[j + 1..]
  {
    if j == 0 {
      assert Skip(chain, 0) == chain[1..];
    } else {
      var rest := chain[1..];
      SkipKeepsNoDuplicates(rest, j - 1);
      assert rest[..j - 1] == chain[1..j] && rest[j..] == chain[j + 1..] && rest[j - 1] == chain[j];
      assert Skip(chain, j)[1..] == Skip(rest, j - 1);
      assert chain[0] !in chain[1..j] && chain[0] !in chain[j + 1..];
      assert chain[..j] == [chain[0]] + chain[1..j];
    }
  }

  lemma OthersDiffer<K, V>(chain: Chain<K, V>, j: nat)
    requires NoDuplicates(chain) && j < |chain|
    ensures forall m {:trigger chain[m]} :: 0 <= m < |chain| && m != j ==> chain[m] != chain[j]
  {
    SkipKeepsNoDuplicates(chain, j);
    forall m {:trigger chain[m]} | 0 <= m < |chain| && m != j
      ensures chain[m] != chain[j]
    {
      assert if m < j then chain[m] in chain[..j] else chain[m] == chain[j + 1..][m - j - 1];
    }
  }

  /** Every node of the chain links to the one after it, the last to null. */
  ghost predicate ChainLinked<K, V>(chain: Chain<K, V>)
    reads chain`next
  {
    forall j {:trigger chain[j].next} :: 0 <= j < |chain| ==> chain[j].next == At(chain, j + 1)
  }

  /** How a table files keys: by their hash, among `size` buckets. */
  datatype Filing<!K> = Filing(hash: K -> Word, size: nat)
  {
    ghost function Home(key: K): nat
    {
      if size == 0 then 0 else hash(key) % size
    }
  }

  ghost function NodesOf<K, V>(chain: Chain<K, V>): set<Entry<K, V>>
  {
    set e | e in chain
  }

  lemma {:induction false} CountChain<K, V>(chain: Chain<K, V>)
    requires NoDuplicates(chain)
    ensures |NodesOf(chain)| == |chain|
  {
    if chain != [] {
      CountChain(chain[1..]);
      assert NodesOf(chain) == {chain[0]} + NodesOf(chain[1..]);
    }
  }

  lemma {:induction false} CountSubset<T>(a: set<T>, b: set<T>)
    requires a <= b
    ensures |a| <= |b|
    decreases a
  {
    if a != {} {
      var x :| x in a;
      CountSubset(a - {x}, b - {x});
    }
  }

  ghost function TotalLength<K, V>(chains: seq<Chain<K, V>>): nat
  {
    if chains == [] then 0 else TotalLength(chains[..|chains| - 1]) + |chains[|chains| - 1]|
  }

  lemma {:induction false} CountNodes<K, V>(entries: map<K, Entry<K, V>>, nodes: set<Entry<K, V>>)
    requires forall key {:trigger entries[key]} :: key in entries ==> entries[key].key == key && entries[key] in nodes
    requires forall e {:trigger e in nodes} :: e in nodes ==> e.key in entries && entries[e.key] == e
    ensures |nodes| == |entries|
    decreases nodes
  {
    if nodes == {} {
      assert forall key :: key in entries ==> entries[key] in nodes;
      assert entries.Keys == {};
    } else {
      var e :| e in nodes;
      var entries' := entries - {e.key};
      assert entries'.Keys == entries.Keys - {e.key};
      CountNodes(entries', nodes - {e});
    }
  }

  /** What a table holds: the chain of every bucket, the node of every key, and all the nodes. */
  datatype Layout<!K, V> = Layout(filing: Filing<K>, chains: seq<Chain<K, V>>, entries: map<K, Entry<K, V>>,
      nodes: set<Entry<K, V>>)
  {
    /** The bucket that a key belongs to. */
    ghost function Home(key: K): nat
    {
      filing.Home(key)
    }

    /** Bucket `b` holds, once each, nodes of keys that belong there. */
    ghost predicate BucketShape(b: nat)
      requires b < |chains|
    {
      && (forall j {:trigger chains[b][j]} :: 0 <= j < |chains[b]| ==>
            chains[b][j].key in entries && entries[chains[b][j].key] == chains[b][j] && Home(chains[b][j].key) == b)
      && NoDuplicates(chains[b])
    }

    /** The chains hold exactly the nodes of `entries`, each key in its own bucket. */
    ghost predicate Shape()
    {
      && (forall b {:trigger chains[b]} :: 0 <= b < |chains| ==> BucketShape(b))
      && (forall key {:trigger entries[key]} :: key in entries ==>
            entries[key].key == key && Home(key) < |chains| && entries[key] in chains[Home(key)]
              && entries[key] in nodes)
      && (forall e {:trigger e in nodes} :: e in nodes ==> e.key in entries && entries[e.key] == e)
    }

    lemma EntryOf(key: K)
      requires Shape() && key in entries
      ensures entries[key].key == key && entries[key] in nodes
    {
    }

    /** Without keys all chains are empty. */
    lemma NothingFiled()
      requires Shape() && entries == map[]
      ensures forall b :: 0 <= b < |chains| ==> chains[b] == []
    {
      forall b | 0 <= b < |chains| ensures chains[b] == [] {
        if chains[b] != [] {
          FirstIsFiled(b);
        }
      }
    }

    lemma FirstIsFiled(b: nat)
      requires Shape() && b < |chains| && chains[b] != []
      ensures chains[b][0].key in entries
    {
      assert BucketShape(b);
    }

    lemma AsManyNodesAsKeys()
      requires Shape()
      ensures |nodes| == |entries|
    {
      CountNodes(entries, nodes);
    }

    ghost function NodesBelow(b: nat): set<Entry<K, V>>
    {
      set e | e in nodes && Home(e.key) < b
    }

    /** The chain of a bucket holds the nodes of the keys that belong there, and no others. */
    lemma BucketHolds(b: nat)
      requires Shape() && b < |chains|
      ensures forall e {:trigger e in chains[b]} {:trigger e in nodes} :: e in chains[b] <==>
          e in nodes
            && Home(e.key) == b
      ensures forall e {:trigger e in chains[b]} :: e in chains[b] ==> e.key in entries && entries[e.key] == e
      ensures NoDuplicates(chains[b])
    {
      assert BucketShape(b);
      forall e {:trigger e in chains[b]} | e in chains[b]
        ensures e in nodes && Home(e.key) == b && e.key in entries && entries[e.key] == e
      {
        var j :| 0 <= j < |chains[b]| && chains[b][j] == e;
        assert entries[chains[b][j].key] in nodes;
      }
      forall e {:trigger e in nodes} | e in nodes && Home(e.key) == b
        ensures e in chains[b]
      {
        assert entries[e.key] in chains[Home(e.key)];
      }
    }

    lemma {:induction false} CountBelow(b: nat)
      requires Shape() && b <= |chains|
      ensures |NodesBelow(b)| == TotalLength(chains[..b])
      decreases b
    {
      if b == 0 {
        assert NodesBelow(0) == {};
      } else {
        CountBelow(b - 1);
        BucketHolds(b - 1);
        assert chains[..b][..b - 1] == chains[..b - 1];
        CountChain(chains[b - 1]);
        assert NodesBelow(b) == NodesBelow(b - 1) + NodesOf(chains[b - 1]);
      }
    }

    /** The nodes of all the chains together are all the nodes, each once. */
    lemma ChainsAddUp()
      requires Shape()
      ensures TotalLength(chains) == |nodes|
    {
      CountBelow(|chains|);
      assert chains[..|chains|] == chains;
      forall e | e in nodes
        ensures Home(e.key) < |chains|
      {
        assert entries[e.key] in nodes;
      }
      assert NodesBelow(|chains|) == nodes;
    }

    lemma ChainFits(b: nat)
      requires Shape() && b < |chains|
      ensures |chains[b]| <= |nodes|
    {
      BucketHolds(b);
      CountChain(chains[b]);
      CountSubset(NodesOf(chains[b]), nodes);
    }

    /** The real links spell out every chain. */
    ghost predicate Linked()
      requires Shape()
      reads nodes`next
    {
      forall b {:trigger chains[b]} :: 0 <= b < |chains| ==>
        assert BucketShape(b);
        ChainLinked(chains[b])
    }

    ghost function WithFirst(b: nat, e: Entry<K, V>): Layout<K, V>
      requires b < |chains|
    {
      Layout(filing, chains[b := [e] + chains[b]], entries[e.key := e], nodes + {e})
    }

    ghost function Without(b: nat, j: nat): Layout<K, V>
      requires b < |chains| && j < |chains[b]|
    {
      Layout(filing, chains[b := Skip(chains[b], j)], entries - {chains[b][j].key}, nodes - {chains[b][j]})
    }

    lemma WithFirstKeepsBuckets(e: Entry<K, V>, b: nat)
      requires Shape() && e.key !in entries && Home(e.key) < |chains| && b < |chains|
      ensures WithFirst(Home(e.key), e).BucketShape(b)
    {
      assert BucketShape(b);
      if b == Home(e.key) {
        var chain' := [e] + chains[b];
        assert forall m :: 0 <= m < |chain'| ==> chain'[m] == if m == 0 then e else chains[b][m - 1];
        assert chain'[1..] == chains[b];
      }
    }

    lemma WithFirstKeepsMembers(e: Entry<K, V>, key: K)
      requires Shape() && e.key !in entries && Home(e.key) < |chains| && (key == e.key || key in entries)
      ensures var l := WithFirst(Home(e.key), e);
        Home(key) < |chains| && l.entries[key] in l.chains[Home(key)]
    {
      var chain' := [e] + chains[Home(e.key)];
      if key == e.key {
        assert chain'[0] == e;
      } else {
        assert entries[key] in chains[Home(key)];
      }
    }

    lemma WithFirstKeepsShape(e: Entry<K, V>)
      requires Shape() && e.key !in entries && Home(e.key) < |chains|
      ensures WithFirst(Home(e.key), e).Shape()
      ensures |nodes + {e}| == |nodes| + 1
    {
      hide Layout.BucketShape;
      var l := WithFirst(Home(e.key), e);
      forall b | 0 <= b < |chains|
        ensures l.BucketShape(b)
      {
        WithFirstKeepsBuckets(e, b);
      }
      forall key | key in l.entries
        ensures Home(key) < |chains| && l.entries[key] in l.chains[Home(key)]
      {
        WithFirstKeepsMembers(e, key);
      }
    }

    lemma WithoutKeepsBuckets(b: nat, j: nat, c: nat)
      requires Shape() && b < |chains| && j < |chains[b]| && c < |chains|
      ensures Without(b, j).BucketShape(c)
    {
      assert BucketShape(b) && BucketShape(c);
      if c == b {
        var chain' := Skip(chains[b], j);
        SkipKeepsNoDuplicates(chains[b], j);
        OthersDiffer(chains[b], j);
        assert forall m :: 0 <= m < |chain'| ==> chain'[m] == chains[b][if m < j then m else m + 1];
      }
    }

    lemma WithoutKeepsMembers(b: nat, j: nat, key: K)
      requires Shape() && b < |chains| && j < |chains[b]| && key in Without(b, j).entries
      ensures Home(key) < |chains| && entries[key] in Without(b, j).chains[Home(key)]
      ensures entries[key] in nodes - {chains[b][j]}
    {
      assert entries[key] in chains[Home(key)] && BucketShape(b);
      if Home(key) == b {
        var m :| 0 <= m < |chains[b]| && chains[b][m] == entries[key];
        assert Skip(chains[b], j)[if m < j then m else m - 1] == entries[key];
      }
    }

    lemma WithoutKeepsShape(b: nat, j: nat)
      requires Shape() && b < |chains| && j < |chains[b]|
      ensures Without(b, j).Shape()
      ensures |nodes - {chains[b][j]}| == |nodes| - 1
    {
      var l := Without(b, j);
      assert BucketShape(b);
      forall c | 0 <= c < |chains|
        ensures l.BucketShape(c)
      {
        WithoutKeepsBuckets(b, j, c);
      }
      forall key | key in l.entries
        ensures Home(key) < |chains| && l.entries[key] in l.chains[Home(key)] && l.entries[key] in l.nodes
      {
        WithoutKeepsMembers(b, j, key);
      }
    }

    lemma WithFirstKeepsLinked(e: Entry<K, V>)
      requires Shape() && Linked() && e.key !in entries && Home(e.key) < |chains|
        && e.next == At(chains[Home(e.key)], 0)
      ensures WithFirst(Home(e.key), e).Shape() && WithFirst(Home(e.key), e).Linked()
    {
      hide Layout.Shape;
      WithFirstKeepsShape(e);
      assert ChainLinked(chains[Home(e.key)]);
    }

    lemma WithoutFirstKeepsLinked(b: nat)
      requires Shape() && Linked() && b < |chains| && chains[b] != []
      ensures Without(b, 0).Shape() && Without(b, 0).Linked()
    {
      WithoutKeepsShape(b, 0);
      assert ChainLinked(chains[b]);
      assert Skip(chains[b], 0) == chains[b][1..];
    }

    lemma WithoutKeepsLinked(b: nat, j: nat)
      requires Shape() && b < |chains| && j < |chains[b]|
      requires forall c :: 0 <= c < |chains| && c != b ==> ChainLinked(chains[c])
      requires forall m {:trigger chains[b][m].next} :: 0 <= m < |chains[b]| && m != j ==>
                 chains[b][m].next == At(chains[b], if m == j - 1 then j + 1 else m + 1)
      ensures Without(b, j).Shape() && Without(b, j).Linked()
    {
      WithoutKeepsShape(b, j);
      var chain' := Skip(chains[b], j);
      forall m {:trigger chain'[m].next} | 0 <= m < |chain'|
        ensures chain'[m].next == At(chain', m + 1)
      {
        assert chain'[m] == chains[b][if m < j then m else m + 1];
      }
    }
  }

  ghost function NoChains<K, V>(size: nat): (chains: seq<Chain<K, V>>)
    ensures |chains| == size && forall b :: 0 <= b < size ==> chains[b] == []
  {
    if size == 0 then [] else NoChains(size - 1) + [[]]
  }

  ghost function EmptyLayout<K, V>(hash: K -> Word, size: nat): Layout<K, V>
  {
    Layout(Filing(hash, size), NoChains(size), map[], {})
  }

  /** Every slot of the bucket array but `skip` points to its chain's first node. */
  ghost predicate SlotsAre<K, V>(table: array<Entry?<K, V>>, chains: seq<Chain<K, V>>, skip: int)
    reads table
  {
    table.Length == |chains| && forall b {:trigger table[b]} :: 0 <= b < |chains| && b != skip ==>
        table[b] == At(chains[b], 0)
  }

  class Dictht<!K(==), V> {
    var table: array?<Entry?<K, V>>
    var size: nat
    var sizemask: nat
    var used: nat
    ghost var lay: Layout<K, V>

    ghost predicate Sized()
      reads this
    {
      && |lay.chains| == size == lay.filing.size
      && (size == 0 ==> sizemask == 0)
      && (size > 0 ==> IsPow2(size) && size <= TWO_TO_THE_31 && sizemask == size - 1)
    }

    /** What holds of the bookkeeping, whatever the links say. */
    ghost predicate Books()
      reads this
    {
      Sized() && lay.Shape() && used == |lay.nodes|
    }

    /** The real links spell out the chains, but for the slot `skip`. */
    ghost predicate Links(skip: int)
      requires Books()
      reads this, table, lay.nodes`next
    {
      && (table == null <==> size == 0)
      && (table != null ==> SlotsAre(table, lay.chains, skip) && lay.Linked())
    }

    ghost predicate Valid()
      reads this, table, lay.nodes`next
    {
      Books() && Links(-1)
    }

    lemma NothingIn()
      requires Books() && used == 0
      ensures lay.entries == map[] && lay.nodes == {}
    {
      lay.AsManyNodesAsKeys();
    }

    /** What is known of a bucket. */
    lemma BucketOf(b: nat)
      requires Valid() && b < size
      ensures table != null && table.Length == size && table[b] == At(lay.chains[b], 0) && ChainLinked(lay.chains[b])
      ensures forall e {:trigger e in lay.chains[b]} :: e in lay.chains[b] ==>
          e.key in lay.entries
            && lay.entries[e.key] == e
    {
      lay.BucketHolds(b);
    }

    /** What is known of the first node of a non-empty bucket. */
    lemma HeadOf(b: nat, skip: int)
      requires Books() && Links(skip) && b < size && lay.chains[b] != []
      ensures var e := lay.chains[b][0];
        e in lay.nodes && e.key in lay.entries && lay.entries[e.key] == e && lay.Home(e.key) == b
          && e.next == At(lay.chains[b], 1)
    {
      assert lay.BucketShape(b) && ChainLinked(lay.chains[b]);
      assert lay.entries[lay.chains[b][0].key] in lay.nodes;
    }

    constructor (ghost hash: K -> Word)
      ensures Valid() && size == 0 && lay == EmptyLayout(hash, 0)
    {
      table, size, sizemask, used := null, 0, 0, 0;
      lay := EmptyLayout(hash, 0);
    }

    /** Frees every chain and the bucket array; `freed` are the nodes that were deleted. */
    method Clear() returns (ghost freed: set<Entry<K, V>>)
      requires Valid()
      modifies this
      ensures Valid() && size == 0 && lay == EmptyLayout(old(lay).filing.hash, 0) && freed == old(lay.nodes)
    {
      freed := {};
      if table != null {
        for i := 0 to size
          invariant freed == set e | e in lay.nodes && lay.Home(e.key) < i
        {
          assert lay.BucketShape(i);
          if table[i] != null {
            freed := freed + NodesOf(lay.chains[i]);
          }
        }
        table := null;
      }
      size, sizemask, used := 0, 0, 0;
      lay := EmptyLayout(lay.filing.hash, 0);
    }

    /** Becomes a table of `realsize` empty buckets. */
    method Allocate(realsize: nat)
      requires IsPow2(realsize) && realsize <= TWO_TO_THE_31
      modifies this
      ensures Valid() && size == realsize && fresh(table)
      ensures lay == EmptyLayout(old(lay).filing.hash, realsize)
    {
      table := new Entry?<K, V>[realsize](_ => null);
      size, sizemask, used := realsize, realsize - 1, 0;
      lay := EmptyLayout(lay.filing.hash, realsize);
    }

    /** Structure assignment: takes over the fields of `that`. */
    method Assign(that: Dictht<K, V>)
      requires that.Valid()
      modifies this
      ensures Valid() && table == that.table && size == that.size && used == that.used && lay == that.lay
    {
      table, size, sizemask, used := that.table, that.size, that.sizemask, that.used;
      lay := that.lay;
    }

    /** Lets go of the bucket array without deleting anything. */
    method Reset()
      modifies this
      ensures Valid() && size == 0 && lay == EmptyLayout(old(lay).filing.hash, 0)
    {
      table, size, sizemask, used := null, 0, 0, 0;
      lay := EmptyLayout(lay.filing.hash, 0);
    }

    /** Moves the ghost state to a layout that the real links already spell out. */
    ghost method Record(lay': Layout<K, V>, skip: int)
      requires Sized() && |lay'.chains| == size > 0 && lay'.filing == lay.filing && lay'.Shape() && used == |lay'.nodes|
      requires table != null && SlotsAre(table, lay'.chains, skip) && lay'.Linked()
      modifies this`lay
      ensures Books() && Links(skip) && lay == lay'
    {
      lay := lay';
    }

    /** Makes the links of bucket `i` start at a new node. */
    method Prepend(e: Entry<K, V>, i: nat)
      requires Valid() && i < size && i == lay.Home(e.key) && e.key !in lay.entries
      modifies table, e`next
      ensures SlotsAre(table, lay.WithFirst(i, e).chains, -1)
      ensures lay.WithFirst(i, e).Shape() && lay.WithFirst(i, e).Linked()
    {
      e.next := table[i];
      table[i] := e;
      assert lay.Linked();
      lay.WithFirstKeepsLinked(e);
    }

    /** Puts a new node in front of bucket `i`. */
    method Link(e: Entry<K, V>, i: nat)
      requires Valid() && i < size && i == lay.Home(e.key)
      requires e.key !in lay.entries
      modifies this, table, e`next
      ensures Valid() && table == old(table) && size == old(size) && used == old(used) + 1
      ensures lay == old(lay).WithFirst(i, e)
    {
      hide Layout.Shape, Layout.Linked;
      lay.WithFirstKeepsShape(e);
      Prepend(e, i);
      used := used + 1;
      Record(lay.WithFirst(i, e), -1);
    }

    /** Gives up the first node of bucket `r`; the bucket's slot is left as it is. */
    method DropHead(r: nat)
      requires Books() && Links(r) && r < size && lay.chains[r] != []
      modifies this
      ensures Books() && Links(r) && table == old(table) && size == old(size) && used == old(used) - 1
      ensures lay == old(lay).Without(r, 0)
    {
      lay.WithoutKeepsShape(r, 0);
      lay.WithoutFirstKeepsLinked(r);
      used := used - 1;
      Record(lay.Without(r, 0), r);
    }

    /** Walks one bucket's chain in search of a key. */
    method Find(key: K, i: nat) returns (he: Entry?<K, V>)
      requires Valid() && i < size && i == lay.Home(key)
      ensures he == null <==> key !in lay.entries
      ensures he != null ==> he == lay.entries[key]
    {
      he := table[i];
      ghost var j: nat := 0;
      while he != null
        invariant j <= |lay.chains[i]| && he == At(lay.chains[i], j)
        invariant forall k :: 0 <= k < j ==> lay.chains[i][k].key != key
        decreases |lay.chains[i]| - j
      {
        assert lay.BucketShape(i) && ChainLinked(lay.chains[i]);
        if key == he.key {
          return;
        }
        he := he.next;
        j := j + 1;
      }
    }

    /** Makes the links pass by the node at position `j` of bucket `i`'s chain. */
    method Bypass(he: Entry<K, V>, prevHe: Entry?<K, V>, i: nat, ghost j: nat)
      requires Valid() && i < size && j < |lay.chains[i]| && he == lay.chains[i][j]
      requires prevHe == if j == 0 then null else lay.chains[i][j - 1]
      modifies table, lay.nodes`next
      ensures SlotsAre(table, lay.Without(i, j).chains, -1)
      ensures lay.Without(i, j).Shape() && lay.Without(i, j).Linked()
    {
      OthersDiffer(lay.chains[i], j);
      if prevHe != null {
        OthersDiffer(lay.chains[i], j - 1);
        prevHe.next := he.next;
      } else {
        table[i] := he.next;
      }
      he.next := null;
      lay.WithoutKeepsLinked(i, j);
    }

    /** Takes the node at position `j` out of bucket `i`. */
    method CutOut(he: Entry<K, V>, prevHe: Entry?<K, V>, i: nat, ghost j: nat)
      requires Valid() && i < size && j < |lay.chains[i]| && he == lay.chains[i][j]
      requires prevHe == if j == 0 then null else lay.chains[i][j - 1]
      modifies this, table, lay.nodes`next
      ensures Valid() && table == old(table) && size == old(size) && used == old(used) - 1
      ensures lay == old(lay).Without(i, j)
    {
      lay.WithoutKeepsShape(i, j);
      Bypass(he, prevHe, i, j);
      used := used - 1;
      Record(lay.Without(i, j), -1);
    }

    /** Unlinks the node of a key from one bucket's chain, if it is there. */
    method Unlink(key: K, i: nat) returns (found: bool, ghost j: nat)
      requires Valid() && i < size && i == lay.Home(key)
      modifies this, table, lay.nodes`next
      ensures Valid() && table == old(table) && size == old(size)
      ensures found <==> key in old(lay).entries
      ensures !found ==> lay == old(lay) && used == old(used)
      ensures found ==> used == old(used) - 1
      ensures found ==>
          j < |old(lay).chains[i]| && old(lay).chains[i][j] == old(lay).entries[key]
            && lay == old(lay).Without(i, j)
    {
      var he := table[i];
      var prevHe: Entry?<K, V> := null;
      j := 0;
      while he != null
        invariant j <= |lay.chains[i]| && he == At(lay.chains[i], j)
        invariant prevHe == if j == 0 then null else lay.chains[i][j - 1]
        invariant forall k :: 0 <= k < j ==> lay.chains[i][k].key != key
        decreases |lay.chains[i]| - j
      {
        assert lay.BucketShape(i) && ChainLinked(lay.chains[i]);
        if key == he.key {
          CutOut(he, prevHe, i, j);
          found := true;
          return;
        }
        prevHe := he;
        he := he.next;
        j := j + 1;
      }
      found := false;
    }
  }
}
