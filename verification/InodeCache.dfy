/** The inode cache: a hash table of chained entries (fs/vfs_cache.c). It is shown to behave as a
    finite map from (file system instance, node) to the address of the entry. */
module InodeCache {
  import opened Arch

  const BUCKETS := 31

  datatype Key = Key(inst: nat, node: nat)

  /** struct vfs_cache_entry: the link and the two inode fields the cache compares. */
  datatype Entry = Entry(next: nat, key: Key)

  function Bits(x: nat): bv32 { (x % 0x1_0000_0000) as bv32 }

  /** VFS_CACHE_HASH. */
  function Hash(k: Key): (h: nat)
    ensures h < BUCKETS
  {
    var mixed := ((Bits(k.inst) >> 16) ^ Bits(k.inst) ^ (Bits(k.node) >> 16) ^ Bits(k.node)) & 0xFFFF;
    (mixed as int) % BUCKETS
  }

  /** The entries of bucket b, in link order. */
  ghost predicate Chained(entries: map<nat, Entry>, head: nat, chain: seq<nat>, b: nat) {
    && head == AddressAt(chain, 0) && NoDuplicates(chain)
    && (forall i :: 0 <= i < |chain| ==> chain[i] != NULL && chain[i] in entries && Hash(entries[chain[i]].key) == b)
    && (forall i, j :: 0 <= i < j < |chain| && j == i + 1 ==> entries[chain[i]].next == chain[j])
    && (chain != [] ==> entries[chain[|chain| - 1]].next == NULL)
  }

  ghost predicate AllChained(heads: seq<nat>, entries: map<nat, Entry>, chains: seq<seq<nat>>) {
    && |heads| == |chains| == BUCKETS
    && forall b :: 0 <= b < BUCKETS ==> Chained(entries, heads[b], chains[b], b)
  }

  /** The entries are those of a map from keys to addresses, each in the chain of its bucket. */
  ghost predicate Tabled(entries: map<nat, Entry>, chains: seq<seq<nat>>, table: map<Key, nat>)
    requires |chains| == BUCKETS
  {
    && (forall k :: k in table ==> table[k] in entries && entries[table[k]].key == k && table[k] in chains[Hash(k)])
    && (forall a :: a in entries ==> entries[a].key in table && table[entries[a].key] == a)
  }

  // ---- insertion at the head of a bucket ---------------------------------------------------

  lemma InsertHere(entries: map<nat, Entry>, head: nat, chain: seq<nat>, a: nat, k: Key)
    requires Chained(entries, head, chain, Hash(k)) && a !in entries && a != NULL
    ensures Chained(entries[a := Entry(head, k)], a, [a] + chain, Hash(k))
  {
    hide Hash;
    var chain', entries' := [a] + chain, entries[a := Entry(head, k)];
    forall i, j | 0 <= i < j < |chain'| && j == i + 1 ensures entries'[chain'[i]].next == chain'[j] {
      if i > 0 { assert chain'[i] == chain[i - 1] && chain'[j] == chain[j - 1]; }
    }
  }

  lemma InsertElsewhere(entries: map<nat, Entry>, head: nat, chain: seq<nat>, b: nat, a: nat, e: Entry)
    requires Chained(entries, head, chain, b) && a !in entries
    ensures Chained(entries[a := e], head, chain, b)
  {
    hide Hash;
  }

  lemma InsertKeeps(heads: seq<nat>, entries: map<nat, Entry>, chains: seq<seq<nat>>, a: nat, k: Key)
    requires AllChained(heads, entries, chains) && a !in entries && a != NULL
    ensures var h := Hash(k);
            AllChained(heads[h := a], entries[a := Entry(heads[h], k)], chains[h := [a] + chains[h]])
  {
    hide Hash, Chained;
    var h := Hash(k);
    var entries' := entries[a := Entry(heads[h], k)];
    InsertHere(entries, heads[h], chains[h], a, k);
    forall b | 0 <= b < BUCKETS && b != h ensures Chained(entries', heads[b], chains[b], b) {
      InsertElsewhere(entries, heads[b], chains[b], b, a, entries'[a]);
    }
  }

  lemma InsertTabled(entries: map<nat, Entry>, chains: seq<seq<nat>>, table: map<Key, nat>, a: nat, k: Key, next: nat)
    requires |chains| == BUCKETS && Tabled(entries, chains, table) && a !in entries && k !in table
    ensures Tabled(entries[a := Entry(next, k)], chains[Hash(k) := [a] + chains[Hash(k)]], table[k := a])
  {
    hide Hash;
  }

  // ---- removal of the entry at index i of a bucket ----------------------------------------------

  ghost function Without(chain: seq<nat>, i: nat): seq<nat>
    requires i < |chain|
  {
    chain[..i] + chain[i + 1..]
  }

  /** The entries once the one at index i is unlinked and given back. */
  ghost function Unlinked(entries: map<nat, Entry>, chain: seq<nat>, i: nat): map<nat, Entry>
    requires i < |chain| && chain[i] in entries && (i > 0 ==> chain[i - 1] in entries)
  {
    var e := if i > 0 then entries[chain[i - 1] := entries[chain[i - 1]].(next := entries[chain[i]].next)] else entries;
    e - {chain[i]}
  }

  lemma UnlinkHere(entries: map<nat, Entry>, head: nat, chain: seq<nat>, b: nat, i: nat)
    requires Chained(entries, head, chain, b) && i < |chain|
    ensures Chained(Unlinked(entries, chain, i), if i > 0 then head else entries[chain[i]].next, Without(chain, i), b)
  {
    hide Hash;
    var entries', chain' := Unlinked(entries, chain, i), Without(chain, i);
    assert forall j :: 0 <= j < |chain'| ==> chain'[j] == if j < i then chain[j] else chain[j + 1];
    NextOfUnlinked(entries, head, chain, b, i);
    if i == 0 && |chain| > 1 { assert entries[chain[0]].next == chain[1]; }
  }

  lemma NextOfUnlinked(entries: map<nat, Entry>, head: nat, chain: seq<nat>, b: nat, i: nat)
    requires Chained(entries, head, chain, b) && i < |chain|
    ensures var entries', chain' := Unlinked(entries, chain, i), Without(chain, i);
            && (forall j :: 0 <= j < |chain'| ==> chain'[j] in entries')
            && (forall j, k :: 0 <= j < k < |chain'| && k == j + 1 ==> entries'[chain'[j]].next == chain'[k])
            && (chain' != [] ==> entries'[chain'[|chain'| - 1]].next == NULL)
  {
    hide Hash;
    var entries', chain' := Unlinked(entries, chain, i), Without(chain, i);
    assert forall j :: 0 <= j < |chain'| ==> chain'[j] == if j < i then chain[j] else chain[j + 1];
    forall j, k | 0 <= j < k < |chain'| && k == j + 1 ensures entries'[chain'[j]].next == chain'[k] {
      if k < i {
        assert entries[chain[j]].next == chain[k];
      } else if k == i {
        assert entries[chain[i]].next == chain[i + 1];
      } else {
        assert entries[chain[j + 1]].next == chain[k + 1];
      }
    }
  }

  lemma UnlinkElsewhere(entries: map<nat, Entry>, head: nat, chain: seq<nat>, b: nat,
                        c: seq<nat>, i: nat, d: nat, hd: nat)
    requires Chained(entries, head, chain, b) && Chained(entries, hd, c, d) && b != d && i < |c|
    ensures Chained(Unlinked(entries, c, i), head, chain, b)
  {
    hide Hash;
  }

  lemma UnlinkKeeps(heads: seq<nat>, entries: map<nat, Entry>, chains: seq<seq<nat>>, h: nat, i: nat)
    requires AllChained(heads, entries, chains) && h < BUCKETS && i < |chains[h]|
    ensures Chained(entries, heads[h], chains[h], h)
    ensures var entries' := Unlinked(entries, chains[h], i);
            var head := if i > 0 then heads[h] else entries[chains[h][i]].next;
            AllChained(heads[h := head], entries', chains[h := Without(chains[h], i)])
  {
    hide Hash, Chained, Unlinked, Without;
    UnlinkFacts(entries, heads[h], chains[h], h, i);
    var entries' := Unlinked(entries, chains[h], i);
    UnlinkHere(entries, heads[h], chains[h], h, i);
    forall b | 0 <= b < BUCKETS && b != h ensures Chained(entries', heads[b], chains[b], b) {
      UnlinkElsewhere(entries, heads[b], chains[b], b, chains[h], i, h, heads[h]);
    }
  }

  lemma UnlinkFacts(entries: map<nat, Entry>, head: nat, chain: seq<nat>, b: nat, i: nat)
    requires Chained(entries, head, chain, b) && i < |chain|
    ensures chain[i] in entries && (i > 0 ==> chain[i - 1] in entries)
    ensures var entries' := Unlinked(entries, chain, i);
            && entries'.Keys == entries.Keys - {chain[i]}
            && (forall a :: a in entries' ==> entries'[a].key == entries[a].key)
    ensures forall x :: x in chain && x != chain[i] ==> x in Without(chain, i)
  {
    hide Hash;
    var chain' := Without(chain, i);
    forall x | x in chain && x != chain[i] ensures x in chain' {
      var j :| 0 <= j < |chain| && chain[j] == x;
      assert chain'[if j < i then j else j - 1] == x;
    }
  }

  lemma UnlinkTabled(entries: map<nat, Entry>, head: nat, chains: seq<seq<nat>>, table: map<Key, nat>, k: Key, i: nat)
    requires |chains| == BUCKETS && Tabled(entries, chains, table) && Chained(entries, head, chains[Hash(k)], Hash(k))
    requires i < |chains[Hash(k)]| && entries[chains[Hash(k)][i]].key == k
    ensures k in table && table[k] == chains[Hash(k)][i]
    ensures Tabled(Unlinked(entries, chains[Hash(k)], i), chains[Hash(k) := Without(chains[Hash(k)], i)], table - {k})
  {
    hide Hash, Chained, Without, Unlinked;
    UnlinkFacts(entries, head, chains[Hash(k)], Hash(k), i);
  }

  /** Keys have addresses of their own, and each address its key. */
  lemma TabledFacts(heads: seq<nat>, entries: map<nat, Entry>, chains: seq<seq<nat>>, table: map<Key, nat>)
    requires AllChained(heads, entries, chains) && Tabled(entries, chains, table)
    ensures forall k :: k in table ==> table[k] != NULL && table[k] in entries && entries[table[k]].key == k
    ensures forall a :: a in entries ==> entries[a].key in table && table[entries[a].key] == a
  {
    hide Hash;
    forall k | k in table ensures table[k] != NULL {
      var h := Hash(k);
      assert Chained(entries, heads[h], chains[h], h) && table[k] in chains[h];
    }
  }

  // ---- the cache --------------------------------------------------------------------------------

  class Cache {
    var heads: seq<nat>
    var entries: map<nat, Entry>
    ghost var chains: seq<seq<nat>>
    ghost var table: map<Key, nat>

    ghost predicate Valid()
      reads this
    {
      AllChained(heads, entries, chains) && Tabled(entries, chains, table)
    }

    /** vfs_cache_init. */
    constructor ()
      ensures Valid() && table == map[] && entries == map[]
    {
      heads, entries := seq(BUCKETS, i => NULL), map[];
      chains, table := seq(BUCKETS, i => []), map[];
    }

    /** The walk shared by vfs_cache_find and vfs_cache_remove. */
    method Walk(k: Key) returns (cur: nat, prev: nat, ghost i: nat)
      requires Valid()
      ensures i <= |chains[Hash(k)]| && cur == AddressAt(chains[Hash(k)], i)
      ensures prev == if i > 0 then chains[Hash(k)][i - 1] else NULL
      ensures i < |chains[Hash(k)]| ==> cur != NULL && cur in entries && entries[cur].key == k
      ensures i == |chains[Hash(k)]| ==> cur == NULL && k !in table
    {
      hide Hash;
      var h := Hash(k);
      ghost var chain := chains[h];
      assert Chained(entries, heads[h], chain, h);
      cur, prev, i := heads[h], NULL, 0;
      while cur != NULL && entries[cur].key != k
        invariant i <= |chain| && cur == AddressAt(chain, i)
        invariant prev == if i > 0 then chain[i - 1] else NULL
        invariant forall j :: 0 <= j < i ==> entries[chain[j]].key != k
        decreases |chain| - i
      {
        assert i + 1 < |chain| ==> entries[chain[i]].next == chain[i + 1];
        prev := cur;
        cur, i := entries[cur].next, i + 1;
      }
    }

    /** vfs_cache_find. */
    method Find(k: Key) returns (a: nat)
      requires Valid()
      ensures a == if k in table then table[k] else NULL
      ensures k in table <==> a != NULL
    {
      hide Hash;
      ghost var i;
      var prev;
      a, prev, i := Walk(k);
      assert Chained(entries, heads[Hash(k)], chains[Hash(k)], Hash(k));
    }

    /** vfs_cache_alloc, together with the filling of fs_op and node by the file system; a is the
        object the pool gives, NULL when there is none. */
    method Alloc(k: Key, a: nat)
      requires Valid() && k !in table && a !in entries
      modifies this
      ensures Valid() && table == if a == NULL then old(table) else old(table)[k := a]
      ensures forall x :: x in old(entries) ==> x in entries && entries[x] == old(entries)[x]
    {
      hide Hash, Chained;
      if a != NULL {
        InsertKeeps(heads, entries, chains, a, k);
        var h := Hash(k);
        InsertTabled(entries, chains, table, a, k, heads[h]);
        entries := entries[a := Entry(heads[h], k)];
        heads := heads[h := a];
        chains, table := chains[h := [a] + chains[h]], table[k := a];
      }
    }

    /** vfs_cache_remove; the entry goes back to the pool. */
    method Remove(k: Key)
      requires Valid()
      modifies this
      ensures Valid() && table == old(table) - {k}
      ensures k in old(table) ==> entries.Keys == old(entries).Keys - {old(table)[k]}
      ensures k !in old(table) ==> entries == old(entries)
    {
      hide Hash, Chained;
      var cur, prev;
      ghost var i;
      cur, prev, i := Walk(k);
      var h := Hash(k);
      if cur != NULL {
        UnlinkKeeps(heads, entries, chains, h, i);
        UnlinkTabled(entries, heads[h], chains, table, k, i);
        Unlink(cur, prev, h, i);
        chains, table := chains[h := Without(chains[h], i)], table - {k};
      }
    }

    method Unlink(cur: nat, prev: nat, h: nat, ghost i: nat)
      requires AllChained(heads, entries, chains) && h < BUCKETS && i < |chains[h]|
      requires cur == chains[h][i] && prev == if i > 0 then chains[h][i - 1] else NULL
      modifies `heads, `entries
      ensures Chained(old(entries), old(heads)[h], chains[h], h)
      ensures entries == Unlinked(old(entries), chains[h], i) && entries.Keys == old(entries).Keys - {cur}
      ensures heads == old(heads)[h := if i > 0 then old(heads)[h] else old(entries)[cur].next]
    {
      hide Hash;
      assert Chained(entries, heads[h], chains[h], h);
      if prev != NULL {
        entries := entries[prev := entries[prev].(next := entries[cur].next)];
      } else {
        heads := heads[h := entries[cur].next];
      }
      entries := entries - {cur};
    }
  }
}
