/** The inodes behind the cache: entries of the hash table with the inode they hold, taken and released
    by address (vfs_get_inode, vfs_release_inode and the end of vfs_mount in fs/vfs.c). The table by key
    that paths and mounts are stated on is what these addresses stand for. */
module InodeStore {
  import opened Arch
  import opened InodeCache
  import opened Volumes
  import opened Vfs
  import Paths

  /** at: the address of the entry of each cached key; nodes: the inode at each address. */
  datatype State = State(vols: Vols, rootFs: nat, at: map<Key, nat>, nodes: map<nat, Inode>)

  /** Each cached key has an inode of its own. */
  ghost predicate Placed(at: map<Key, nat>, nodes: map<nat, Inode>) {
    && (forall k :: k in at ==> at[k] in nodes && at[k] != NULL)
    && (forall k, q :: k in at && q in at && at[k] == at[q] ==> k == q)
  }

  /** The table by key. */
  ghost function TableOf(at: map<Key, nat>, nodes: map<nat, Inode>): Table
    requires Placed(at, nodes)
  {
    map k | k in at :: nodes[at[k]]
  }

  ghost predicate Good(s: State) {
    Placed(s.at, s.nodes) && Inv(s.vols, TableOf(s.at, s.nodes), s.rootFs)
  }

  /** An address the pool can hand out. */
  ghost predicate Fresh(at: map<Key, nat>, a: nat) { a != NULL && forall k :: k in at ==> at[k] != a }

  // ---- the three changes, by address -----------------------------------------------------------------

  /** A new entry. */
  lemma AddedTable(at: map<Key, nat>, nodes: map<nat, Inode>, k: Key, a: nat, n: Inode)
    requires Placed(at, nodes) && k !in at && Fresh(at, a)
    ensures Placed(at[k := a], nodes[a := n]) && TableOf(at[k := a], nodes[a := n]) == TableOf(at, nodes)[k := n]
  {
  }

  /** A change in the inode of a cached key. */
  lemma ChangedTable(at: map<Key, nat>, nodes: map<nat, Inode>, k: Key, n: Inode)
    requires Placed(at, nodes) && k in at
    ensures Placed(at, nodes[at[k] := n]) && TableOf(at, nodes[at[k] := n]) == TableOf(at, nodes)[k := n]
  {
  }

  /** An entry that goes. */
  lemma RemovedTable(at: map<Key, nat>, nodes: map<nat, Inode>, k: Key)
    requires Placed(at, nodes) && k in at
    ensures Placed(at - {k}, nodes) && TableOf(at - {k}, nodes) == TableOf(at, nodes) - {k}
  {
  }

  // ---- the operations, by address ----------------------------------------------------------------------

  /** vfs_get_inode of a node that exists; a is what the pool would give. */
  function Getting(s: State, k: Key, a: nat): State
    requires Exists(s.vols, k) && (k in s.at ==> s.at[k] in s.nodes)
  {
    if k in s.at then
      var n := s.nodes[s.at[k]];
      s.(nodes := s.nodes[s.at[k] := n.(count := n.count + 1)])
    else s.(at := s.at[k := a], nodes := s.nodes[a := Fill(s.vols[k.inst], k.node).(count := 1)])
  }

  /** vfs_release_inode. */
  function Dropping(s: State, k: Key): State
    requires k in s.at && s.at[k] in s.nodes
  {
    var n := s.nodes[s.at[k]];
    if n.count == 0 || (n.count == 1 && (n.root || n.mountpoint)) then s
    else
      var nodes := s.nodes[s.at[k] := n.(count := n.count - 1)];
      if n.count == 1 then s.(at := s.at - {k}, nodes := nodes) else s.(nodes := nodes)
  }

  /** The end of vfs_mount on the cached directory m. */
  function Mounting(s: State, m: Key, inst: nat, v: Volume, junk: nat, a: nat): State
    requires m in s.at && s.at[m] in s.nodes
  {
    var r := Inode(true, true, false, junk, Some(m), 1);
    var d := s.nodes[s.at[m]].(mountpoint := true, spec := Some(RootKey(inst)));
    State(s.vols[inst := v], s.rootFs, s.at[RootKey(inst) := a], s.nodes[a := r][s.at[m] := d])
  }

  lemma GettingIsBump(s: State, k: Key, a: nat)
    requires Good(s) && Exists(s.vols, k) && Fresh(s.at, a)
    ensures var s' := Getting(s, k, a);
            Good(s') && TableOf(s'.at, s'.nodes) == Bump(s.vols, TableOf(s.at, s.nodes), k) && k in s'.at
  {
    hide Inv, Fill, Known;
    BumpKeeps(s.vols, TableOf(s.at, s.nodes), s.rootFs, k);
    if k in s.at {
      ChangedTable(s.at, s.nodes, k, s.nodes[s.at[k]].(count := s.nodes[s.at[k]].count + 1));
    } else {
      AddedTable(s.at, s.nodes, k, a, Fill(s.vols[k.inst], k.node).(count := 1));
    }
  }

  lemma DroppingIsDrop(s: State, k: Key)
    requires Good(s) && k in s.at
    ensures var s' := Dropping(s, k);
            Placed(s'.at, s'.nodes) && TableOf(s'.at, s'.nodes) == Drop(TableOf(s.at, s.nodes), k)
    ensures Paths.Held(TableOf(s.at, s.nodes), k) ==> Good(Dropping(s, k))
  {
    hide Inv;
    var n := s.nodes[s.at[k]];
    if n.count > 0 {
      var m := n.(count := n.count - 1);
      ChangedTable(s.at, s.nodes, k, m);
      RemovedTable(s.at, s.nodes[s.at[k] := m], k);
      assert TableOf(s.at, s.nodes)[k := m] - {k} == TableOf(s.at, s.nodes) - {k};
    }
    if Paths.Held(TableOf(s.at, s.nodes), k) { Paths.DropKeeps(s.vols, TableOf(s.at, s.nodes), s.rootFs, k); }
  }

  lemma MountingIsMounted(s: State, m: Key, inst: nat, v: Volume, junk: nat, a: nat)
    requires Good(s) && m in s.at && !s.nodes[s.at[m]].root && inst !in s.vols && Sound(v) && Fresh(s.at, a)
    ensures var s' := Mounting(s, m, inst, v, junk, a);
            Good(s') && TableOf(s'.at, s'.nodes) == Mounted(TableOf(s.at, s.nodes), m, inst, junk)
  {
    hide Inv, Sound;
    var t := TableOf(s.at, s.nodes);
    var r := Inode(true, true, false, junk, Some(m), 1);
    Paths.NotCached(s.vols, t, s.rootFs, inst);
    AddedTable(s.at, s.nodes, RootKey(inst), a, r);
    ChangedTable(s.at[RootKey(inst) := a], s.nodes[a := r], m,
                 s.nodes[s.at[m]].(mountpoint := true, spec := Some(RootKey(inst))));
    MountExact(s.vols, t, s.rootFs, m, inst, v, junk);
  }

  // ---- runs ------------------------------------------------------------------------------------------------

  datatype Op = Get(k: Key, a: nat) | Release(k: Key) | Mount(m: Key, inst: nat, v: Volume, junk: nat, a: nat)

  ghost predicate Enabled(s: State, op: Op)
    requires Good(s)
  {
    match op
    case Get(k, a) => Exists(s.vols, k) && Fresh(s.at, a)
    case Release(k) => k in s.at && Paths.Held(TableOf(s.at, s.nodes), k)
    case Mount(m, inst, v, junk, a) =>
      m in s.at && !s.nodes[s.at[m]].root && inst !in s.vols && Sound(v) && Fresh(s.at, a)
  }

  ghost function Next(s: State, op: Op): State
    requires Good(s) && Enabled(s, op)
    ensures Good(Next(s, op))
  {
    hide Inv, Known, Sound;
    match op
    case Get(k, a) =>
      GettingIsBump(s, k, a);
      Getting(s, k, a)
    case Release(k) =>
      DroppingIsDrop(s, k);
      Dropping(s, k)
    case Mount(m, inst, v, junk, a) =>
      MountingIsMounted(s, m, inst, v, junk, a);
      Mounting(s, m, inst, v, junk, a)
  }

  ghost predicate CanRun(s: State, ops: seq<Op>)
    requires Good(s)
    decreases |ops|
  {
    ops == [] || (Enabled(s, ops[0]) && CanRun(Next(s, ops[0]), ops[1..]))
  }

  ghost function Run(s: State, ops: seq<Op>): State
    requires Good(s) && CanRun(s, ops)
    ensures Good(Run(s, ops))
    decreases |ops|
  {
    if ops == [] then s else Run(Next(s, ops[0]), ops[1..])
  }

  /** The key is cached all along the run. */
  ghost predicate StaysLive(s: State, ops: seq<Op>, k: Key)
    requires Good(s) && CanRun(s, ops)
    decreases |ops|
  {
    k in s.at && (ops == [] || StaysLive(Next(s, ops[0]), ops[1..], k))
  }

  lemma NextKeepsAddress(s: State, op: Op, k: Key)
    requires Good(s) && Enabled(s, op) && k in s.at && k in Next(s, op).at
    ensures Next(s, op).at[k] == s.at[k]
  {
    hide Inv, Known, Sound;
    if op.Mount? { Paths.NotCached(s.vols, TableOf(s.at, s.nodes), s.rootFs, op.inst); }
  }

  /** A file that stays cached keeps its inode: over every run its address is the same. */
  lemma {:induction false} LiveKeepsAddress(s: State, ops: seq<Op>, k: Key)
    requires Good(s) && CanRun(s, ops) && StaysLive(s, ops, k)
    ensures k in Run(s, ops).at && Run(s, ops).at[k] == s.at[k]
    decreases |ops|
  {
    hide Good, Enabled, Next;
    if ops != [] {
      assert k in Next(s, ops[0]).at by { LiveNow(Next(s, ops[0]), ops[1..], k); }
      NextKeepsAddress(s, ops[0], k);
      LiveKeepsAddress(Next(s, ops[0]), ops[1..], k);
    }
  }

  lemma LiveNow(s: State, ops: seq<Op>, k: Key)
    requires Good(s) && CanRun(s, ops) && StaysLive(s, ops, k)
    ensures k in s.at
  {
  }

  /** Two lookups of a live file give the same inode, whatever happens to other files in between. */
  lemma TwoLookups(s: State, k: Key, a: nat, ops: seq<Op>, b: nat)
    requires Good(s) && Enabled(s, Get(k, a))
    requires var s1 := Next(s, Get(k, a)); CanRun(s1, ops) && StaysLive(s1, ops, k) && Enabled(Run(s1, ops), Get(k, b))
    ensures var s1 := Next(s, Get(k, a));
            var s3 := Next(Run(s1, ops), Get(k, b));
            k in s1.at && k in s3.at && s3.at[k] == s1.at[k] && s3.at[k] == if k in s.at then s.at[k] else a
  {
    hide Inv, Known, CanRun, Run, StaysLive;
    var s1 := Next(s, Get(k, a));
    LiveKeepsAddress(s1, ops, k);
  }

  ghost function Releases(ops: seq<Op>, k: Key): nat {
    if ops == [] then 0 else (if ops[0] == Release(k) then 1 else 0) + Releases(ops[1..], k)
  }

  lemma NextCount(s: State, op: Op, k: Key)
    requires Good(s) && Enabled(s, op)
    ensures var s' := Next(s, op);
            Count(TableOf(s'.at, s'.nodes), k) + (if op == Release(k) then 1 else 0) >= Count(TableOf(s.at, s.nodes), k)
  {
    hide Inv, Known, Sound, Fill, Paths.Held;
    match op
    case Get(q, a) => GettingIsBump(s, q, a);
    case Release(q) => DroppingIsDrop(s, q);
    case Mount(m, inst, v, junk, a) =>
      Paths.NotCached(s.vols, TableOf(s.at, s.nodes), s.rootFs, inst);
      MountingIsMounted(s, m, inst, v, junk, a);
  }

  /** A reference that is not released in a run keeps its file cached all along. */
  lemma {:induction false} ReferenceKeepsLive(s: State, ops: seq<Op>, k: Key)
    requires Good(s) && CanRun(s, ops) && Count(TableOf(s.at, s.nodes), k) > Releases(ops, k)
    ensures StaysLive(s, ops, k)
    decreases |ops|
  {
    hide Inv, Enabled, Next;
    if ops != [] {
      NextCount(s, ops[0], k);
      ReferenceKeepsLive(Next(s, ops[0]), ops[1..], k);
    }
  }

  lemma PinnedNext(s: State, op: Op, k: Key)
    requires Good(s) && Enabled(s, op) && k in s.at && Pinned(TableOf(s.at, s.nodes), k)
    ensures var s' := Next(s, op); k in s'.at && Pinned(TableOf(s'.at, s'.nodes), k)
  {
    hide Inv, Known, Sound, Paths.Held, Fill, TableOf, Placed, Getting, Dropping, Mounting;
    SameKeys(s);
    SameKeys(Next(s, op));
    match op
    case Get(q, a) => GettingIsBump(s, q, a);
    case Release(q) => DroppingIsDrop(s, q);
    case Mount(m, inst, v, junk, a) =>
      Paths.NotCached(s.vols, TableOf(s.at, s.nodes), s.rootFs, inst);
      MountingIsMounted(s, m, inst, v, junk, a);
  }

  lemma SameKeys(s: State)
    requires Good(s)
    ensures TableOf(s.at, s.nodes).Keys == s.at.Keys
  {
    hide Inv;
  }

  /** Roots and mount points refer to each other by address: over every run these addresses stay
      right. */
  lemma {:induction false} PinnedKeepsAddress(s: State, ops: seq<Op>, k: Key)
    requires Good(s) && CanRun(s, ops) && k in s.at && Pinned(TableOf(s.at, s.nodes), k)
    ensures k in Run(s, ops).at && Run(s, ops).at[k] == s.at[k]
    decreases |ops|
  {
    hide Good, Enabled, Next, Pinned;
    if ops != [] {
      assert Placed(s.at, s.nodes) by { GoodPlaced(s); }
      PinnedNext(s, ops[0], k);
      NextKeepsAddress(s, ops[0], k);
      PinnedKeepsAddress(Next(s, ops[0]), ops[1..], k);
    }
  }

  lemma GoodPlaced(s: State)
    requires Good(s)
    ensures Placed(s.at, s.nodes)
  {
  }

  // ---- the store ---------------------------------------------------------------------------------------------

  class Store {
    const cache: Cache
    var nodes: map<nat, Inode>
    var vols: Vols
    var rootFs: nat

    ghost function View(): State
      reads this, cache
    {
      State(vols, rootFs, cache.table, nodes)
    }

    ghost predicate Valid()
      reads this, cache
    {
      cache.Valid() && Good(View())
    }

    /** The table by key these entries stand for. */
    ghost function Inodes(): Table
      requires Placed(cache.table, nodes)
      reads this, cache
    {
      TableOf(cache.table, nodes)
    }

    /** The mount of the root file system, its root inode at address a. */
    constructor (inst: nat, v: Volume, junk: nat, a: nat)
      requires Sound(v) && a != NULL
      ensures View() == FirstState(inst, v, junk, a) && fresh(cache)
      ensures Valid()
    {
      hide Good, AllChained, Tabled;
      cache := new Cache();
      vols, rootFs := map[inst := v], inst;
      nodes := map[a := Inode(true, true, false, junk, None, 1)];
      new;
      cache.Alloc(RootKey(inst), a);
      FirstGood(inst, v, junk, a);
      assert cache.table == FirstState(inst, v, junk, a).at;
    }

    /** vfs_get_inode by address, with vfs_alloc_inode and the filling by the file system: the cache is
        asked first, so a key is never entered twice. a is what the pool would give. */
    method GetInode(k: Key, a: nat) returns (r: nat)
      requires Valid() && k.inst in vols && a != NULL && a !in cache.entries
      modifies `nodes, cache
      ensures Valid()
      ensures !Exists(vols, k) ==> r == NULL && View() == old(View())
      ensures Exists(vols, k) ==> Enabled(old(View()), Get(k, a)) && View() == Next(old(View()), Get(k, a))
      ensures Exists(vols, k) ==> k in cache.table && r == cache.table[k] && Inodes() == Bump(vols, old(Inodes()), k)
    {
      hide Inv, AllChained, Tabled, Fill;
      ghost var s := View();
      PoolIsFresh(cache, a);
      if Exists(vols, k) { GettingIsBump(s, k, a); }
      r := cache.Find(k);
      if r == NULL {
        if k.node != ROOT && k.node >= |vols[k.inst]| {
          return;
        }
        cache.Alloc(k, a);
        nodes := nodes[a := Fill(vols[k.inst], k.node).(count := 0)];
        r := a;
        SetAgain(s.nodes, a, nodes[a], nodes[a].(count := 1));
      } else {
        assert Exists(vols, k) by { CachedExists(vols, TableOf(s.at, s.nodes), rootFs, k); }
      }
      nodes := nodes[r := nodes[r].(count := nodes[r].count + 1)];
      assert View() == Getting(s, k, a);
    }

    /** vfs_release_inode by address. */
    method ReleaseInode(a: nat)
      requires Valid() && a in cache.entries
      modifies `nodes, cache
      ensures Valid() && old(cache.entries)[a].key in old(cache.table)
              && old(cache.table)[old(cache.entries)[a].key] == a
      ensures View() == Dropping(old(View()), old(cache.entries)[a].key)
      ensures Inodes() == Drop(old(Inodes()), old(cache.entries)[a].key)
    {
      hide Inv, AllChained, Tabled;
      TabledFacts(cache.heads, cache.entries, cache.chains, cache.table);
      var k := cache.entries[a].key;
      ghost var s := View();
      DroppingIsDrop(s, k);
      var n := nodes[a];
      if n.count > 0 {
        if n.count == 1 && (n.root || n.mountpoint) {
          return;
        }
        nodes := nodes[a := n.(count := n.count - 1)];
        if n.count == 1 {
          cache.Remove(k);
        }
      }
      assert View() == Dropping(s, k);
    }
  }

  /** The root inode at address a, and nothing else. */
  function FirstState(inst: nat, v: Volume, junk: nat, a: nat): State {
    State(map[inst := v], inst, map[RootKey(inst) := a], map[a := Inode(true, true, false, junk, None, 1)])
  }

  lemma FirstGood(inst: nat, v: Volume, junk: nat, a: nat)
    requires Sound(v) && a != NULL
    ensures Good(FirstState(inst, v, junk, a))
  {
    hide Sound;
    var s := FirstState(inst, v, junk, a);
    assert forall k :: k in s.at ==> k == RootKey(inst);
  }

  lemma PoolIsFresh(cache: Cache, a: nat)
    requires cache.Valid() && a != NULL && a !in cache.entries
    ensures Fresh(cache.table, a)
  {
    TabledFacts(cache.heads, cache.entries, cache.chains, cache.table);
  }

  lemma SetAgain(nodes: map<nat, Inode>, a: nat, n: Inode, m: Inode)
    ensures nodes[a := n][a := m] == nodes[a := m]
  {
  }
}
