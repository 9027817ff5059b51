/** The inodes of the virtual file system: reference counts, walking one entry, mounting
    (fs/vfs.c). An inode is named by its key, since the cache holds at most one per key. */
module Vfs {
  import opened Arch
  import opened InodeCache
  import opened Volumes

  /** struct inode, without what only its file system uses. spec is the union typespec: the mounted
      root of a mount point, the mount point of a root. */
  datatype Inode = Inode(dir: bool, root: bool, mountpoint: bool, parent: nat, spec: Option<Key>, count: nat)

  type Table = map<Key, Inode>
  type Vols = map<nat, Volume>

  function RootKey(inst: nat): Key { Key(inst, ROOT) }

  predicate Exists(vols: Vols, k: Key) { k.inst in vols && Known(vols[k.inst], k.node) }

  /** protofs_fill_inode on a fresh inode, counted zero times. It does not set the parent of a root;
      roots are cached once, by their mount, which says what their field held before. */
  function Fill(v: Volume, n: nat): Inode
    requires Known(v, n)
  {
    if n == ROOT then Inode(true, true, false, ROOT, None, 0)
    else Inode(v[n].dir, false, false, v[n].parent, None, 0)
  }

  // ---- the invariant ------------------------------------------------------------------------

  /** A cached inode is one of its volume, and in use. */
  ghost predicate Faithful(vols: Vols, k: Key, n: Inode) {
    && Exists(vols, k) && n.count > 0
    && var f := Fill(vols[k.inst], k.node);
       n.dir == f.dir && n.root == f.root && (n.root || n.parent == f.parent)
  }

  /** Mount points and roots refer to each other; no inode is both. */
  ghost predicate Paired(t: Table, k: Key)
    requires k in t
  {
    && (t[k].mountpoint ==> !t[k].root && t[k].spec.Some? && t[k].spec.value in t
                            && t[t[k].spec.value].root && t[t[k].spec.value].spec == Some(k))
    && (t[k].root && t[k].spec.Some? ==> t[k].spec.value in t && t[t[k].spec.value].mountpoint)
    && (!t[k].root && !t[k].mountpoint ==> t[k].spec.None?)
  }

  ghost predicate VolsSound(vols: Vols, t: Table) {
    forall i :: i in vols ==> Sound(vols[i]) && RootKey(i) in t
  }

  ghost predicate TableSound(vols: Vols, t: Table) {
    forall k :: k in t ==> Faithful(vols, k, t[k]) && Paired(t, k)
  }

  /** rootFs is the instance mounted on "/". */
  ghost predicate Inv(vols: Vols, t: Table, rootFs: nat) {
    && VolsSound(vols, t) && TableSound(vols, t)
    && rootFs in vols && t[RootKey(rootFs)].spec.None?
  }

  predicate Pinned(t: Table, k: Key) { k in t && (t[k].root || t[k].mountpoint) }

  // ---- references ------------------------------------------------------------------------------

  /** The table with one more reference to k: what vfs_get_inode leaves. */
  function Bump(vols: Vols, t: Table, k: Key): Table
    requires Exists(vols, k)
  {
    if k in t then t[k := t[k].(count := t[k].count + 1)]
    else t[k := Fill(vols[k.inst], k.node).(count := 1)]
  }

  /** vfs_release_inode. */
  function Drop(t: Table, k: Key): Table
    requires k in t
  {
    var n := t[k];
    if n.count == 0 || (n.count == 1 && (n.root || n.mountpoint)) then t
    else if n.count == 1 then t - {k}
    else t[k := n.(count := n.count - 1)]
  }

  /** One reference to the result, if there is one, and nothing else. */
  function Taken(vols: Vols, t: Table, r: Option<Key>): Table
    requires r.Some? ==> Exists(vols, r.value)
  {
    if r.Some? then Bump(vols, t, r.value) else t
  }

  function Count(t: Table, k: Key): nat { if k in t then t[k].count else 0 }

  lemma BumpKeeps(vols: Vols, t: Table, rootFs: nat, k: Key)
    requires Inv(vols, t, rootFs) && Exists(vols, k)
    ensures Inv(vols, Bump(vols, t, k), rootFs)
  {
    hide Known, Sound;
    var t' := Bump(vols, t, k);
    forall q | q in t' ensures Faithful(vols, q, t'[q]) && Paired(t', q) {
      BumpFlags(vols, t, k, q);
      if q in t { assert Faithful(vols, q, t[q]) && Paired(t, q); }
    }
  }

  /** A reference changes nothing but a count; a fresh inode is neither a root nor a mount point. */
  lemma BumpFlags(vols: Vols, t: Table, k: Key, q: Key)
    requires VolsSound(vols, t) && Exists(vols, k)
    ensures var t' := Bump(vols, t, k);
            && (q in t' <==> q in t || q == k)
            && (q in t ==> t'[q] == t[q].(count := t'[q].count))
            && (q in t' && q !in t ==> t'[q] == Fill(vols[k.inst], k.node).(count := 1) && k.node != ROOT)
  {
    hide Known, Sound;
    if k.node == ROOT { assert k == RootKey(k.inst); }
  }

  /** Releasing the reference just taken gives the table back, eviction and all. */
  lemma DropBump(vols: Vols, t: Table, rootFs: nat, k: Key)
    requires Inv(vols, t, rootFs) && Exists(vols, k)
    ensures k in Bump(vols, t, k) && Drop(Bump(vols, t, k), k) == t
  {
    hide Known, Sound, Paired;
    BumpFlags(vols, t, k, k);
    if k in t {
      assert Faithful(vols, k, t[k]);
      assert t[k := t[k]] == t;
    } else {
      assert t[k := Bump(vols, t, k)[k]] - {k} == t;
    }
  }

  /** References to two inodes can be taken and released in any order. */
  lemma DropOther(vols: Vols, t: Table, rootFs: nat, k: Key, r: Key)
    requires Inv(vols, t, rootFs) && Exists(vols, k) && Exists(vols, r)
    ensures k in Bump(vols, Bump(vols, t, k), r)
    ensures Drop(Bump(vols, Bump(vols, t, k), r), k) == Bump(vols, t, r)
  {
    hide Known, Sound, Paired, Inv;
    BumpTwice(vols, t, k, r);
    BumpKeeps(vols, t, rootFs, r);
    DropBump(vols, Bump(vols, t, r), rootFs, k);
  }

  lemma BumpTwice(vols: Vols, t: Table, k: Key, r: Key)
    requires Exists(vols, k) && Exists(vols, r)
    ensures Bump(vols, Bump(vols, t, k), r) == Bump(vols, Bump(vols, t, r), k)
  {
    hide Known, Fill;
    if k != r {
      forall q ensures q in Bump(vols, Bump(vols, t, k), r) <==> q in Bump(vols, Bump(vols, t, r), k) {}
    }
  }

  /** Roots and mount points are never evicted, by any release. */
  lemma PinnedStays(t: Table, k: Key, p: Key)
    requires k in t && Pinned(t, p) && t[p].count > 0
    ensures Pinned(Drop(t, k), p) && Drop(t, k)[p].count > 0
  {
  }

  // ---- one step --------------------------------------------------------------------------------

  /** Where names below k are looked up: the root mounted on k, if any. */
  function Real(t: Table, k: Key): Key {
    if k in t && t[k].mountpoint && t[k].spec.Some? then t[k].spec.value else k
  }

  /** Whose parent is the parent of k: the mount point of a root; nothing for the global root. */
  function Outer(t: Table, k: Key): Option<Key> {
    if k.node != ROOT then Some(k)
    else if k in t then t[k].spec else None
  }

  /** The parent field of the inode of k: of its node, or what a root's field happens to hold. */
  function ParentField(vols: Vols, t: Table, k: Key): Option<nat> {
    if k.node == ROOT then (if k in t then Some(t[k].parent) else None)
    else if Exists(vols, k) then Some(vols[k.inst][k.node].parent)
    else None
  }

  /** Where a name leads from k, whatever the counts. */
  function Step(vols: Vols, t: Table, k: Key, name: string): Option<Key> {
    if name == "." then Some(k)
    else if name == ".." then
      var o := Outer(t, k);
      if o.None? then None
      else
        var n := ParentField(vols, t, o.value);
        if n.Some? && Exists(vols, Key(o.value.inst, n.value)) then Some(Key(o.value.inst, n.value)) else None
    else
      var d := Real(t, k);
      if !Exists(vols, d) || !IsDir(vols[d.inst], d.node) then None
      else
        var f := FindSub(vols[d.inst], d.node, name);
        if f.None? then None else Some(Key(d.inst, f.value))
  }

  /** Steps do not see counts. */
  lemma StepOnBump(vols: Vols, t: Table, k: Key, q: Key, name: string)
    requires VolsSound(vols, t) && Exists(vols, k)
    ensures Step(vols, Bump(vols, t, k), q, name) == Step(vols, t, q, name)
  {
    hide Known, Sound, FindSub, IsDir;
    BumpFlags(vols, t, k, q);
    if Outer(t, q).Some? { BumpFlags(vols, t, k, Outer(t, q).value); }
  }

  lemma StepExists(vols: Vols, t: Table, rootFs: nat, k: Key, name: string)
    requires Inv(vols, t, rootFs) && Exists(vols, k)
    ensures var r := Step(vols, t, k, name); r.Some? ==> Exists(vols, r.value)
  {
    hide Paired, Faithful;
  }

  /** ".." leads nowhere exactly from the root of the whole tree (and from a root never mounted). */
  lemma NoParentExact(vols: Vols, t: Table, rootFs: nat, k: Key)
    requires Inv(vols, t, rootFs) && Exists(vols, k)
    ensures Step(vols, t, k, "..").None? <==> k.node == ROOT && t[k].spec.None?
    ensures Step(vols, t, RootKey(rootFs), "..").None?
  {
    hide FindSub, Sound;
    if k.node == ROOT {
      assert k == RootKey(k.inst);
      assert Paired(t, k);
      if t[k].spec.Some? {
        var m := t[k].spec.value;
        assert Faithful(vols, m, t[m]) && Paired(t, m);
        ParentKnown(vols[m.inst], m.node);
      }
    } else {
      ParentKnown(vols[k.inst], k.node);
    }
  }

  lemma ParentKnown(v: Volume, n: nat)
    requires Sound(v) && Known(v, n) && n != ROOT
    ensures Known(v, v[n].parent)
  {
  }

  // ---- mount points and the roots on them ------------------------------------------------------------

  /** r is the root mounted on m. */
  predicate MountedOn(t: Table, m: Key, r: Key) {
    m in t && t[m].mountpoint && t[m].spec == Some(r)
  }

  /** The same place in the tree: equal, or a mount point and the root mounted on it. */
  predicate Same(t: Table, a: Key, b: Key) {
    a == b || MountedOn(t, a, b) || MountedOn(t, b, a)
  }

  predicate SameResult(t: Table, a: Option<Key>, b: Option<Key>) {
    (a.None? && b.None?) || (a.Some? && b.Some? && Same(t, a.value, b.value))
  }

  /** Any name other than "." leads to the same inode from a mount point and from the root on it. */
  lemma StepFromTwin(vols: Vols, t: Table, rootFs: nat, m: Key, r: Key, name: string)
    requires Inv(vols, t, rootFs) && MountedOn(t, m, r) && name != "."
    ensures Step(vols, t, m, name) == Step(vols, t, r, name)
  {
    hide Sound, FindSub, Known;
    assert Faithful(vols, m, t[m]) && Paired(t, m);
    assert Faithful(vols, r, t[r]) && Paired(t, r);
  }

  lemma StepRespectsSame(vols: Vols, t: Table, rootFs: nat, a: Key, b: Key, name: string)
    requires Inv(vols, t, rootFs) && Same(t, a, b)
    ensures SameResult(t, Step(vols, t, a, name), Step(vols, t, b, name))
  {
    hide Inv, FindSub, Known, IsDir;
    if a != b && name != "." {
      if MountedOn(t, a, b) {
        StepFromTwin(vols, t, rootFs, a, b, name);
      } else {
        StepFromTwin(vols, t, rootFs, b, a, name);
      }
    }
  }

  /** Entering a child and leaving it again comes back to the same place. */
  lemma ChildParent(vols: Vols, t: Table, rootFs: nat, k: Key, name: string)
    requires Inv(vols, t, rootFs) && Exists(vols, k) && name != "." && name != ".."
    requires Step(vols, t, k, name).Some?
    ensures SameResult(t, Step(vols, t, Step(vols, t, k, name).value, ".."), Some(k))
  {
    hide TableSound;
    var c := Step(vols, t, k, name).value;
    var d := Real(t, k);
    assert IsChild(vols[d.inst], d.node, c.node);
    assert Sound(vols[d.inst]);
  }

  /** vfs_resolve_mount. */
  function Twin(t: Table, k: Key): Option<Key>
    requires k in t
  {
    if t[k].mountpoint then t[k].spec
    else if t[k].root then t[k].spec
    else None
  }

  /** From a mount point to the root on it and back. */
  lemma TwinOfTwin(vols: Vols, t: Table, rootFs: nat, m: Key)
    requires Inv(vols, t, rootFs) && m in t && t[m].mountpoint
    ensures Twin(t, m).Some? && Twin(t, m).value in t && Twin(t, Twin(t, m).value) == Some(m)
    ensures Same(t, m, Twin(t, m).value)
  {
    hide Faithful, Sound;
    assert Paired(t, m);
    assert Paired(t, t[m].spec.value);
  }

  // ---- mounting ------------------------------------------------------------------------------------------

  /** vfs_mount once the directory m is found: the root of the new instance is cached and each of the
      two refers to the other through the union. junk is what the parent field of the root held. */
  function Mounted(t: Table, m: Key, inst: nat, junk: nat): Table
    requires m in t
  {
    t[RootKey(inst) := Inode(true, true, false, junk, Some(m), 1)]
     [m := t[m].(mountpoint := true, spec := Some(RootKey(inst)))]
  }

  /** Mounting keeps the tree sound exactly when the directory is not itself the root of a file
      system: a root keeps its own mount point in the same union. */
  lemma MountExact(vols: Vols, t: Table, rootFs: nat, m: Key, inst: nat, v: Volume, junk: nat)
    requires Inv(vols, t, rootFs) && m in t && inst !in vols && Sound(v)
    ensures Inv(vols[inst := v], Mounted(t, m, inst, junk), rootFs) <==> !t[m].root
  {
    hide Sound;
    var vols', t' := vols[inst := v], Mounted(t, m, inst, junk);
    assert Faithful(vols, m, t[m]) && Paired(t, m);
    if t[m].root {
      assert !Paired(t', m);
    } else {
      MountKeepsTable(vols, t, m, inst, v, junk);
      assert RootKey(rootFs) in t && Faithful(vols, RootKey(rootFs), t[RootKey(rootFs)]);
    }
  }

  lemma MountKeepsTable(vols: Vols, t: Table, m: Key, inst: nat, v: Volume, junk: nat)
    requires TableSound(vols, t) && m in t && inst !in vols && !t[m].root
    ensures TableSound(vols[inst := v], Mounted(t, m, inst, junk))
  {
    var vols', t' := vols[inst := v], Mounted(t, m, inst, junk);
    forall k | k in t' ensures Faithful(vols', k, t'[k]) && Paired(t', k) {
      if k in t { MountKeepsEntry(vols, t, m, inst, v, junk, k); } else { assert Faithful(vols, m, t[m]); }
    }
  }

  lemma MountKeepsEntry(vols: Vols, t: Table, m: Key, inst: nat, v: Volume, junk: nat, k: Key)
    requires TableSound(vols, t) && m in t && inst !in vols && !t[m].root && k in t
    ensures Faithful(vols[inst := v], k, Mounted(t, m, inst, junk)[k]) && Paired(Mounted(t, m, inst, junk), k)
  {
    assert Faithful(vols, k, t[k]) && Paired(t, k);
    assert Faithful(vols, m, t[m]) && Paired(t, m);
    if t[k].spec.Some? {
      var q := t[k].spec.value;
      assert q in t && Faithful(vols, q, t[q]) && Paired(t, q);
    }
  }

  /** What a mount is for: names below the directory are those of the new root, every other step is
      what it was. */
  ghost function Promised(vols: Vols, t: Table, m: Key, inst: nat, v: Volume, k: Key, name: string): Option<Key> {
    if k == m && name != "." && name != ".." then
      (var f := FindSub(v, ROOT, name); if f.None? then None else Some(Key(inst, f.value)))
    else Step(vols, t, k, name)
  }

  lemma MountedSteps(vols: Vols, t: Table, rootFs: nat, m: Key, inst: nat, v: Volume, junk: nat, k: Key, name: string)
    requires Inv(vols, t, rootFs) && m in t && inst !in vols && !t[m].root && Exists(vols, k)
    ensures Step(vols[inst := v], Mounted(t, m, inst, junk), k, name) == Promised(vols, t, m, inst, v, k, name)
  {
    hide Sound, FindSub;
    assert Faithful(vols, m, t[m]) && Paired(t, m);
    if k in t {
      assert Paired(t, k);
      if t[k].spec.Some? {
        assert Faithful(vols, t[k].spec.value, t[t[k].spec.value]) && Paired(t, t[k].spec.value);
      }
    }
  }

  /** The steps are as promised, and the directory and the new root lead to the same places. */
  ghost predicate MountWorks(vols: Vols, t: Table, m: Key, inst: nat, v: Volume, junk: nat)
    requires m in t
  {
    var vols', t' := vols[inst := v], Mounted(t, m, inst, junk);
    && (forall k, name :: Exists(vols, k) ==> Step(vols', t', k, name) == Promised(vols, t, m, inst, v, k, name))
    && (forall name :: name != "." ==> Step(vols', t', m, name) == Step(vols', t', RootKey(inst), name))
  }

  /** A mount works, whatever the parent field of the new root held, exactly when the directory is not
      itself the root of a file system. */
  lemma MountStepsExact(vols: Vols, t: Table, rootFs: nat, m: Key, inst: nat, v: Volume)
    requires Inv(vols, t, rootFs) && m in t && inst !in vols && Sound(v)
    ensures (forall junk: nat :: MountWorks(vols, t, m, inst, v, junk)) <==> !t[m].root
  {
    hide Inv, Step, Promised, Sound, FindSub, Mounted;
    if t[m].root {
      RootMountSteps(vols, t, rootFs, m, inst, v, ROOT);
      assert Exists(vols, m) by { CachedExists(vols, t, rootFs, m); }
      assert !MountWorks(vols, t, m, inst, v, ROOT) by { PromisedParent(vols, t, m, inst, v); }
    } else {
      forall junk: nat ensures MountWorks(vols, t, m, inst, v, junk) {
        MountDoesWork(vols, t, rootFs, m, inst, v, junk);
      }
    }
  }

  lemma CachedExists(vols: Vols, t: Table, rootFs: nat, m: Key)
    requires Inv(vols, t, rootFs) && m in t
    ensures Exists(vols, m)
  {
    hide Sound;
    assert Faithful(vols, m, t[m]);
  }

  lemma PromisedParent(vols: Vols, t: Table, m: Key, inst: nat, v: Volume)
    ensures Promised(vols, t, m, inst, v, m, "..") == Step(vols, t, m, "..")
  {
  }

  lemma MountDoesWork(vols: Vols, t: Table, rootFs: nat, m: Key, inst: nat, v: Volume, junk: nat)
    requires Inv(vols, t, rootFs) && m in t && inst !in vols && Sound(v) && !t[m].root
    ensures MountWorks(vols, t, m, inst, v, junk)
  {
    hide Inv, Step, Promised, Sound, FindSub;
    var vols', t' := vols[inst := v], Mounted(t, m, inst, junk);
    forall k, name | Exists(vols, k) ensures Step(vols', t', k, name) == Promised(vols, t, m, inst, v, k, name) {
      MountedSteps(vols, t, rootFs, m, inst, v, junk, k, name);
    }
    MountExact(vols, t, rootFs, m, inst, v, junk);
    forall name | name != "." ensures Step(vols', t', m, name) == Step(vols', t', RootKey(inst), name) {
      StepFromTwin(vols', t', rootFs, m, RootKey(inst), name);
    }
  }

  /** Mounting on a root: ".." from it used to lead to the parent of its own mount point, or nowhere
      from the global root; now it leads to whatever node the field of the new root names, in the new
      file system. */
  lemma RootMountSteps(vols: Vols, t: Table, rootFs: nat, m: Key, inst: nat, v: Volume, junk: nat)
    requires Inv(vols, t, rootFs) && m in t && inst !in vols && t[m].root
    ensures Step(vols[inst := v], Mounted(t, m, inst, junk), m, "..")
            == if Known(v, junk) then Some(Key(inst, junk)) else None
    ensures Step(vols, t, m, "..").None? <==> t[m].spec.None?
    ensures Step(vols, t, m, "..").Some? ==> Step(vols, t, m, "..").value.inst in vols
    ensures Step(vols, t, m, "..") != Step(vols[inst := v], Mounted(t, m, inst, junk), m, "..") <==>
              t[m].spec.Some? || Known(v, junk)
  {
    hide FindSub;
    assert Faithful(vols, m, t[m]) && Paired(t, m);
    assert m == RootKey(m.inst) && m.inst != inst;
    NoParentExact(vols, t, rootFs, m);
  }

  // ---- the operations ---------------------------------------------------------------------------------

  class Tree {
    var vols: Vols
    var inodes: Table
    var rootFs: nat

    ghost predicate Valid()
      reads this
    {
      Inv(vols, inodes, rootFs)
    }

    /** vfs_mount of the root file system. */
    constructor (inst: nat, v: Volume, junk: nat)
      requires Sound(v)
      ensures Valid() && vols == map[inst := v] && rootFs == inst
      ensures inodes == map[RootKey(inst) := Inode(true, true, false, junk, None, 1)]
    {
      vols, rootFs := map[inst := v], inst;
      inodes := map[RootKey(inst) := Inode(true, true, false, junk, None, 1)];
    }

    /** vfs_get_inode: None when the file system has no such node. */
    method GetInode(k: Key) returns (r: Option<Key>)
      requires Valid() && k.inst in vols
      modifies `inodes
      ensures r == if Exists(vols, k) then Some(k) else None
      ensures inodes == if Exists(vols, k) then Bump(vols, old(inodes), k) else old(inodes)
      ensures Valid()
    {
      hide Sound, Paired;
      if Exists(vols, k) { BumpKeeps(vols, inodes, rootFs, k); }
      if k !in inodes && k.node != ROOT && k.node >= |vols[k.inst]| {
        return None;
      }
      if k in inodes {
        assert Faithful(vols, k, inodes[k]);
        inodes := inodes[k := inodes[k].(count := inodes[k].count + 1)];
      } else {
        inodes := inodes[k := Fill(vols[k.inst], k.node)];
        inodes := inodes[k := inodes[k].(count := inodes[k].count + 1)];
      }
      r := Some(k);
    }

    /** vfs_release_inode. */
    method ReleaseInode(k: Key)
      requires k in inodes
      modifies `inodes
      ensures inodes == Drop(old(inodes), k)
    {
      if inodes[k].count > 0 {
        if inodes[k].count == 1 && (inodes[k].root || inodes[k].mountpoint) {
          return;
        }
        inodes := inodes[k := inodes[k].(count := inodes[k].count - 1)];
        if inodes[k].count == 0 {
          inodes := inodes - {k};
        }
      }
    }

    /** vfs_walk_entry: the inode found has one more reference, nothing else changes. */
    method WalkEntry(parent: Key, name: string) returns (r: Option<Key>)
      requires Valid() && parent in inodes
      modifies `inodes
      ensures Valid() && r == Step(vols, old(inodes), parent, name)
      ensures r.Some? ==> Exists(vols, r.value)
      ensures inodes == if r.Some? then Bump(vols, old(inodes), r.value) else old(inodes)
    {
      hide Sound, FindSub, IsDir, VolsSound;
      StepExists(vols, inodes, rootFs, parent, name);
      assert Faithful(vols, parent, inodes[parent]) && Paired(inodes, parent);
      r := None;
      if name == "." {
        BumpKeeps(vols, inodes, rootFs, parent);
        r := Some(parent);
        inodes := inodes[parent := inodes[parent].(count := inodes[parent].count + 1)];
      } else if name == ".." {
        r := WalkUp(parent);
      } else {
        r := WalkDown(parent, name);
      }
    }

    method WalkUp(parent: Key) returns (r: Option<Key>)
      requires Valid() && parent in inodes
      modifies `inodes
      ensures Valid() && r == Step(vols, old(inodes), parent, "..")
      ensures r.Some? ==> Exists(vols, r.value)
      ensures inodes == if r.Some? then Bump(vols, old(inodes), r.value) else old(inodes)
    {
      hide FindSub;
      StepExists(vols, inodes, rootFs, parent, "..");
      assert Faithful(vols, parent, inodes[parent]) && Paired(inodes, parent);
      var at := Some(parent);
      if inodes[parent].root {
        at := inodes[parent].spec;
      }
      r := None;
      if at.Some? {
        assert Faithful(vols, at.value, inodes[at.value]) && Paired(inodes, at.value);
        assert Sound(vols[at.value.inst]);
        r := GetInode(Key(at.value.inst, inodes[at.value].parent));
      }
    }

    method WalkDown(parent: Key, name: string) returns (r: Option<Key>)
      requires Valid() && parent in inodes && name != "." && name != ".."
      modifies `inodes
      ensures Valid() && r == Step(vols, old(inodes), parent, name)
      ensures r.Some? ==> Exists(vols, r.value)
      ensures inodes == if r.Some? then Bump(vols, old(inodes), r.value) else old(inodes)
    {
      StepExists(vols, inodes, rootFs, parent, name);
      assert Faithful(vols, parent, inodes[parent]) && Paired(inodes, parent);
      var at := parent;
      if inodes[parent].mountpoint {
        at := inodes[parent].spec.value;
      }
      assert Faithful(vols, at, inodes[at]);
      r := None;
      if inodes[at].dir {
        var f := FindSub(vols[at.inst], at.node, name);
        if f.Some? {
          r := GetInode(Key(at.inst, f.value));
        }
      }
    }
  }
}
