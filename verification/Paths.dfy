/** Resolving paths (fs/vfs.c, vfs_resolve and vfs_mount): what a path means, which spellings mean the
    same, and what resolving one does to the reference counts. */
module Paths {
  import opened Arch
  import opened InodeCache
  import opened Volumes
  import opened Vfs

  const MAX_NAME := 20   // INODE_MAX_NAME
  const MAX_MOUNT := 6   // VFS_MAX_MOUNT

  // ---- the names in a path -----------------------------------------------------------------

  function EndOfName(p: string): (e: nat)
    ensures e <= |p|
  {
    if p == [] || p[0] == '/' then 0 else 1 + EndOfName(p[1..])
  }

  /** The first slash, or the end. */
  predicate IsEnd(p: string, e: nat) {
    e <= |p| && (forall i :: 0 <= i < e ==> p[i] != '/') && (e < |p| ==> p[e] == '/')
  }

  /** The non-empty names between slashes. */
  function Names(p: string): seq<string>
    decreases |p|
  {
    var e := EndOfName(p);
    (if e == 0 then [] else [p[..e]]) + (if e == |p| then [] else Names(p[e + 1..]))
  }

  lemma {:induction false} EndIs(p: string, e: nat)
    requires IsEnd(p, e)
    ensures EndOfName(p) == e
  {
    if e > 0 { EndIs(p[1..], e - 1); }
  }

  lemma {:induction false} EndFound(p: string)
    ensures IsEnd(p, EndOfName(p))
  {
    if p != [] && p[0] != '/' { EndFound(p[1..]); }
  }

  lemma {:induction false} NamesUnfold(p: string, e: nat)
    requires IsEnd(p, e)
    ensures Names(p) == (if e == 0 then [] else [p[..e]]) + (if e == |p| then [] else Names(p[e + 1..]))
  {
    hide EndOfName, IsEnd;
    EndIs(p, e);
  }

  lemma {:induction false} NamesJoin(a: string, b: string)
    ensures Names(a + "/" + b) == Names(a) + Names(b)
    decreases |a|
  {
    hide EndOfName, Names;
    var p, e := a + "/" + b, EndOfName(a);
    EndFound(a);
    NamesUnfold(a, e);
    NamesUnfold(p, e);
    assert p[..e] == a[..e];
    if e == |a| {
      assert p[e + 1..] == b;
    } else {
      assert p[e + 1..] == a[e + 1..] + "/" + b;
      NamesJoin(a[e + 1..], b);
    }
  }

  lemma {:induction false} OneName(x: string)
    requires x != [] && '/' !in x
    ensures Names(x) == [x]
  {
    hide EndOfName, Names;
    NamesUnfold(x, |x|);
    assert x[..|x|] == x;
  }

  // ---- where a path leads ----------------------------------------------------------------------

  ghost function Steps(vols: Vols, t: Table, k: Key, names: seq<string>): Option<Key>
    decreases |names|
  {
    if |names| == 0 then Some(k)
    else
      var next := Step(vols, t, k, names[0]);
      if next.None? then None else Steps(vols, t, next.value, names[1..])
  }

  lemma {:induction false} StepsAppend(vols: Vols, t: Table, k: Key, m: seq<string>, n: seq<string>)
    ensures Steps(vols, t, k, m + n) ==
            var mid := Steps(vols, t, k, m); if mid.None? then None else Steps(vols, t, mid.value, n)
    decreases |m|
  {
    hide Step;
    if m == [] {
      assert m + n == n;
    } else {
      assert (m + n)[1..] == m[1..] + n;
      var next := Step(vols, t, k, m[0]);
      if next.Some? { StepsAppend(vols, t, next.value, m[1..], n); }
    }
  }

  lemma {:induction false} StepsExist(vols: Vols, t: Table, rootFs: nat, k: Key, names: seq<string>)
    requires Inv(vols, t, rootFs) && Exists(vols, k)
    ensures var r := Steps(vols, t, k, names); r.Some? ==> Exists(vols, r.value)
    decreases |names|
  {
    hide Inv, Step, Known;
    if names != [] {
      StepExists(vols, t, rootFs, k, names[0]);
      var next := Step(vols, t, k, names[0]);
      if next.Some? { StepsExist(vols, t, rootFs, next.value, names[1..]); }
    }
  }

  /** From the same place, the same names lead to the same place. */
  lemma {:induction false} StepsRespectSame(vols: Vols, t: Table, rootFs: nat, a: Key, b: Key, names: seq<string>)
    requires Inv(vols, t, rootFs) && Same(t, a, b)
    ensures SameResult(t, Steps(vols, t, a, names), Steps(vols, t, b, names))
    decreases |names|
  {
    hide Inv, Step, Same;
    if names != [] {
      StepRespectsSame(vols, t, rootFs, a, b, names[0]);
      var x, y := Step(vols, t, a, names[0]), Step(vols, t, b, names[0]);
      if x.Some? { StepsRespectSame(vols, t, rootFs, x.value, y.value, names[1..]); }
    }
  }

  ghost function Meaning(vols: Vols, t: Table, k: Key, path: string): Option<Key> { Steps(vols, t, k, Names(path)) }

  /** A doubled slash means nothing. */
  lemma DoubleSlash(vols: Vols, t: Table, k: Key, a: string, b: string)
    ensures Meaning(vols, t, k, a + "//" + b) == Meaning(vols, t, k, a + "/" + b)
    ensures Meaning(vols, t, k, "/" + b) == Meaning(vols, t, k, b)
  {
    hide Names, Steps;
    assert a + "//" + b == a + "/" + ("" + "/" + b);
    assert "/" + b == "" + "/" + b;
    NamesJoin(a, "" + "/" + b);
    NamesJoin("", b);
    NamesJoin(a, b);
    NoNames();
    assert [] + Names(b) == Names(b);
  }

  lemma NoNames()
    ensures Names("") == []
  {
  }

  /** "." means nothing. */
  lemma DotInPath(vols: Vols, t: Table, k: Key, a: string, b: string)
    ensures Meaning(vols, t, k, a + "/./" + b) == Meaning(vols, t, k, a + "/" + b)
  {
    hide Names;
    assert a + "/./" + b == a + "/" + ("." + "/" + b);
    NamesJoin(a, "." + "/" + b);
    NamesJoin(".", b);
    NamesJoin(a, b);
    OneName(".");
    StepsAppend(vols, t, k, Names(a), ["."] + Names(b));
    StepsAppend(vols, t, k, Names(a), Names(b));
    assert (["."] + Names(b))[1..] == Names(b);
  }

  /** Going down to an existing child and back up means nothing, but for ending at the mounted root
      instead of the mount point. */
  lemma ChildAndBack(vols: Vols, t: Table, rootFs: nat, k: Key, a: string, x: string, b: string)
    requires Inv(vols, t, rootFs) && Exists(vols, k)
    requires x != [] && '/' !in x && x != "." && x != ".."
    requires var d := Meaning(vols, t, k, a); d.Some? ==> Step(vols, t, d.value, x).Some?
    ensures SameResult(t, Meaning(vols, t, k, a + "/" + x + "/../" + b), Meaning(vols, t, k, a + "/" + b))
  {
    hide Inv, Names, Step, Known, Same;
    assert a + "/" + x + "/../" + b == a + "/" + (x + "/" + (".." + "/" + b));
    NamesJoin(a, x + "/" + (".." + "/" + b));
    NamesJoin(x, ".." + "/" + b);
    NamesJoin("..", b);
    NamesJoin(a, b);
    OneName(x);
    OneName("..");
    assert Names(a + "/" + x + "/../" + b) == Names(a) + ([x] + ([".."] + Names(b)));
    StepsAppend(vols, t, k, Names(a), [x] + ([".."] + Names(b)));
    StepsAppend(vols, t, k, Names(a), Names(b));
    var d := Meaning(vols, t, k, a);
    if d.Some? {
      StepsExist(vols, t, rootFs, k, Names(a));
      ChildAndBackSteps(vols, t, rootFs, d.value, x, Names(b));
    }
  }

  lemma ChildAndBackSteps(vols: Vols, t: Table, rootFs: nat, d: Key, x: string, names: seq<string>)
    requires Inv(vols, t, rootFs) && Exists(vols, d) && x != "." && x != ".." && Step(vols, t, d, x).Some?
    ensures SameResult(t, Steps(vols, t, d, [x] + ([".."] + names)), Steps(vols, t, d, names))
  {
    hide Inv, Step, Known, Same;
    var c := Step(vols, t, d, x).value;
    ChildParent(vols, t, rootFs, d, x);
    var back := Step(vols, t, c, "..");
    assert ([x] + ([".."] + names))[1..] == [".."] + names;
    assert ([".."] + names)[1..] == names;
    StepsRespectSame(vols, t, rootFs, back.value, d, names);
  }

  // ---- references ----------------------------------------------------------------------------------

  /** k can spare a reference: one is held besides the one that pins a root or a mount point. */
  predicate Held(t: Table, k: Key) { k in t && t[k].count > (if t[k].root || t[k].mountpoint then 1 else 0) }

  lemma BumpDrop(vols: Vols, t: Table, rootFs: nat, k: Key)
    requires Inv(vols, t, rootFs) && Held(t, k)
    ensures Exists(vols, k) && Bump(vols, Drop(t, k), k) == t && Drop(t, k) != t
  {
    hide Sound, Known;
    assert Faithful(vols, k, t[k]) && Paired(t, k);
    assert Drop(t, k)[k := t[k]] == t;
  }

  lemma {:induction false} DropKeeps(vols: Vols, t: Table, rootFs: nat, k: Key)
    requires Inv(vols, t, rootFs) && Held(t, k)
    ensures Inv(vols, Drop(t, k), rootFs)
  {
    hide Sound, Known;
    var t' := Drop(t, k);
    assert Faithful(vols, k, t[k]) && Paired(t, k);
    forall q | q in t' ensures Faithful(vols, q, t'[q]) && Paired(t', q) {
      assert Faithful(vols, q, t[q]) && Paired(t, q);
      if t[q].spec.Some? { assert Paired(t, t[q].spec.value); }
    }
    forall i | i in vols ensures RootKey(i) in t' {
      assert Faithful(vols, RootKey(i), t[RootKey(i)]);
    }
  }

  /** What resolution from cwd leaves the counts to build on: its own reference is given away. */
  function Base(t: Table, path: string, cwd: Option<Key>): Table
    requires cwd.Some? ==> cwd.value in t
  {
    if Relative(path, cwd) then Drop(t, cwd.value) else t
  }

  predicate Relative(path: string, cwd: Option<Key>) { cwd.Some? && (path == [] || path[0] != '/') }

  lemma TakenInjective(vols: Vols, t: Table, u: Table, rootFs: nat, r: Option<Key>)
    requires Inv(vols, t, rootFs) && Inv(vols, u, rootFs) && (r.Some? ==> Exists(vols, r.value))
    ensures Taken(vols, t, r) == Taken(vols, u, r) ==> t == u
  {
    hide Inv, Known, Bump, Drop;
    if r.Some? {
      DropBump(vols, t, rootFs, r.value);
      DropBump(vols, u, rootFs, r.value);
    }
  }

  /** Resolution takes exactly one reference to its result, and none on failure, if and only if the
      path is absolute or the process has no working directory. */
  lemma ConservesExact(vols: Vols, t: Table, rootFs: nat, path: string, cwd: Option<Key>, r: Option<Key>)
    requires Inv(vols, t, rootFs) && (cwd.Some? ==> Held(t, cwd.value)) && (r.Some? ==> Exists(vols, r.value))
    ensures Taken(vols, Base(t, path, cwd), r) == Taken(vols, t, r) <==> !Relative(path, cwd)
  {
    hide Inv, Known, Bump, Drop;
    if Relative(path, cwd) {
      BumpDrop(vols, t, rootFs, cwd.value);
      DropKeeps(vols, t, rootFs, cwd.value);
      TakenInjective(vols, Drop(t, cwd.value), t, rootFs, r);
    }
  }

  // ---- the operations ---------------------------------------------------------------------------------

  function CharAt(p: string, i: nat): char { if i < |p| then p[i] else '\0' }

  /** The copy of the next name into tmpname. */
  method CopyName(path: string, ppos: nat, tmpname: array<char>) returns (namepos: nat, next: nat)
    requires '\0' !in path && ppos <= |path| && tmpname.Length == MAX_NAME
    requires EndOfName(path[ppos..]) < MAX_NAME
    modifies tmpname
    ensures namepos == EndOfName(path[ppos..]) && next == ppos + namepos
    ensures tmpname[..namepos] == path[ppos..][..namepos]
  {
    hide EndOfName;
    EndFound(path[ppos..]);
    namepos, next := 0, ppos;
    var c := CharAt(path, ppos);
    ghost var e := EndOfName(path[ppos..]);
    while c != '/' && c != '\0'
      invariant namepos <= e && next == ppos + namepos && c == CharAt(path, next)
      invariant tmpname[..namepos] == path[ppos..next]
      decreases e - namepos
    {
      assert path[ppos..][namepos] == path[next];
      assert namepos < e;
      tmpname[namepos] := c;
      next, namepos := next + 1, namepos + 1;
      c := CharAt(path, next);
      assert path[ppos..next] == path[ppos..next - 1] + [path[next - 1]];
    }
    EndIs(path[ppos..], namepos);
    tmpname[namepos] := '\0';
    assert path[ppos..][..namepos] == path[ppos..next];
  }

  /** One turn of the loop: walk to the next inode, then release the one left behind. */
  method Advance(tree: Tree, current: Key, name: string, ghost base: Table) returns (swap: Option<Key>)
    requires Inv(tree.vols, base, tree.rootFs) && Exists(tree.vols, current)
    requires tree.inodes == Bump(tree.vols, base, current)
    modifies tree`inodes
    ensures swap == Step(tree.vols, base, current, name) && (swap.Some? ==> Exists(tree.vols, swap.value))
    ensures tree.inodes == Taken(tree.vols, base, swap)
  {
    hide Inv, Step, Drop, Known, Bump;
    BumpKeeps(tree.vols, base, tree.rootFs, current);
    StepOnBumpInv(tree.vols, base, tree.rootFs, current, name);
    DropBump(tree.vols, base, tree.rootFs, current);
    swap := tree.WalkEntry(current, name);
    if swap.Some? {
      DropOther(tree.vols, base, tree.rootFs, current, swap.value);
    }
    tree.ReleaseInode(current);
  }

  lemma StepOnBumpInv(vols: Vols, t: Table, rootFs: nat, k: Key, name: string)
    requires Inv(vols, t, rootFs) && Exists(vols, k)
    ensures Step(vols, Bump(vols, t, k), k, name) == Step(vols, t, k, name)
  {
    StepOnBump(vols, t, k, k, name);
  }

  /** vfs_resolve. */
  method Resolve(tree: Tree, path: string, cwd: Option<Key>) returns (r: Option<Key>)
    requires tree.Valid() && (cwd.Some? ==> Held(tree.inodes, cwd.value))
    requires '\0' !in path && forall n :: n in Names(path) ==> |n| < MAX_NAME
    modifies tree`inodes
    ensures tree.Valid()
    ensures var start := if Relative(path, cwd) then cwd.value else RootKey(tree.rootFs);
            r == Meaning(tree.vols, old(tree.inodes), start, path)
    ensures r.Some? ==> Exists(tree.vols, r.value)
    ensures tree.inodes == Taken(tree.vols, Base(old(tree.inodes), path, cwd), r)
  {
    hide Inv, Step, Steps, Known, Bump, Drop, Names;
    ghost var base := Base(tree.inodes, path, cwd);
    var current: Option<Key>;
    var ppos := 0;
    if (path != [] && path[0] == '/') || cwd.None? {
      RootExists(tree.vols, tree.inodes, tree.rootFs);
      current := tree.GetInode(RootKey(tree.rootFs));
      if path != [] && path[0] == '/' {
        ppos := 1;
        LeadingSlash(path);
      } else {
        assert path[0..] == path;
      }
    } else {
      current := cwd;
      BumpDrop(tree.vols, tree.inodes, tree.rootFs, cwd.value);
      DropKeeps(tree.vols, tree.inodes, tree.rootFs, cwd.value);
      SameMeaning(tree.vols, base, tree.rootFs, cwd.value, cwd.value, Names(path));
      assert path[0..] == path;
    }
    r := Follow(tree, path, ppos, current.value, base);
  }

  /** What one turn of the loop takes off the path. */
  lemma {:induction false} NextName(path: string, ppos: nat)
    requires '\0' !in path && ppos <= |path|
    ensures var e := EndOfName(path[ppos..]);
            && ppos + e <= |path| && (CharAt(path, ppos + e) == '\0' <==> ppos + e == |path|)
            && Names(path[ppos..]) == (if e == 0 then [] else [path[ppos..][..e]])
                                      + (if ppos + e == |path| then [] else Names(path[ppos + e + 1..]))
  {
    hide EndOfName, Names;
    var e := EndOfName(path[ppos..]);
    EndFound(path[ppos..]);
    NamesUnfold(path[ppos..], e);
    if ppos + e < |path| { assert path[ppos..][e + 1..] == path[ppos + e + 1..]; }
  }

  /** The loop of vfs_resolve. */
  method Follow(tree: Tree, path: string, start: nat, first: Key, ghost base: Table) returns (r: Option<Key>)
    requires Inv(tree.vols, base, tree.rootFs) && Exists(tree.vols, first)
    requires tree.inodes == Bump(tree.vols, base, first)
    requires '\0' !in path && start <= |path| && forall n :: n in Names(path[start..]) ==> |n| < MAX_NAME
    modifies tree`inodes
    ensures r == Steps(tree.vols, base, first, Names(path[start..]))
    ensures r.Some? ==> Exists(tree.vols, r.value)
    ensures tree.inodes == Taken(tree.vols, base, r)
    ensures tree.Valid()
  {
    hide Inv, Step, Known, Bump, Names, EndOfName;
    var tmpname := new char[MAX_NAME];
    var ppos, current := start, Some(first);
    ghost var names := Names(path[ppos..]);
    r := None;
    var again := true;
    while again
      invariant ppos <= |path| && (again ==> r.None? && current.Some? && names == Names(path[ppos..]))
      invariant current.Some? ==> Exists(tree.vols, current.value)
      invariant tree.inodes == Taken(tree.vols, base, current)
      invariant forall n :: n in names ==> |n| < MAX_NAME
      invariant current.Some? ==>
                  Steps(tree.vols, base, current.value, names) == Steps(tree.vols, base, first, Names(path[start..]))
      invariant current.None? ==> Steps(tree.vols, base, first, Names(path[start..])).None?
      invariant !again ==> r == current && names == []
      invariant fresh(tmpname)
      decreases |path| - ppos, again
    {
      ghost var e := EndOfName(path[ppos..]);
      NextName(path, ppos);
      assert e > 0 ==> names[0] == path[ppos..][..e];
      var namepos, next := CopyName(path, ppos, tmpname);
      if namepos > 0 {
        var name := tmpname[..namepos];
        current := Advance(tree, current.value, name, base);
        names := names[1..];
      }
      if CharAt(path, next) != '\0' {
        ppos := next + 1;
      } else {
        ppos, r := next, current;
      }
      again := r.None? && current.Some?;
      if current.None? { names := []; }
    }
    if r.Some? { BumpKeeps(tree.vols, base, tree.rootFs, r.value); }
  }

  lemma LeadingSlash(path: string)
    requires path != [] && path[0] == '/'
    ensures Names(path[1..]) == Names(path)
  {
    assert path == "" + "/" + path[1..];
    NamesJoin("", path[1..]);
  }

  lemma RootExists(vols: Vols, t: Table, rootFs: nat)
    requires Inv(vols, t, rootFs)
    ensures rootFs in vols && Exists(vols, RootKey(rootFs))
  {
  }

  /** Paths lead to the same inode whoever holds references. */
  lemma {:induction false} SameMeaning(vols: Vols, t: Table, rootFs: nat, k: Key, q: Key, names: seq<string>)
    requires Inv(vols, t, rootFs) && Exists(vols, k)
    ensures Steps(vols, Bump(vols, t, k), q, names) == Steps(vols, t, q, names)
    decreases |names|
  {
    hide Step, Bump, Sound, TableSound, Known;
    if names != [] {
      StepOnBump(vols, t, k, q, names[0]);
      var next := Step(vols, t, q, names[0]);
      if next.Some? { SameMeaning(vols, t, rootFs, k, next.value, names[1..]); }
    }
  }

  /** The first place that is not taken, from i on. */
  ghost function FirstFree(used: seq<bool>, i: nat): (r: nat)
    requires i <= |used|
    ensures i <= r <= |used| && (r < |used| ==> !used[r])
    ensures forall j :: i <= j < r ==> used[j]
    decreases |used| - i
  {
    if i == |used| || !used[i] then i else FirstFree(used, i + 1)
  }

  /** vfs_mount below the root; fs is what fs->mount gives, an instance with its nodes, and
      inUse says which places of the mount table are taken. The reference vfs_resolve took pins the
      mount point; it also stays when the mount fails after it. */
  method Mount(tree: Tree, path: string, cwd: Option<Key>, fs: Option<(nat, Volume)>, junk: nat, inUse: array<bool>)
    returns (ok: bool, found: Option<Key>)
    requires tree.Valid() && (cwd.Some? ==> Held(tree.inodes, cwd.value)) && inUse.Length == MAX_MOUNT
    requires '\0' !in path && forall n :: n in Names(path) ==> |n| < MAX_NAME
    requires fs.Some? ==> fs.value.0 !in tree.vols && Sound(fs.value.1)
    modifies tree`inodes, tree`vols, inUse
    ensures var start := if Relative(path, cwd) then cwd.value else RootKey(tree.rootFs);
            found == if FirstFree(old(inUse[..]), 0) == MAX_MOUNT then None
                     else Meaning(old(tree.vols), old(tree.inodes), start, path)
    ensures found.Some? ==> Exists(old(tree.vols), found.value)
    ensures var t := Taken(old(tree.vols), Base(old(tree.inodes), path, cwd), found);
            && (found.Some? ==> found.value in t)
            && (ok <==> FirstFree(old(inUse[..]), 0) < MAX_MOUNT && found.Some? && t[found.value].dir && fs.Some?)
            && (ok ==> tree.inodes == Mounted(t, found.value, fs.value.0, junk)
                       && (tree.Valid() <==> !t[found.value].root))
            && (!ok ==> tree.inodes == if FirstFree(old(inUse[..]), 0) < MAX_MOUNT then t else old(tree.inodes))
    ensures tree.vols == if ok then old(tree.vols)[fs.value.0 := fs.value.1] else old(tree.vols)
    ensures inUse[..] == if ok then old(inUse[..])[FirstFree(old(inUse[..]), 0) := true] else old(inUse[..])
  {
    hide Inv, Step, Steps, Known, Bump, Drop, Names, Sound;
    ok, found := false, None;
    var i := 0;
    while i < MAX_MOUNT && inUse[i]
      invariant 0 <= i <= MAX_MOUNT && FirstFree(inUse[..], 0) == FirstFree(inUse[..], i)
    {
      i := i + 1;
    }
    if i < MAX_MOUNT {
      found := Resolve(tree, path, cwd);
      if found.Some? {
        TakenHas(tree.vols, Base(old(tree.inodes), path, cwd), found.value);
        if tree.inodes[found.value].dir && fs.Some? {
          inUse[i] := true;
          MountExact(tree.vols, tree.inodes, tree.rootFs, found.value, fs.value.0, fs.value.1, junk);
          NotCached(tree.vols, tree.inodes, tree.rootFs, fs.value.0);
          tree.vols := tree.vols[fs.value.0 := fs.value.1];
          ok := MountRoot(tree, found.value, fs.value.0, junk);
        }
      }
    }
  }

  /** Mounting on "/" makes "/.." lead into the new file system, to the node its root's parent field
      happens to name; it led nowhere before. */
  lemma RootPathChanges(vols: Vols, t: Table, rootFs: nat, inst: nat, v: Volume, junk: nat)
    requires Inv(vols, t, rootFs) && inst !in vols && Known(v, junk)
    ensures RootKey(rootFs) in t && Meaning(vols, t, RootKey(rootFs), "/..").None?
    ensures Meaning(vols[inst := v], Mounted(t, RootKey(rootFs), inst, junk), RootKey(rootFs), "/..")
            == Some(Key(inst, junk))
  {
    hide Step, Names, Mounted, Known, Sound;
    var k := RootKey(rootFs);
    assert t[k].root && t[k].spec.None? by { assert k in t && Faithful(vols, k, t[k]); }
    DotDot();
    RootMountSteps(vols, t, rootFs, k, inst, v, junk);
    assert [".."][1..] == [];
  }

  lemma DotDot()
    ensures Names("/..") == [".."]
  {
    hide Names;
    LeadingSlash("/..");
    OneName("..");
    assert "/.."[1..] == "..";
  }

  /** Mounting on the root of a mounted file system: every path that still leads to it changes its
      meaning when "/.." is appended, whatever the parent field of the new root held. */
  lemma MountedRootPathChanges(vols: Vols, t: Table, rootFs: nat, m: Key, inst: nat, v: Volume, junk: nat, path: string)
    requires Inv(vols, t, rootFs) && m in t && inst !in vols && t[m].root && t[m].spec.Some?
    requires Meaning(vols, t, RootKey(rootFs), path) == Some(m)
    requires Meaning(vols[inst := v], Mounted(t, m, inst, junk), RootKey(rootFs), path) == Some(m)
    ensures Meaning(vols[inst := v], Mounted(t, m, inst, junk), RootKey(rootFs), path + "/..")
            != Meaning(vols, t, RootKey(rootFs), path + "/..")
  {
    hide Inv, Step, Names, Mounted, Steps;
    var k, vols', t' := RootKey(rootFs), vols[inst := v], Mounted(t, m, inst, junk);
    NamesJoin(path, "..");
    OneName("..");
    assert path + "/" + ".." == path + "/..";
    StepsAppend(vols, t, k, Names(path), [".."]);
    StepsAppend(vols', t', k, Names(path), [".."]);
    LastStep(vols, t, m, "..");
    LastStep(vols', t', m, "..");
    RootMountSteps(vols, t, rootFs, m, inst, v, junk);
  }

  // A directory "mnt" in the root file system, and on it a file system with a directory "x".
  const OUTER_FS: Volume := [Node(false, ROOT, true, "mnt")]
  const INNER_FS: Volume := [Node(false, ROOT, true, "x")]
  const TWO_VOLS: Vols := map[1 := OUTER_FS, 2 := INNER_FS]
  const TWO_TABLE: Table :=
    Mounted(map[RootKey(1) := Inode(true, true, false, 0, None, 1),
                Key(1, 0) := Inode(true, false, false, ROOT, None, 1)],
            Key(1, 0), 2, 0)

  /** "/mnt/x/.." leads to the root of the inner file system; once something is mounted there,
      "/mnt/x/../.." no longer leads to "/". */
  lemma NestedMountChanges(v: Volume, junk: nat)
    requires Sound(v)
    ensures Inv(TWO_VOLS, TWO_TABLE, 1)
    ensures Meaning(TWO_VOLS, TWO_TABLE, RootKey(1), "/mnt/x/..") == Some(RootKey(2))
    ensures Meaning(TWO_VOLS, TWO_TABLE, RootKey(1), "/mnt/x/../..") == Some(RootKey(1))
    ensures Meaning(TWO_VOLS[3 := v], Mounted(TWO_TABLE, RootKey(2), 3, junk), RootKey(1), "/mnt/x/../..") ==
            if Known(v, junk) then Some(Key(3, junk)) else None
  {
    hide Sound, Names, Steps, Known;
    NestedSound();
    NestedNames();
    NestedSteps(v, junk);
    var t' := Mounted(TWO_TABLE, RootKey(2), 3, junk);
    assert "/mnt/x/.." + "/" + ".." == "/mnt/x/../..";
    NamesJoin("/mnt/x/..", "..");
    OneName("..");
    StepsAppend(TWO_VOLS, TWO_TABLE, RootKey(1), Names("/mnt/x/.."), [".."]);
    StepsAppend(TWO_VOLS[3 := v], t', RootKey(1), Names("/mnt/x/.."), [".."]);
    LastStep(TWO_VOLS, TWO_TABLE, RootKey(2), "..");
    LastStep(TWO_VOLS[3 := v], t', RootKey(2), "..");
    RootMountSteps(TWO_VOLS, TWO_TABLE, 1, RootKey(2), 3, v, junk);
    NestedParent();
  }

  lemma NestedSound()
    ensures Inv(TWO_VOLS, TWO_TABLE, 1)
  {
  }

  lemma NestedParent()
    ensures Step(TWO_VOLS, TWO_TABLE, RootKey(2), "..") == Some(RootKey(1))
  {
  }

  lemma NestedNames()
    ensures Names("/mnt/x/..") == ["mnt", "x", ".."]
  {
    hide Names;
    assert "/mnt/x/.."[1..] == "mnt" + "/" + ("x" + "/" + "..");
    LeadingSlash("/mnt/x/..");
    NamesJoin("mnt", "x" + "/" + "..");
    NamesJoin("x", "..");
    OneName("mnt");
    OneName("x");
    OneName("..");
  }

  lemma NestedSteps(v: Volume, junk: nat)
    ensures Steps(TWO_VOLS, TWO_TABLE, RootKey(1), ["mnt", "x", ".."]) == Some(RootKey(2))
    ensures Steps(TWO_VOLS[3 := v], Mounted(TWO_TABLE, RootKey(2), 3, junk), RootKey(1), ["mnt", "x", ".."])
            == Some(RootKey(2))
  {
    ThreeSteps(TWO_VOLS, TWO_TABLE, RootKey(1), Key(1, 0), Key(2, 0), RootKey(2), "mnt", "x", "..");
    ThreeSteps(TWO_VOLS[3 := v], Mounted(TWO_TABLE, RootKey(2), 3, junk),
               RootKey(1), Key(1, 0), Key(2, 0), RootKey(2), "mnt", "x", "..");
  }

  lemma ThreeSteps(vols: Vols, t: Table, k: Key, a: Key, b: Key, c: Key, x: string, y: string, z: string)
    requires Step(vols, t, k, x) == Some(a) && Step(vols, t, a, y) == Some(b) && Step(vols, t, b, z) == Some(c)
    ensures Steps(vols, t, k, [x, y, z]) == Some(c)
  {
    hide Step;
    assert [x, y, z][1..] == [y, z] && [y, z][1..] == [z] && [z][1..] == [];
    LastStep(vols, t, b, z);
  }

  lemma LastStep(vols: Vols, t: Table, k: Key, name: string)
    ensures Steps(vols, t, k, [name]) == Step(vols, t, k, name)
  {
    hide Step;
    assert [name][1..] == [];
    if Step(vols, t, k, name).Some? {
      assert Steps(vols, t, Step(vols, t, k, name).value, []) == Step(vols, t, k, name);
    }
  }

  /** The root inode of the new instance, and the two references through the union. */
  method MountRoot(tree: Tree, m: Key, inst: nat, junk: nat) returns (ok: bool)
    requires m in tree.inodes && RootKey(inst) !in tree.inodes && inst in tree.vols
    modifies tree`inodes
    ensures ok && tree.inodes == Mounted(old(tree.inodes), m, inst, junk)
  {
    var r := RootKey(inst);
    tree.inodes := tree.inodes[r := Fill(tree.vols[inst], ROOT).(count := 1, parent := junk)];
    tree.inodes := tree.inodes[r := tree.inodes[r].(spec := Some(m), root := true, dir := true)];
    tree.inodes := tree.inodes[m := tree.inodes[m].(mountpoint := true, spec := Some(r))];
    ok := true;
  }

  lemma NotCached(vols: Vols, t: Table, rootFs: nat, inst: nat)
    requires Inv(vols, t, rootFs) && inst !in vols
    ensures RootKey(inst) !in t
  {
    hide Sound, Paired;
    assert RootKey(inst) in t ==> Faithful(vols, RootKey(inst), t[RootKey(inst)]);
  }

  lemma TakenHas(vols: Vols, t: Table, k: Key)
    requires Exists(vols, k)
    ensures k in Bump(vols, t, k)
  {
  }
}
