/** Listing a directory in pieces (fs/vfs_directory.c). */
module Directory {
  import opened Arch
  import opened InodeCache
  import Smem
  import opened Volumes
  import opened Vfs

  const BASE_SIZE := 9   // DIRENT_BASE_SIZE
  const EINVAL := 22

  /** A struct fixos_dirent at byte offset at of the buffer; off is its length. */
  datatype Record = Record(at: nat, ino: nat, off: nat, name: string)

  // ---- the children, in sibling order ---------------------------------------------------------

  ghost function Children(v: Volume, d: nat, i: nat): (r: seq<nat>)
    ensures forall j :: 0 <= j < |r| ==> i <= r[j] && IsChild(v, d, r[j])
    decreases |v| - i
  {
    var c := ChildFrom(v, d, i);
    if c.None? then [] else [c.value] + Children(v, d, c.value + 1)
  }

  /** Each child exactly once, by increasing node number. */
  lemma {:induction false} ChildrenExact(v: Volume, d: nat, i: nat, n: nat)
    requires i <= n
    ensures n in Children(v, d, i) <==> IsChild(v, d, n)
    ensures forall j, k :: 0 <= j < k < |Children(v, d, i)| ==> Children(v, d, i)[j] < Children(v, d, i)[k]
    decreases |v| - i
  {
    var c := ChildFrom(v, d, i);
    if c.Some? {
      var rest := Children(v, d, c.value + 1);
      ChildrenExact(v, d, c.value + 1, if c.value < n then n else c.value + 1);
      assert Children(v, d, i) == [c.value] + rest;
    }
  }

  /** The search behind the entry at index j finds the entry at j + 1. */
  lemma {:induction false} ChildAfter(v: Volume, d: nat, i: nat, j: nat)
    requires j < |Children(v, d, i)|
    ensures var list := Children(v, d, i);
            ChildFrom(v, d, list[j] + 1) == if j + 1 < |list| then Some(list[j + 1]) else None
    decreases j
  {
    var c := ChildFrom(v, d, i);
    var rest := Children(v, d, c.value + 1);
    assert Children(v, d, i) == [c.value] + rest;
    if j > 0 { ChildAfter(v, d, c.value + 1, j - 1); }
  }

  // ---- how many entries fit -----------------------------------------------------------------------

  /** Header, name and NUL, padded to a multiple of 4. */
  function RecordLen(name: string): (r: nat)
    ensures r % 4 == 0 && BASE_SIZE + |name| + 1 <= r < BASE_SIZE + |name| + 5
  {
    var n := BASE_SIZE + |name| + 1;
    if n % 4 != 0 then n + (4 - n % 4) else n
  }

  /** The nodes of a list are nodes of the volume. */
  ghost predicate Listable(v: Volume, list: seq<nat>) {
    forall j :: 0 <= j < |list| ==> list[j] < |v|
  }

  ghost function RecordOf(v: Volume, n: nat, at: nat): Record
    requires n < |v|
  {
    Record(at, n, RecordLen(v[n].name), v[n].name)
  }

  /** The records of one call: entry j at offset used and so on, until one would reach the end of the
      buffer. */
  ghost function Batch(v: Volume, list: seq<nat>, j: nat, used: nat, len: nat): (r: seq<Record>)
    requires Listable(v, list) && j <= |list|
    ensures |r| <= |list| - j
    decreases |list| - j
  {
    if j == |list| || used + RecordOf(v, list[j], used).off >= len then []
    else [RecordOf(v, list[j], used)] + Batch(v, list, j + 1, used + RecordOf(v, list[j], used).off, len)
  }

  ghost function BatchLen(b: seq<Record>): nat {
    if b == [] then 0 else b[0].off + BatchLen(b[1..])
  }

  /** The records are those of the next entries in order, one behind the other, 4-aligned, inside the
      buffer, each with room for its name; the next entry did not fit. */
  ghost predicate BatchSound(v: Volume, list: seq<nat>, j: nat, used: nat, len: nat, b: seq<Record>)
    requires Listable(v, list)
  {
    && j + |b| <= |list|
    && (forall i :: 0 <= i < |b| ==> b[i] == RecordOf(v, list[j + i], b[i].at))
    && (forall i :: 0 <= i < |b| ==> b[i].at % 4 == 0 && used <= b[i].at && b[i].at + b[i].off < len)
    && (forall i, k :: 0 <= i < k < |b| ==> b[i].at + b[i].off <= b[k].at)
    && (j + |b| < |list| ==> used + BatchLen(b) + RecordOf(v, list[j + |b|], 0).off >= len)
  }

  lemma {:induction false} BatchIsSound(v: Volume, list: seq<nat>, j: nat, used: nat, len: nat)
    requires Listable(v, list) && j <= |list| && used % 4 == 0
    ensures BatchSound(v, list, j, used, len, Batch(v, list, j, used, len))
    decreases |list| - j
  {
    hide RecordLen, BatchSound;
    if j == |list| || used + RecordOf(v, list[j], used).off >= len {
      EmptySound(v, list, j, used, len);
    } else {
      var n := RecordOf(v, list[j], used).off;
      BatchIsSound(v, list, j + 1, used + n, len);
      BatchGrows(v, list, j, used, len, Batch(v, list, j + 1, used + n, len));
    }
  }

  lemma EmptySound(v: Volume, list: seq<nat>, j: nat, used: nat, len: nat)
    requires Listable(v, list) && j <= |list| && (j == |list| || used + RecordOf(v, list[j], used).off >= len)
    ensures BatchSound(v, list, j, used, len, [])
  {
  }

  lemma {:induction false} BatchGrows(v: Volume, list: seq<nat>, j: nat, used: nat, len: nat, rest: seq<Record>)
    requires Listable(v, list) && j < |list| && used % 4 == 0
    requires used + RecordOf(v, list[j], used).off < len
    requires BatchSound(v, list, j + 1, used + RecordOf(v, list[j], used).off, len, rest)
    ensures BatchSound(v, list, j, used, len, [RecordOf(v, list[j], used)] + rest)
  {
    hide RecordLen;
    var b := [RecordOf(v, list[j], used)] + rest;
    assert b[1..] == rest;
    forall i | 0 <= i < |b|
      ensures b[i] == RecordOf(v, list[j + i], b[i].at) && b[i].at % 4 == 0 && used <= b[i].at
              && b[i].at + b[i].off < len
    {
      if i > 0 { assert b[i] == rest[i - 1] && list[j + i] == list[j + 1 + (i - 1)]; }
    }
    forall i, k | 0 <= i < k < |b| ensures b[i].at + b[i].off <= b[k].at {
      assert b[k] == rest[k - 1];
      if i > 0 { assert b[i] == rest[i - 1]; }
    }
  }

  // ---- successive calls --------------------------------------------------------------------------------

  ghost function NodesOf(b: seq<Record>): seq<nat> {
    if b == [] then [] else [b[0].ino] + NodesOf(b[1..])
  }

  /** What successive calls with the given buffer lengths list, from entry pos on. */
  ghost function Calls(v: Volume, list: seq<nat>, pos: nat, lens: seq<nat>): seq<nat>
    requires Listable(v, list) && pos <= |list|
    decreases |lens|
  {
    if lens == [] then []
    else
      var b := Batch(v, list, pos, 0, lens[0]);
      NodesOf(b) + Calls(v, list, pos + |b|, lens[1..])
  }

  /** Each buffer is large enough for the entry that comes next when it is used. */
  ghost predicate LargeEnough(v: Volume, list: seq<nat>, pos: nat, lens: seq<nat>)
    requires Listable(v, list) && pos <= |list|
    decreases |lens|
  {
    lens == [] || pos == |list|
    || (lens[0] > RecordLen(v[list[pos]].name)
        && LargeEnough(v, list, pos + |Batch(v, list, pos, 0, lens[0])|, lens[1..]))
  }

  lemma {:induction false} NodesOfBatch(v: Volume, list: seq<nat>, j: nat, used: nat, len: nat)
    requires Listable(v, list) && j <= |list|
    ensures NodesOf(Batch(v, list, j, used, len)) == list[j..j + |Batch(v, list, j, used, len)|]
    decreases |list| - j
  {
    hide RecordLen;
    if j < |list| && used + RecordOf(v, list[j], used).off < len {
      var n := RecordOf(v, list[j], used).off;
      NodesOfBatch(v, list, j + 1, used + n, len);
      var rest := Batch(v, list, j + 1, used + n, len);
      assert list[j..j + 1 + |rest|] == [list[j]] + list[j + 1..j + 1 + |rest|];
      assert Batch(v, list, j, used, len)[1..] == rest;
    }
  }

  /** Whatever the buffers, the calls list a run of the entries from pos on, in order, none twice. */
  lemma {:induction false} CallsInOrder(v: Volume, list: seq<nat>, pos: nat, lens: seq<nat>)
    requires Listable(v, list) && pos <= |list|
    ensures Calls(v, list, pos, lens) <= list[pos..]
    decreases |lens|
  {
    hide Batch, NodesOf, Listable;
    if lens != [] {
      var b := Batch(v, list, pos, 0, lens[0]);
      NodesOfBatch(v, list, pos, 0, lens[0]);
      CallsInOrder(v, list, pos + |b|, lens[1..]);
      assert list[pos..] == list[pos..pos + |b|] + list[pos + |b|..];
    }
  }

  /** With large enough buffers, as many calls as there are entries left list them all. */
  lemma {:induction false} CallsListAll(v: Volume, list: seq<nat>, pos: nat, lens: seq<nat>)
    requires Listable(v, list) && pos <= |list|
    requires LargeEnough(v, list, pos, lens) && |lens| >= |list| - pos
    ensures Calls(v, list, pos, lens) == list[pos..]
    decreases |lens|
  {
    hide RecordLen, NodesOf, Listable;
    CallsInOrder(v, list, pos, lens);
    if pos < |list| {
      var b := Batch(v, list, pos, 0, lens[0]);
      NodesOfBatch(v, list, pos, 0, lens[0]);
      assert |b| >= 1;
      CallsListAll(v, list, pos + |b|, lens[1..]);
      assert list[pos..] == list[pos..pos + |b|] + list[pos + |b|..];
    }
  }

  /** The position after calls with these buffers, as lseek reports it. */
  ghost function PosAfter(v: Volume, list: seq<nat>, pos: nat, lens: seq<nat>): (r: nat)
    requires Listable(v, list) && pos <= |list|
    ensures pos <= r <= |list|
    decreases |lens|
  {
    if lens == [] then pos else PosAfter(v, list, pos + |Batch(v, list, pos, 0, lens[0])|, lens[1..])
  }

  /** The reported position counts the entries listed, and seeking to it later resumes the listing exactly
      there: what comes before it and what comes from it on is one listing. */
  lemma {:induction false} SeekResumes(v: Volume, list: seq<nat>, pos: nat, first: seq<nat>, rest: seq<nat>)
    requires Listable(v, list) && pos <= |list|
    ensures var mark := PosAfter(v, list, pos, first);
            && mark == pos + |Calls(v, list, pos, first)|
            && Calls(v, list, pos, first + rest) == Calls(v, list, pos, first) + Calls(v, list, mark, rest)
    decreases |first|
  {
    hide Batch, NodesOf, Listable;
    if first == [] {
      assert first + rest == rest;
    } else {
      var b := Batch(v, list, pos, 0, first[0]);
      assert (first + rest)[1..] == first[1..] + rest && (first + rest)[0] == first[0];
      NodesOfBatch(v, list, pos, 0, first[0]);
      SeekResumes(v, list, pos + |b|, first[1..], rest);
    }
  }

  /** Listing a whole directory: every child, exactly once, in sibling order. */
  lemma {:induction false} ListingComplete(v: Volume, d: nat, lens: seq<nat>, n: nat)
    requires Listable(v, Children(v, d, 0))
    requires LargeEnough(v, Children(v, d, 0), 0, lens) && |lens| >= |Children(v, d, 0)|
    ensures var all := Calls(v, Children(v, d, 0), 0, lens);
            && (n in all <==> IsChild(v, d, n))
            && (forall j, k :: 0 <= j < k < |all| ==> all[j] < all[k])
  {
    hide Children, Calls, LargeEnough, IsChild, Listable;
    CallsListAll(v, Children(v, d, 0), 0, lens);
    ChildrenExact(v, d, 0, n);
    assert Children(v, d, 0)[0..] == Children(v, d, 0);
  }

  // ---- the operations ------------------------------------------------------------------------------------

  /** vfs_dir_lseek: positions count entries, and nothing is checked against the directory. */
  method Lseek(pos: nat, offset: int, whence: Smem.Whence) returns (r: int, pos': nat)
    ensures whence.SeekSet? && offset >= 0 ==> pos' == offset && r == offset
    ensures !(whence.SeekSet? && offset >= 0) ==>
              pos' == pos && r == if whence.SeekCur? && offset == 0 then pos else -EINVAL
  {
    pos' := pos;
    if whence.SeekSet? && offset >= 0 {
      pos' := offset;
      r := pos';
    } else if whence.SeekCur? && offset == 0 {
      r := pos;
    } else {
      r := -EINVAL;
    }
  }

  /** The inode of entry j of a directory of instance inst. */
  ghost function EntryAt(inst: nat, list: seq<nat>, j: nat): Option<Key> {
    if j < |list| then Some(Key(inst, list[j])) else None
  }

  /** vfs_first_child: on a mount point, of the root mounted on it; none for what is no directory. */
  method FirstChild(tree: Tree, dir: Key) returns (r: Option<Key>)
    requires tree.Valid() && dir in tree.inodes
    modifies tree`inodes
    ensures old(tree.inodes)[dir].dir ==>
              var d := Real(old(tree.inodes), dir);
              && d.inst in tree.vols && IsDir(tree.vols[d.inst], d.node)
              && r == EntryAt(d.inst, Children(tree.vols[d.inst], d.node, 0), 0)
    ensures !old(tree.inodes)[dir].dir ==> r.None?
    ensures r.Some? ==> Exists(tree.vols, r.value)
    ensures tree.Valid() && tree.inodes == Taken(tree.vols, old(tree.inodes), r)
  {
    hide Sound, VolsSound;
    r := None;
    if tree.inodes[dir].dir {
      assert Faithful(tree.vols, dir, tree.inodes[dir]) && Paired(tree.inodes, dir);
      var d := dir;
      if tree.inodes[dir].mountpoint {
        d := tree.inodes[dir].spec.value;
      }
      assert Faithful(tree.vols, d, tree.inodes[d]);
      var c := ChildFrom(tree.vols[d.inst], d.node, 0);
      if c.Some? {
        r := tree.GetInode(Key(d.inst, c.value));
      }
    }
  }

  /** vfs_next_sibling, and the release of the entry left behind. */
  method NextEntry(tree: Tree, cur: Key, ghost d: nat, ghost list: seq<nat>, ghost j: nat, ghost base: Table)
    returns (r: Option<Key>)
    requires cur.inst in tree.vols && list == Children(tree.vols[cur.inst], d, 0)
    requires j < |list| && cur == Key(cur.inst, list[j]) && Exists(tree.vols, cur)
    requires Inv(tree.vols, base, tree.rootFs) && tree.inodes == Bump(tree.vols, base, cur)
    modifies tree`inodes
    ensures r == EntryAt(cur.inst, list, j + 1) && (r.Some? ==> Exists(tree.vols, r.value))
    ensures tree.inodes == Taken(tree.vols, base, r)
  {
    hide Inv, Bump, Drop, Children, ChildFrom;
    BumpKeeps(tree.vols, base, tree.rootFs, cur);
    DropBump(tree.vols, base, tree.rootFs, cur);
    ChildAfter(tree.vols[cur.inst], d, 0, j);
    NotARoot(tree.vols, base, tree.rootFs, cur, d);
    r := None;
    if !tree.inodes[cur].root {
      var c := ChildFrom(tree.vols[cur.inst], tree.inodes[cur].parent, cur.node + 1);
      if c.Some? {
        r := tree.GetInode(Key(cur.inst, c.value));
        DropOther(tree.vols, base, tree.rootFs, cur, r.value);
      }
    }
    tree.ReleaseInode(cur);
  }

  /** An entry is never the root of its file system, and its inode names the directory. */
  lemma NotARoot(vols: Vols, t: Table, rootFs: nat, k: Key, d: nat)
    requires Inv(vols, t, rootFs) && k.inst in vols && IsChild(vols[k.inst], d, k.node)
    ensures Exists(vols, k) && k in Bump(vols, t, k)
    ensures !Bump(vols, t, k)[k].root && Bump(vols, t, k)[k].parent == d
  {
    assert Sound(vols[k.inst]);
    if k in t { assert Faithful(vols, k, t[k]); }
  }

  /** vfs_dir_getdents: the records of one call, the new position and the returned length. No count
      changes. */
  method GetDents(tree: Tree, dir: Option<Key>, pos: nat, len: nat)
    returns (b: seq<Record>, pos': nat, ret: int)
    requires tree.Valid() && (dir.Some? ==> dir.value in tree.inodes)
    modifies tree`inodes
    ensures tree.inodes == old(tree.inodes)
    ensures dir.None? || !tree.inodes[dir.value].dir ==> b == [] && pos' == pos && ret == -EINVAL
    ensures dir.Some? && tree.inodes[dir.value].dir ==>
              var d := Real(tree.inodes, dir.value);
              d.inst in tree.vols &&
              var list := Children(tree.vols[d.inst], d.node, 0);
              && Listable(tree.vols[d.inst], list)
              && b == (if pos <= |list| then Batch(tree.vols[d.inst], list, pos, 0, len) else [])
              && pos' == pos + |b| && ret == if b == [] then -EINVAL else BatchLen(b)
  {
    hide Inv, Children, Batch, BatchLen, Bump, Real;
    b, pos', ret := [], pos, -EINVAL;
    if dir.Some? && tree.inodes[dir.value].dir {
      var cur := FirstChild(tree, dir.value);
      ghost var base := old(tree.inodes);
      ghost var d := Real(base, dir.value);
      ghost var list := Children(tree.vols[d.inst], d.node, 0);
      cur := Skip(tree, cur, pos, d, list, base);
      if cur.Some? {
        var used;
        b, used := Fill(tree, cur, pos, len, d, list, base);
        pos' := pos + |b|;
        if used > 0 {
          ret := used;
        }
      }
    }
  }

  /** The entries already listed. */
  method Skip(tree: Tree, first: Option<Key>, pos: nat, ghost d: Key, ghost list: seq<nat>, ghost base: Table)
    returns (cur: Option<Key>)
    requires d.inst in tree.vols && list == Children(tree.vols[d.inst], d.node, 0)
    requires first == EntryAt(d.inst, list, 0) && (first.Some? ==> Exists(tree.vols, first.value))
    requires Inv(tree.vols, base, tree.rootFs) && tree.inodes == Taken(tree.vols, base, first)
    modifies tree`inodes
    ensures cur == EntryAt(d.inst, list, pos) && (cur.Some? ==> Exists(tree.vols, cur.value))
    ensures tree.inodes == Taken(tree.vols, base, cur)
  {
    hide Inv, Children, Bump;
    cur := first;
    var curentry: nat := 0;
    while curentry < pos && cur.Some?
      invariant curentry <= pos
      invariant cur == EntryAt(d.inst, list, curentry) && (cur.Some? ==> Exists(tree.vols, cur.value))
      invariant tree.inodes == Taken(tree.vols, base, cur)
    {
      cur := NextEntry(tree, cur.value, d.node, list, curentry, base);
      curentry := curentry + 1;
    }
  }

  /** The copying loop. */
  method Fill(tree: Tree, first: Option<Key>, pos: nat, len: nat, ghost d: Key, ghost list: seq<nat>, ghost base: Table)
    returns (b: seq<Record>, used: nat)
    requires d.inst in tree.vols && list == Children(tree.vols[d.inst], d.node, 0) && pos < |list|
    requires first == EntryAt(d.inst, list, pos) && (first.Some? ==> Exists(tree.vols, first.value))
    requires Inv(tree.vols, base, tree.rootFs) && tree.inodes == Taken(tree.vols, base, first)
    modifies tree`inodes
    ensures Listable(tree.vols[d.inst], list) && b == Batch(tree.vols[d.inst], list, pos, 0, len)
    ensures used == BatchLen(b) && (used > 0 <==> b != [])
    ensures tree.inodes == base
  {
    hide Inv, Children, Bump, RecordLen, Drop, Batch, BatchLen, Listable, Known;
    ChildrenListable(tree.vols[d.inst], d.node);
    ghost var v := tree.vols[d.inst];
    ghost var whole := Batch(v, list, pos, 0, len);
    var cur := first;
    b, used := [], 0;
    NoLen();
    var full := false;
    ghost var todo := whole;
    while cur.Some? && !full
      invariant pos + |b| <= |list|
      invariant cur == EntryAt(d.inst, list, pos + |b|) && (cur.Some? ==> Exists(tree.vols, cur.value))
      invariant tree.inodes == Taken(tree.vols, base, cur)
      invariant whole == b + todo && todo == if full then [] else Batch(v, list, pos + |b|, used, len)
      invariant used == BatchLen(b) && (used > 0 <==> b != [])
      decreases |list| - |b|, !full
    {
      BatchStep(v, list, pos + |b|, used, len);
      var rec;
      full, rec, cur := CopyEntry(tree, cur.value, used, len, d, list, pos + |b|, base);
      if full {
        todo := [];
      } else {
        todo := Batch(v, list, pos + |b| + 1, used + rec.off, len);
        AppendMoves(b, rec, todo);
        BatchLenAppend(b, rec);
        b, used := b + [rec], used + rec.off;
      }
    }
    BatchStep(v, list, |list|, used, len);
    if cur.Some? {
      DropBump(tree.vols, base, tree.rootFs, cur.value);
      tree.ReleaseInode(cur.value);
    }
  }

  lemma AppendMoves(b: seq<Record>, r: Record, rest: seq<Record>)
    ensures b + ([r] + rest) == b + [r] + rest
  {
  }

  /** One entry, unless it would reach the end of the buffer. */
  method CopyEntry(tree: Tree, cur: Key, used: nat, len: nat,
                   ghost d: Key, ghost list: seq<nat>, ghost j: nat, ghost base: Table)
    returns (full: bool, rec: Record, next: Option<Key>)
    requires d.inst in tree.vols && list == Children(tree.vols[d.inst], d.node, 0) && j < |list|
    requires cur == Key(d.inst, list[j]) && Exists(tree.vols, cur) && list[j] < |tree.vols[d.inst]|
    requires Inv(tree.vols, base, tree.rootFs) && tree.inodes == Bump(tree.vols, base, cur)
    modifies tree`inodes
    ensures rec == RecordOf(tree.vols[d.inst], list[j], used) && rec.off > 0 && (full <==> used + rec.off >= len)
    ensures next == EntryAt(d.inst, list, if full then j else j + 1)
    ensures (next.Some? ==> Exists(tree.vols, next.value)) && tree.inodes == Taken(tree.vols, base, next)
  {
    hide Inv, Children, Bump, Drop;
    var name := tree.vols[cur.inst][cur.node].name;
    rec := Record(used, cur.node, RecordLen(name), name);
    full := used + rec.off >= len;
    next := Some(cur);
    if !full {
      next := NextEntry(tree, cur, d.node, list, j, base);
    }
  }

  lemma {:induction false} BatchStep(v: Volume, list: seq<nat>, j: nat, used: nat, len: nat)
    requires Listable(v, list) && j <= |list|
    ensures Batch(v, list, j, used, len) ==
              if j == |list| || used + RecordOf(v, list[j], used).off >= len then []
              else [RecordOf(v, list[j], used)] + Batch(v, list, j + 1, used + RecordOf(v, list[j], used).off, len)
  {
    hide RecordLen, Listable;
  }

  lemma ChildrenListable(v: Volume, d: nat)
    ensures Listable(v, Children(v, d, 0))
  {
    hide Children;
  }

  lemma NoLen()
    ensures BatchLen([]) == 0
  {
  }

  lemma {:induction false} BatchLenAppend(b: seq<Record>, r: Record)
    ensures BatchLen(b + [r]) == BatchLen(b) + r.off
  {
    if b == [] {
      assert b + [r] == [r];
    } else {
      assert (b + [r])[1..] == b[1..] + [r];
      BatchLenAppend(b[1..], r);
    }
  }
}
