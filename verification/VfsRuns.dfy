/** Whole runs of the file tree: every count is exactly the number of references held. */
module VfsRuns {
  import opened Arch
  import opened InodeCache
  import opened Volumes
  import opened Vfs
  import opened Paths

  /** held: references of callers, one per successful resolve not yet released. pins: references
      vfs_mount keeps for ever, on roots and on mount points. */
  datatype State = State(vols: Vols, t: Table, rootFs: nat, held: multiset<Key>, pins: multiset<Key>)

  datatype Op = Resolve(path: string) | Release(k: Key) | Mount(path: string, inst: nat, v: Volume, junk: nat)

  ghost function At(s: State, path: string): Option<Key> { Meaning(s.vols, s.t, RootKey(s.rootFs), path) }

  /** Callers release what they hold, mount new instances, and not on the root of one. */
  ghost predicate Enabled(s: State, op: Op) {
    match op
    case Resolve(_) => true
    case Release(k) => k in s.held
    case Mount(path, inst, v, junk) =>
      inst !in s.vols && Sound(v) && (At(s, path).Some? ==> At(s, path).value.node != ROOT)
  }

  ghost predicate Accounted(t: Table, held: multiset<Key>, pins: multiset<Key>) {
    && (forall k :: Count(t, k) == held[k] + pins[k])
    && (forall k :: pins[k] > 0 <==> Pinned(t, k))
  }

  ghost predicate Good(s: State) {
    Inv(s.vols, s.t, s.rootFs) && Accounted(s.t, s.held, s.pins)
  }

  /** One more reference, held by the caller. */
  ghost function Taking(s: State, k: Key): State
    requires Exists(s.vols, k)
  {
    s.(t := Bump(s.vols, s.t, k), held := s.held + multiset{k})
  }

  ghost function Releasing(s: State, k: Key): State
    requires k in s.t
  {
    s.(t := Drop(s.t, k), held := s.held - multiset{k})
  }

  ghost function Mounting(s: State, m: Key, inst: nat, v: Volume, junk: nat): State
    requires Exists(s.vols, m)
  {
    var t := Bump(s.vols, s.t, m);
    State(s.vols[inst := v], Mounted(t, m, inst, junk), s.rootFs, s.held, s.pins + multiset{m, RootKey(inst)})
  }

  lemma {:induction false} TakingGood(s: State, k: Key)
    requires Good(s) && Exists(s.vols, k)
    ensures Good(Taking(s, k))
  {
    hide Inv, Known, Fill, Meaning;
    BumpKeeps(s.vols, s.t, s.rootFs, k);
    forall q ensures Count(Bump(s.vols, s.t, k), q) == (s.held + multiset{k})[q] + s.pins[q] {}
    forall q ensures s.pins[q] > 0 <==> Pinned(Bump(s.vols, s.t, k), q) { BumpPinned(s.vols, s.t, s.rootFs, k, q); }
  }

  lemma BumpPinned(vols: Vols, t: Table, rootFs: nat, k: Key, q: Key)
    requires Inv(vols, t, rootFs) && Exists(vols, k)
    ensures Pinned(Bump(vols, t, k), q) <==> Pinned(t, q)
  {
    hide Known, Sound, TableSound;
    BumpFlags(vols, t, k, q);
  }

  lemma {:induction false} ReleasingGood(s: State, k: Key)
    requires Good(s) && k in s.held
    ensures k in s.t && Held(s.t, k) && Good(Releasing(s, k))
  {
    hide Inv, Known, Fill, Meaning;
    assert Count(s.t, k) > 0;
    assert s.pins[k] > 0 <==> Pinned(s.t, k);
    DropKeeps(s.vols, s.t, s.rootFs, k);
    forall q ensures Count(Drop(s.t, k), q) == (s.held - multiset{k})[q] + s.pins[q] {}
    forall q ensures s.pins[q] > 0 <==> Pinned(Drop(s.t, k), q) {}
  }

  lemma {:induction false} MountingGood(s: State, m: Key, inst: nat, v: Volume, junk: nat)
    requires Good(s) && Exists(s.vols, m) && m.node != ROOT && inst !in s.vols && Sound(v)
    ensures Good(Mounting(s, m, inst, v, junk))
  {
    hide Inv, Known, Sound;
    var t := Bump(s.vols, s.t, m);
    BumpKeeps(s.vols, s.t, s.rootFs, m);
    NotRoot(s.vols, t, s.rootFs, m);
    MountExact(s.vols, t, s.rootFs, m, inst, v, junk);
    NotCached(s.vols, s.t, s.rootFs, inst);
    var r, t', pins' := RootKey(inst), Mounted(t, m, inst, junk), s.pins + multiset{m, RootKey(inst)};
    assert m != r && s.pins[r] == 0 && s.held[r] == 0 by { assert Count(s.t, r) == 0; }
    forall q ensures Count(t', q) == s.held[q] + pins'[q] {}
    forall q ensures pins'[q] > 0 <==> Pinned(t', q) { BumpPinned(s.vols, s.t, s.rootFs, m, q); }
  }

  lemma NotRoot(vols: Vols, t: Table, rootFs: nat, m: Key)
    requires Inv(vols, t, rootFs) && m in t && m.node != ROOT
    ensures !t[m].root
  {
    hide Sound;
    assert Faithful(vols, m, t[m]);
  }

  // ---- runs ------------------------------------------------------------------------------------------

  ghost function Next(s: State, op: Op): State
    requires Good(s) && Enabled(s, op)
    ensures Good(Next(s, op))
  {
    hide Inv, Accounted, Step, Steps, Sound, Bump, Drop, Known;
    RootExists(s.vols, s.t, s.rootFs);
    match op
    case Resolve(path) =>
      var r := At(s, path);
      if r.None? then s
      else
        StepsExist(s.vols, s.t, s.rootFs, RootKey(s.rootFs), Names(path));
        TakingGood(s, r.value);
        Taking(s, r.value)
    case Release(k) =>
      ReleasingGood(s, k);
      Releasing(s, k)
    case Mount(path, inst, v, junk) =>
      var r := At(s, path);
      if r.None? then s
      else
        StepsExist(s.vols, s.t, s.rootFs, RootKey(s.rootFs), Names(path));
        if IsDir(s.vols[r.value.inst], r.value.node) then
          MountingGood(s, r.value, inst, v, junk);
          Mounting(s, r.value, inst, v, junk)
        else
          // vfs_mount keeps the reference of its failed attempt
          TakingGood(s, r.value);
          Taking(s, r.value)
  }

  ghost predicate CanRun(s: State, ops: seq<Op>)
    requires Good(s)
    decreases |ops|
  {
    ops == [] || (Enabled(s, ops[0]) && CanRun(Next(s, ops[0]), ops[1..]))
  }

  ghost function Run(s: State, ops: seq<Op>): (r: State)
    requires Good(s) && CanRun(s, ops)
    ensures Good(r)
    decreases |ops|
  {
    if ops == [] then s else Run(Next(s, ops[0]), ops[1..])
  }

  ghost function Boot(inst: nat, v: Volume, junk: nat): State {
    State(map[inst := v], map[RootKey(inst) := Inode(true, true, false, junk, None, 1)], inst,
          multiset{}, multiset{RootKey(inst)})
  }

  lemma BootGood(inst: nat, v: Volume, junk: nat)
    requires Sound(v)
    ensures Good(Boot(inst, v, junk))
  {
    hide Sound;
  }

  /** Over every run the count of an inode is the number of references held on it plus its pins, and
      once callers have released everything only roots and mount points are cached. */
  lemma RunConserves(inst: nat, v: Volume, junk: nat, ops: seq<Op>, k: Key)
    requires Sound(v) && Good(Boot(inst, v, junk)) && CanRun(Boot(inst, v, junk), ops)
    ensures var s := Run(Boot(inst, v, junk), ops);
            && Count(s.t, k) == s.held[k] + s.pins[k]
            && (s.held == multiset{} ==> (k in s.t <==> Pinned(s.t, k)))
            && (Pinned(s.t, k) ==> s.pins[k] > 0)
  {
    hide Boot, Run, CanRun, Sound;
    var s := Run(Boot(inst, v, junk), ops);
    assert Accounted(s.t, s.held, s.pins);
    if k in s.t { assert Faithful(s.vols, k, s.t[k]); }
  }

  /** Roots and mount points stay cached for the rest of every run. */
  lemma {:induction false} PinsStay(s: State, ops: seq<Op>, k: Key)
    requires Good(s) && CanRun(s, ops) && Pinned(s.t, k)
    ensures Pinned(Run(s, ops).t, k) && Run(s, ops).pins[k] >= s.pins[k]
    decreases |ops|
  {
    hide Inv, Step, Steps, Sound, Bump, Drop, Known;
    if ops != [] {
      assert Next(s, ops[0]).pins[k] >= s.pins[k];
      assert Good(Next(s, ops[0]));
      PinsStay(Next(s, ops[0]), ops[1..], k);
    }
  }
}
