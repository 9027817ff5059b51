/** The steps of the kernel on memory and every run of them. */
module KernelRuns {
  import opened Arch
  import opened PhysicalMemory
  import opened PageDirs
  import opened Areas
  import opened Paging
  import opened World
  import Mmu

  datatype Step =
    | Spawn(pid: nat, areas: seq<Area>)                // process_alloc, elfloader_load, sched_add_task
    | Dispatch(pid: nat)                               // process_contextjmp
    | Idle                                             // process_contextjmp of the idle task
    | Miss(vpn: nat, dropped: set<Mmu.TlbKey>)         // tlbmiss_handler
    | StoreByte(vpn: nat, offset: nat, value: Byte)    // a user store that hits the TLB
    | Fork(child: nat, order: seq<nat>)                // sys_fork
    | Exit(order: seq<nat>)                            // process_terminate
    | Reap(pid: nat)                                   // sys_wait on a zombie
    | Exec(areas: seq<Area>, args: seq<Frame>, order: seq<nat>)  // sys_execve of a file that loads
    | KernelTake(frame: Frame)                         // a pool, a pipe or a file system takes a page
    | KernelGive(ppn: nat)                             // and gives one back
    | KernelWrite(ppn: nat, frame: Frame)              // and writes in one of its own, or in a kernel stack

  ghost predicate Runs(w: World) {
    w.current in w.procs && !w.procs[w.current].zombie
  }

  ghost predicate AreasSound(areas: seq<Area>) {
    Disjoint(areas) && forall i :: 0 <= i < |areas| ==> Sound(areas[i])
  }

  ghost predicate KernelOwned(w: World, n: nat) {
    n in w.kernel || exists p :: p in w.procs && w.procs[p].kstack == n
  }

  /** Room for the argument pages before the old pages are released, and for a stack after. */
  ghost predicate CanExec(w: World, areas: seq<Area>, args: seq<Frame>, order: seq<nat>) {
    && w.current in w.procs && !w.procs[w.current].zombie
    && AreasSound(areas) && ListsAll(order, w.procs[w.current].pages)
    && |args| <= ARG_MAX_PAGES && |args| <= |w.pm.free| && |args| < |w.pm.free| + |order|
  }

  /** When a step can be taken. Taking a page from an empty free list makes the kernel spin. */
  ghost predicate Enabled(w: World, s: Step) {
    match s
    case Spawn(p, areas) => p != 0 && p !in w.procs && |w.procs| < PROC_MAX && w.pm.free != [] && AreasSound(areas)
    case Dispatch(p) => p in w.procs && !w.procs[p].zombie
    case Idle => true
    case Miss(v, _) =>
      Runs(w) && (v in w.procs[w.current].pages ||
                  (Covered(w.procs[w.current].areas, v * PAGE_BYTES) && w.pm.free != []))
    case StoreByte(v, offset, _) => Runs(w) && Mmu.TlbKey(w.mmu.asid, v) in w.mmu.tlb && offset < PAGE_BYTES
    case Fork(child, order) =>
      Runs(w) && child != 0 && child !in w.procs && |w.procs| < PROC_MAX &&
      ListsAll(order, w.procs[w.current].pages) && |order| < |w.pm.free|
    case Exit(order) => Runs(w) && ListsAll(order, w.procs[w.current].pages)
    case Reap(p) => p in w.procs && w.procs[p].zombie && p != w.current
    case Exec(areas, args, order) => CanExec(w, areas, args, order)
    case KernelTake(_) => w.pm.free != []
    case KernelGive(n) => n in w.kernel
    case KernelWrite(n, _) => KernelOwned(w, n)
  }

  // ---- exec ----------------------------------------------------------------------------------

  /** The first n elements. */
  ghost function Head(s: seq<nat>, n: nat): set<nat>
    requires n <= |s|
  {
    set i | 0 <= i < n :: s[i]
  }

  lemma HeadStep(s: seq<nat>, n: nat)
    requires n < |s|
    ensures Head(s, n + 1) == Head(s, n) + {s[n]}
  {
  }

  lemma NoHead(s: seq<nat>)
    ensures Head(s, 0) == {}
  {
  }

  lemma FirstsIn(w: World)
    requires Core(w)
    ensures forall i :: 0 <= i < |w.pm.free| ==> w.pm.free[i] in w.pm.ram
  {
    PartitionFacts(w, 0);
  }

  /** copy_arg_array takes one page per frame of arguments. */
  ghost function TakeArgs(w: World, args: seq<Frame>): (r: World)
    requires |args| <= |w.pm.free|
    ensures r.pm.free == w.pm.free[|args|..]
    ensures r == w.(pm := r.pm, kernel := r.kernel)
  {
    if args == [] then w else
    var n := |args| - 1;
    TakeKernel(TakeArgs(w, args[..n]), args[n])
  }

  ghost function ArgVpn(i: nat): nat
    requires i < ARG_MAX_PAGES
  {
    STACK_VPN - (i + 1)
  }

  /** A page table with the argument pages below the top of the stack. */
  ghost function ArgPages(pages: PageMap, ppns: seq<nat>): (r: PageMap)
    requires |ppns| <= ARG_MAX_PAGES
    ensures forall v :: v in r <==> v in pages || STACK_VPN - |ppns| <= v < STACK_VPN
    ensures forall v :: v in pages && !(STACK_VPN - |ppns| <= v < STACK_VPN) ==> r[v] == pages[v]
    ensures forall i :: 0 <= i < |ppns| ==> r[ArgVpn(i)] == PmPage(ppns[i], true, true)
  {
    if ppns == [] then pages else
    var n := |ppns| - 1;
    ArgPages(pages, ppns[..n])[ArgVpn(n) := PmPage(ppns[n], true, true)]
  }

  /** The argument pages are mapped. */
  ghost function MapArgs(w: World, p: nat, ppns: seq<nat>): World
    requires p in w.procs && |ppns| <= ARG_MAX_PAGES
  {
    w.(kernel := w.kernel - Head(ppns, |ppns|),
       procs := w.procs[p := w.procs[p].(pages := ArgPages(w.procs[p].pages, ppns))])
  }

  lemma MapArgsStep(w: World, p: nat, ppns: seq<nat>, n: nat)
    requires p in w.procs && |ppns| == n + 1 <= ARG_MAX_PAGES && ppns[n] in w.kernel && NoDuplicates(ppns)
    ensures var m := MapArgs(w, p, ppns[..n]);
            ppns[n] in m.kernel && MapArgs(w, p, ppns) == MapKernel(m, p, ArgVpn(n), ppns[n])
  {
    var m := MapArgs(w, p, ppns[..n]);
    var pr := w.procs[p].(pages := ArgPages(w.procs[p].pages, ppns));
    SetProcTwice(w.procs, p, m.procs[p], pr);
    assert Head(ppns, n + 1) == Head(ppns[..n], n) + {ppns[n]};
    assert w.kernel - Head(ppns, n + 1) == w.kernel - Head(ppns[..n], n) - {ppns[n]};
  }

  lemma SetProcTwice(procs: map<nat, Proc>, p: nat, a: Proc, b: Proc)
    ensures procs[p := a][p := b] == procs[p := b]
  {
  }

  lemma MapNoArgs(w: World, p: nat)
    requires p in w.procs
    ensures MapArgs(w, p, []) == w
  {
    assert Head([], 0) == {};
    assert w.procs[p := w.procs[p]] == w.procs;
  }

  lemma {:induction false} TakeArgsKeeps(w: World, args: seq<Frame>)
    requires Core(w) && |args| <= |w.pm.free|
    ensures Core(TakeArgs(w, args))
    ensures TakeArgs(w, args).kernel == w.kernel + Head(w.pm.free, |args|)
    ensures TakeArgs(w, args).pm.ram.Keys == w.pm.ram.Keys
  {
    hide Core, Head;
    FirstsIn(w);
    if args == [] {
      NoHead(w.pm.free);
    } else {
      var n := |args| - 1;
      TakeArgsKeeps(w, args[..n]);
      TakeKernelKeeps(TakeArgs(w, args[..n]), args[n]);
      HeadStep(w.pm.free, n);
    }
  }

  lemma {:induction false} MapArgsKeeps(w: World, p: nat, ppns: seq<nat>)
    requires Core(w) && p in w.procs && !w.procs[p].zombie && w.procs[p].pages == map[] && |ppns| <= ARG_MAX_PAGES
    requires (forall i :: 0 <= i < |ppns| ==> ppns[i] in w.kernel) && NoDuplicates(ppns)
    ensures Core(MapArgs(w, p, ppns))
  {
    hide Core, Head;
    if ppns == [] {
      MapNoArgs(w, p);
    } else {
      var n := |ppns| - 1;
      MapArgsKeeps(w, p, ppns[..n]);
      MapArgsStep(w, p, ppns, n);
      MapKernelKeeps(MapArgs(w, p, ppns[..n]), p, ArgVpn(n), ppns[n]);
    }
  }

  /** exec up to elfloader_load: arguments saved, identifier and pages released, new areas. */
  ghost function ExecCleared(w: World, areas: seq<Area>, args: seq<Frame>, order: seq<nat>): (r: World)
    requires Core(w) && CanExec(w, areas, args, order)
    ensures Core(r) && r.pm.free != []
  {
    hide Core, AreasSound, Teardown, ListsAll, Head;
    var p := w.current;
    TakeArgsKeeps(w, args);
    var e1 := TakeArgs(w, args);
    CoreMmu(e1);
    AsidReleasedKeeps(e1, p);
    var e2 := AsidReleased(e1, p);
    ListsSame(order, w.procs[p].pages, areas);
    EmptiedKeeps(e2, p, order, areas, false);
    Emptied(e2, p, order, areas, false)
  }

  lemma ExecClearedShape(w: World, areas: seq<Area>, args: seq<Frame>, order: seq<nat>)
    requires Core(w) && CanExec(w, areas, args, order)
    ensures var r := ExecCleared(w, areas, args, order);
      && r.current == w.current && r.procs.Keys == w.procs.Keys
      && r.procs[w.current] ==
         w.procs[w.current].(areas := areas, pages := map[], asid := Mmu.ASID_INVALID, zombie := false)
      && (forall q :: q in w.procs && q != w.current ==> r.procs[q] == w.procs[q])
      && r.kernel == w.kernel + Head(w.pm.free, |args|)
      && r.pm.ram.Keys == w.pm.ram.Keys
  {
    hide Core, AreasSound, Teardown, ListsAll, Head, TakeArgs, Mmu.AfterRelease, Mmu.WellFormed;
    TakeArgsKeeps(w, args);
  }

  /** exec of a file that loads: a new kernel stack, the arguments mapped, the old stack released. */
  ghost function ExecBuilt(w: World, areas: seq<Area>, args: seq<Frame>, order: seq<nat>): (r: World)
    requires Core(w) && CanExec(w, areas, args, order)
    ensures Core(r) && r.procs.Keys == w.procs.Keys && r.current == w.current && r.pm.ram.Keys == w.pm.ram.Keys
  {
    hide Core;
    var p := w.current;
    ExecClearedShape(w, areas, args, order);
    var e3 := ExecCleared(w, areas, args, order);
    NewStackKeeps(e3, p);
    var e4 := NewStack(e3, p);
    ArgPagesHeld(w, args, e4);
    MapArgsKeeps(e4, p, w.pm.free[..|args|]);
    var e5 := MapArgs(e4, p, w.pm.free[..|args|]);
    OldStackHeld(w, args, e4);
    GiveKernelKeeps(e5, w.procs[p].kstack);
    GiveKernel(e5, w.procs[p].kstack)
  }

  /** And back to user mode, in a fresh address space. */
  ghost function Executed(w: World, areas: seq<Area>, args: seq<Frame>, order: seq<nat>): (r: World)
    requires Core(w) && CanExec(w, areas, args, order)
    ensures Core(r) && r.procs.Keys == w.procs.Keys && r.current == w.current
    ensures |w.procs| <= PROC_MAX ==> Running(r)
  {
    hide Core, ExecBuilt;
    ExecNotZombie(w, areas, args, order);
    var e6 := ExecBuilt(w, areas, args, order);
    CoreParts(e6);
    DispatchedKeeps(e6, w.current);
    SameSize(w.procs, e6.procs);
    assert |w.procs| <= PROC_MAX ==> Running(Dispatched(e6, w.current)) by {
      if |w.procs| <= PROC_MAX { SwitchSucceeds(e6, w.current); }
    }
    Dispatched(e6, w.current)
  }

  lemma ExecNotZombie(w: World, areas: seq<Area>, args: seq<Frame>, order: seq<nat>)
    requires Core(w) && CanExec(w, areas, args, order)
    ensures !ExecBuilt(w, areas, args, order).procs[w.current].zombie
  {
    ExecClearedShape(w, areas, args, order);
    hide Core, ExecCleared;
  }

  lemma SameSize(a: map<nat, Proc>, b: map<nat, Proc>)
    requires a.Keys == b.Keys
    ensures |a| == |b|
  {
    assert |a| == |a.Keys| && |b| == |b.Keys|;
  }

  lemma CoreMmu(w: World)
    requires Core(w)
    ensures Mmu.WellFormed(w.mmu)
  {
  }

  lemma ListsSame(order: seq<nat>, pages: PageMap, areas: seq<Area>)
    requires ListsAll(order, pages) && AreasSound(areas)
    ensures forall k :: 0 <= k < |order| ==> order[k] in pages
    ensures Disjoint(areas) && forall i :: 0 <= i < |areas| ==> Sound(areas[i])
  {
  }

  lemma ArgPagesHeld(w: World, args: seq<Frame>, e: World)
    requires Core(w) && |args| <= |w.pm.free|
    requires e.kernel >= Head(w.pm.free, |args|)
    ensures forall i :: 0 <= i < |args| ==> w.pm.free[..|args|][i] in e.kernel
    ensures NoDuplicates(w.pm.free[..|args|])
  {
    PartitionFacts(w, 0);
  }

  lemma OldStackHeld(w: World, args: seq<Frame>, e: World)
    requires Core(w) && w.current in w.procs && |args| <= |w.pm.free| && w.procs[w.current].kstack in e.kernel
    ensures w.procs[w.current].kstack in e.kernel - Head(w.pm.free[..|args|], |args|)
  {
    PartitionFacts(w, w.current);
  }

  // ---- a switch always finds an identifier ------------------------------------------------------

  ghost function AsidsOf(procs: map<nat, Proc>, ps: set<nat>): set<nat>
    requires ps <= procs.Keys
  {
    set q | q in ps :: procs[q].asid
  }

  lemma {:induction false} AsidsOfSize(procs: map<nat, Proc>, ps: set<nat>)
    requires ps <= procs.Keys
    ensures |AsidsOf(procs, ps)| <= |ps|
    decreases |ps|
  {
    if ps != {} {
      var q :| q in ps;
      AsidsOfSize(procs, ps - {q});
      assert AsidsOf(procs, ps) == AsidsOf(procs, ps - {q}) + {procs[q].asid};
    }
  }

  lemma {:induction false} RangeSize(n: nat, s: set<nat>)
    requires forall i :: 0 <= i < n ==> i in s
    ensures |s| >= n
    decreases n
  {
    if n > 0 {
      RangeSize(n - 1, s - {n - 1});
    }
  }

  /** With at most PROC_MAX processes, dispatching one of them never fails. */
  lemma SwitchSucceeds(w: World, p: nat)
    requires AsidsSound(w.procs, w.mmu) && p in w.procs && |w.procs| <= PROC_MAX
    ensures Mmu.AfterSwitch(w.mmu, w.procs[p].asid).Switched?
  {
    Mmu.SwitchIsClean(w.mmu, w.procs[p].asid);
    if w.procs[p].asid == Mmu.ASID_INVALID && forall i :: 0 <= i < Mmu.ASID_MAX ==> w.mmu.usage[i] == Mmu.Used {
      hide Mmu.AfterSwitch;
      var others := w.procs.Keys - {p};
      var asids := AsidsOf(w.procs, others);
      forall a | 0 <= a < Mmu.ASID_MAX ensures a in asids {
        assert Held(w.procs, a);
        var q :| q in w.procs && w.procs[q].asid == a;
        assert q in others;
      }
      assert |others| == |w.procs| - 1;
      AsidsOfSize(w.procs, others);
      RangeSize(Mmu.ASID_MAX, asids);
      assert false;
    }
  }

  // ---- every step keeps the invariant --------------------------------------------------------------

  ghost function MissStep(w: World, v: nat, dropped: set<Mmu.TlbKey>): (r: World)
    requires Core(w) && Enabled(w, Miss(v, dropped))
    ensures r.current == w.current
  {
    var p := w.current;
    if v in w.procs[p].pages then TlbLoaded(w, v, w.procs[p].pages[v].ppn, dropped)
    else
      FaultedKeeps(w, p, v);
      TlbLoaded(Faulted(w, p, v), v, w.pm.free[0], dropped)
  }

  ghost function StoreStep(w: World, v: nat, offset: nat, value: Byte): (r: World)
    requires Inv(w) && Enabled(w, StoreByte(v, offset, value))
    ensures r.current == w.current
  {
    TlbHitIsMapped(w, v);
    var n := w.mmu.tlb[Mmu.TlbKey(w.mmu.asid, v)];
    FrameWritten(w, n, w.pm.ram[n][offset := value])
  }

  /** A TLB hit of the running process is a hit in its page table. */
  lemma TlbHitIsMapped(w: World, v: nat)
    requires Inv(w) && Runs(w) && Mmu.TlbKey(w.mmu.asid, v) in w.mmu.tlb
    ensures var n := w.mmu.tlb[Mmu.TlbKey(w.mmu.asid, v)];
      && n in w.pm.ram && n !in w.pm.free
      && v in w.procs[w.current].pages && w.procs[w.current].pages[v].ppn == n
  {
    PartitionFacts(w, w.current);
  }

  ghost function ExitStep(w: World, order: seq<nat>): (r: World)
    requires Core(w) && Enabled(w, Exit(order))
    ensures r.current == w.current
  {
    var p := w.current;
    CoreMmu(w);
    AsidReleasedKeeps(w, p);
    EmptiedKeeps(AsidReleased(w, p), p, order, [], true);
    Emptied(AsidReleased(w, p), p, order, [], true)
  }

  ghost function ForkTaken(w: World, child: nat, order: seq<nat>): (r: World)
    requires Core(w) && Enabled(w, Fork(child, order))
    ensures r.current == w.current
  {
    ForkedKeeps(w, w.current, child, order);
    Forked(w, w.current, child, order)
  }

  ghost function ReapTaken(w: World, p: nat): (r: World)
    requires Core(w) && Enabled(w, Reap(p))
    ensures r.current == w.current
  {
    ReapedKeeps(w, p);
    Reaped(w, p)
  }

  ghost function GiveTaken(w: World, n: nat): (r: World)
    requires Core(w) && n in w.kernel
    ensures r.current == w.current
  {
    GiveKernelKeeps(w, n);
    GiveKernel(w, n)
  }

  ghost function WriteTaken(w: World, n: nat, f: Frame): (r: World)
    requires Core(w) && KernelOwned(w, n)
    ensures r.current == w.current
  {
    KernelOwnedFacts(w, n);
    FrameWritten(w, n, f)
  }

  ghost function Next(w: World, s: Step): (r: World)
    requires Inv(w) && Enabled(w, s)
  {
    hide Chained, Partition, ProcsSound, AsidsSound;
    CoreMmu(w);
    match s
    case Spawn(p, areas) => Spawned(w, p, areas)
    case Dispatch(p) => Dispatched(w, p)
    case Idle => w.(current := 0, mmu := w.mmu.(asid := Mmu.ASID_IDLE))
    case Miss(v, dropped) => MissStep(w, v, dropped)
    case StoreByte(v, offset, value) => StoreStep(w, v, offset, value)
    case Fork(child, order) => ForkTaken(w, child, order)
    case Exit(order) => ExitStep(w, order)
    case Reap(p) => ReapTaken(w, p)
    case Exec(areas, args, order) => Executed(w, areas, args, order)
    case KernelTake(f) => TakeKernel(w, f)
    case KernelGive(n) => GiveTaken(w, n)
    case KernelWrite(n, f) => WriteTaken(w, n, f)
  }

  /** Only a context switch changes the running process. */
  lemma NextCurrent(w: World, s: Step)
    requires Inv(w) && Enabled(w, s)
    ensures Next(w, s).current == if s.Dispatch? then s.pid else if s.Idle? then 0 else w.current
  {
    hide Inv, MissStep, StoreStep, ExitStep, ForkTaken, ReapTaken, GiveTaken, WriteTaken, Executed, Mmu.AfterSwitch;
  }

  lemma KernelOwnedFacts(w: World, n: nat)
    requires Partition(w) && KernelOwned(w, n)
    ensures n in w.pm.ram && n !in w.pm.free
    ensures forall p, v :: p in w.procs && v in w.procs[p].pages ==> w.procs[p].pages[v].ppn != n
  {
    if n in w.kernel {
      OneOwner(w, Kernel, n);
    } else {
      var p :| p in w.procs && w.procs[p].kstack == n;
      OneOwner(w, KernelStack(p), n);
    }
  }

  /** Every step keeps the core invariant. */
  lemma NextKeepsCore(w: World, s: Step)
    requires Inv(w) && Enabled(w, s)
    ensures Core(Next(w, s))
  {
    hide Core;
    match s
    case Spawn(p, areas) => SpawnedKeeps(w, p, areas);
    case Dispatch(p) => DispatchedKeeps(w, p);
    case Idle => IdleKeeps(w);
    case Miss(v, dropped) => MissKeeps(w, v, dropped);
    case StoreByte(v, offset, value) =>
      TlbHitIsMapped(w, v);
      var n := w.mmu.tlb[Mmu.TlbKey(w.mmu.asid, v)];
      FrameWrittenKeeps(w, n, w.pm.ram[n][offset := value]);
    case Fork(child, order) => ForkedKeeps(w, w.current, child, order);
    case Exit(order) => ExitKeeps(w, order);
    case Reap(p) => ReapedKeeps(w, p);
    case Exec(areas, args, order) =>
    case KernelTake(f) => TakeKernelKeeps(w, f);
    case KernelGive(n) => GiveKernelKeeps(w, n);
    case KernelWrite(n, f) =>
      CoreParts(w);
      KernelOwnedFacts(w, n);
      FrameWrittenKeeps(w, n, f);
  }

  lemma CoreParts(w: World)
    requires Core(w)
    ensures Chained(w.pm) && Partition(w) && ProcsSound(w.procs) && AsidsSound(w.procs, w.mmu)
  {
  }

  lemma IdleKeeps(w: World)
    requires Core(w)
    ensures Core(w.(current := 0, mmu := w.mmu.(asid := Mmu.ASID_IDLE)))
  {
    hide Chained, ProcsSound;
    SameOwners(w, w.(current := 0, mmu := w.mmu.(asid := Mmu.ASID_IDLE)));
  }

  lemma MissKeeps(w: World, v: nat, dropped: set<Mmu.TlbKey>)
    requires Inv(w) && Enabled(w, Miss(v, dropped))
    ensures Core(MissStep(w, v, dropped))
  {
    hide Core;
    var p := w.current;
    if v in w.procs[p].pages {
      TlbLoadedKeeps(w, p, v, dropped);
    } else {
      FaultedKeeps(w, p, v);
      TlbLoadedKeeps(Faulted(w, p, v), p, v, dropped);
    }
  }

  lemma ExitKeeps(w: World, order: seq<nat>)
    requires Core(w) && Enabled(w, Exit(order))
    ensures Core(ExitStep(w, order))
  {
    hide Core, Teardown;
    var p := w.current;
    CoreMmu(w);
    AsidReleasedKeeps(w, p);
    EmptiedKeeps(AsidReleased(w, p), p, order, [], true);
  }

  lemma OneMore(procs: map<nat, Proc>, p: nat, pr: Proc)
    requires p !in procs
    ensures |procs[p := pr]| == |procs| + 1
  {
    assert procs[p := pr].Keys == procs.Keys + {p};
  }

  lemma OneLess(procs: map<nat, Proc>, p: nat)
    ensures |procs - {p}| <= |procs|
  {
    assert (procs - {p}).Keys == procs.Keys - {p};
  }

  /** Every step keeps the whole invariant. */
  lemma NextKeepsInv(w: World, s: Step)
    requires Inv(w) && Enabled(w, s)
    ensures Inv(Next(w, s))
  {
    NextKeepsCore(w, s);
    NextKeepsCount(w, s);
    NextKeepsRunning(w, s);
  }

  lemma NextKeepsCount(w: World, s: Step)
    requires Inv(w) && Enabled(w, s)
    ensures var w' := Next(w, s);
            |w'.procs| <= PROC_MAX && 0 !in w'.procs && (w'.current == 0 || w'.current in w'.procs)
  {
    hide Core, Teardown, Running;
    match s
    case Spawn(p, areas) => OneMore(w.procs, p, Next(w, s).procs[p]);
    case Fork(child, order) => OneMore(w.procs, child, Next(w, s).procs[child]);
    case Reap(p) => OneLess(w.procs, p);
    case _ =>
      SameProcs(w, s);
      SameSize(w.procs, Next(w, s).procs);
  }

  lemma NextKeepsRunning(w: World, s: Step)
    requires Inv(w) && Enabled(w, s)
    ensures Running(Next(w, s))
  {
    if s.Dispatch? {
      SwitchSucceeds(w, s.pid);
      DispatchedKeeps(w, s.pid);
    } else {
      hide Core, Teardown;
    }
  }

  lemma SameProcs(w: World, s: Step)
    requires Inv(w) && Enabled(w, s) && !(s.Spawn? || s.Fork? || s.Reap?)
    ensures Next(w, s).procs.Keys == w.procs.Keys
  {
    hide Core, Teardown;
  }

  // ---- runs --------------------------------------------------------------------------------------------

  /** After pm_init_pages, mmu_init and process_init: all memory free, no process. */
  ghost predicate Boot(w: World) {
    && Chained(w.pm) && (forall n :: n in w.pm.ram ==> n in w.pm.free)
    && w.kernel == {} && w.procs == map[] && w.current == 0
    && w.mmu == Mmu.State(seq(Mmu.ASID_MAX, i => Mmu.Free), map[], Mmu.ASID_IDLE)
  }

  lemma BootIsSound(w: World)
    requires Boot(w)
    ensures Inv(w)
  {
    forall n | n in w.pm.ram ensures Owned(w, n) {
      var i :| 0 <= i < |w.pm.free| && w.pm.free[i] == n;
      assert Owns(w, FreeSlot(i), n);
    }
  }

  /** Each step can be taken where it comes. */
  ghost predicate CanRun(w: World, steps: seq<Step>)
    requires Inv(w)
    decreases |steps|
  {
    steps == [] || (Enabled(w, steps[0]) && (NextKeepsInv(w, steps[0]); CanRun(Next(w, steps[0]), steps[1..])))
  }

  ghost function Run(w: World, steps: seq<Step>): World
    requires Inv(w) && CanRun(w, steps)
    decreases |steps|
  {
    if steps == [] then w else
    NextKeepsInv(w, steps[0]);
    Run(Next(w, steps[0]), steps[1..])
  }

  /** Over every run from boot, every physical page has exactly one owner, no two processes share an
      address space identifier, and the TLB never holds a translation the page tables do not have. */
  lemma {:induction false} RunKeepsInv(w: World, steps: seq<Step>)
    requires Inv(w) && CanRun(w, steps)
    ensures Inv(Run(w, steps))
    decreases |steps|
  {
    if steps != [] {
      NextKeepsInv(w, steps[0]);
      hide Inv, Enabled, Next;
      RunKeepsInv(Next(w, steps[0]), steps[1..]);
    }
  }

  /** The number of pages never changes, and they are the free ones, the kernel's, the kernel stacks
      and the mapped ones. */
  lemma RunConservesPages(w: World, steps: seq<Step>, n: nat)
    requires Boot(w) && Inv(w) && CanRun(w, steps)
    ensures n in w.pm.ram <==> n in Run(w, steps).pm.ram
    ensures n in w.pm.ram <==> Owned(Run(w, steps), n)
    ensures forall o, o' :: Owns(Run(w, steps), o, n) && Owns(Run(w, steps), o', n) ==> o == o'
  {
    RunKeepsInv(w, steps);
    RunKeepsRam(w, steps);
  }

  lemma {:induction false} RunKeepsRam(w: World, steps: seq<Step>)
    requires Inv(w) && CanRun(w, steps)
    ensures Run(w, steps).pm.ram.Keys == w.pm.ram.Keys
    decreases |steps|
  {
    if steps != [] {
      NextKeepsInv(w, steps[0]);
      NextKeepsRam(w, steps[0]);
      hide Inv, Enabled, Next;
      RunKeepsRam(Next(w, steps[0]), steps[1..]);
    }
  }

  lemma NextKeepsRam(w: World, s: Step)
    requires Inv(w) && Enabled(w, s)
    ensures Next(w, s).pm.ram.Keys == w.pm.ram.Keys
  {
    hide Core, Running, AreasSound, ListsAll, PhysicalMemory.Linked, FaultFrame, Mmu.AfterSwitch, Partition,
         AsidsSound, Chained;
    match s
    case Exec(areas, args, order) => ExecKeepsRam(w, areas, args, order);
    case StoreByte(v, _, _) => TlbHitIsMapped(w, v);
    case KernelWrite(n, _) =>
      CoreParts(w);
      KernelOwnedFacts(w, n);
    case Reap(p) => ReapedKeeps(w, p);
    case KernelGive(n) => GiveKernelKeeps(w, n);
    case Fork(child, order) =>
      ForkedKeeps(w, w.current, child, order);
      hide ForkCopy;
    case Exit(order) =>
      hide Teardown;
    case Miss(v, _) =>
      FirstFreeIn(w);
      hide AreaAt;
    case KernelTake(_) => FirstFreeIn(w);
    case _ => hide Executed, ForkTaken, ExitStep, MissStep;
  }

  lemma FirstFreeIn(w: World)
    requires Core(w)
    ensures w.pm.free != [] ==> w.pm.free[0] in w.pm.ram
  {
    PartitionFacts(w, 0);
  }

  lemma ExecKeepsRam(w: World, areas: seq<Area>, args: seq<Frame>, order: seq<nat>)
    requires Core(w) && CanExec(w, areas, args, order)
    ensures Executed(w, areas, args, order).pm.ram.Keys == w.pm.ram.Keys
  {
    hide Core, Mmu.AfterSwitch, ExecBuilt;
  }

  // ---- exec of a file that does not load --------------------------------------------------------------

  /** elfloader_load reports success even when elfloader_load_all failed, so sys_execve goes on: the
      kernel stack was not replaced, and it is released. areas are the ones inserted before the error. */
  ghost function ExecFailed(w: World, areas: seq<Area>, args: seq<Frame>, order: seq<nat>): (r: World)
    requires Core(w) && CanExec(w, areas, args, order)
  {
    var p := w.current;
    ExecClearedShape(w, areas, args, order);
    var e3 := ExecCleared(w, areas, args, order);
    ArgPagesHeld(w, args, e3);
    var e5 := MapArgs(e3, p, w.pm.free[..|args|]);
    PartitionFacts(e3, p);
    var e6 := e5.(pm := GiveBack(e5.pm, e5.procs[p].kstack));
    CoreMmu(e3);
    Dispatched(e6, p)
  }

  lemma CorePartition(w: World)
    requires Core(w)
    ensures Partition(w)
  {
  }

  /** A kernel stack at the head of the free list has two owners. */
  lemma StackNotFree(w: World, p: nat)
    requires p in w.procs && w.pm.free != [] && w.procs[p].kstack == w.pm.free[0]
    ensures !Partition(w)
  {
    var k := w.procs[p].kstack;
    assert Owns(w, FreeSlot(0), k) && Owns(w, KernelStack(p), k);
  }

  lemma FailedSharesStack(w: World, areas: seq<Area>, args: seq<Frame>, order: seq<nat>)
    requires Core(w) && CanExec(w, areas, args, order)
    ensures var r := ExecFailed(w, areas, args, order);
            w.current in r.procs && r.pm.free != [] && r.procs[w.current].kstack == r.pm.free[0]
  {
    hide Core, ExecCleared, ArgPages, PhysicalMemory.Linked, AreasSound, ListsAll, Mmu.AfterSwitch;
    ExecClearedShape(w, areas, args, order);
  }
}
