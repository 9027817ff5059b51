/** All processes, physical memory and the MMU together, as one state machine. Each kernel
    operation on memory is a step; this module says who owns which page and keeps it true. */
module World {
  import opened Arch
  import opened PhysicalMemory
  import opened PageDirs
  import opened Areas
  import opened Paging
  import Mmu

  /** The memory side of struct process. A zombie keeps only its kernel stack. */
  datatype Proc = Proc(areas: seq<Area>, pages: PageMap, kstack: nat, asid: nat, zombie: bool)

  /** kernel holds the pages of pools, pipes, file systems and of exec while it runs. */
  datatype World = World(pm: Pm, kernel: set<nat>, procs: map<nat, Proc>, mmu: Mmu.State, current: nat)

  // ---- who owns a page -----------------------------------------------------------------

  datatype Owner = FreeSlot(i: nat) | Kernel | KernelStack(pid: nat) | UserPage(pid: nat, vpn: nat)

  ghost predicate Owns(w: World, o: Owner, ppn: nat) {
    match o
    case FreeSlot(i) => i < |w.pm.free| && w.pm.free[i] == ppn
    case Kernel => ppn in w.kernel
    case KernelStack(p) => p in w.procs && w.procs[p].kstack == ppn
    case UserPage(p, v) => p in w.procs && v in w.procs[p].pages && w.procs[p].pages[v].ppn == ppn
  }

  /** Every page has exactly one owner. */
  ghost predicate Partition(w: World) {
    && (forall o, n :: Owns(w, o, n) ==> n in w.pm.ram)
    && (forall n, o, o' :: Owns(w, o, n) && Owns(w, o', n) ==> o == o')
    && (forall n :: n in w.pm.ram ==> Owned(w, n))
  }

  ghost predicate Owned(w: World, n: nat) {
    exists o :: Owns(w, o, n)
  }

  /** A step that moves pages between owners, none to two of them and none to nobody. */
  lemma TransferKeepsPartition(w: World, w': World, back: (Owner, nat) -> Owner, forth: (Owner, nat) -> Owner)
    requires Partition(w) && w'.pm.ram.Keys == w.pm.ram.Keys
    requires forall o, n :: Owns(w', o, n) ==> Owns(w, back(o, n), n)
    requires forall o, o', n :: Owns(w', o, n) && Owns(w', o', n) && back(o, n) == back(o', n) ==> o == o'
    requires forall o, n :: Owns(w, o, n) ==> Owns(w', forth(o, n), n)
    ensures Partition(w')
  {
    forall n | n in w'.pm.ram ensures Owned(w', n) {
      assert Owned(w, n);
      var o :| Owns(w, o, n);
      assert Owns(w', forth(o, n), n);
    }
  }

  /** What is not in the page tables, kernel stacks, kernel pages or free list does not matter. */
  lemma SameOwners(w: World, w': World)
    requires Partition(w) && w'.pm.free == w.pm.free && w'.pm.ram.Keys == w.pm.ram.Keys && w'.kernel == w.kernel
    requires w'.procs.Keys == w.procs.Keys
    requires forall p :: p in w.procs ==>
               w'.procs[p].pages == w.procs[p].pages && w'.procs[p].kstack == w.procs[p].kstack
    ensures Partition(w')
  {
    TransferKeepsPartition(w, w', (o: Owner, n: nat) => o, (o: Owner, n: nat) => o);
  }

  /** The owner of a page is its only owner. */
  lemma OneOwner(w: World, o: Owner, n: nat)
    requires Partition(w) && Owns(w, o, n)
    ensures n in w.pm.ram
    ensures forall i :: 0 <= i < |w.pm.free| && w.pm.free[i] == n ==> o == FreeSlot(i)
    ensures n in w.kernel ==> o == Kernel
    ensures forall p :: p in w.procs && w.procs[p].kstack == n ==> o == KernelStack(p)
    ensures forall p, v :: p in w.procs && v in w.procs[p].pages && w.procs[p].pages[v].ppn == n ==> o == UserPage(p, v)
  {
    forall i | 0 <= i < |w.pm.free| && w.pm.free[i] == n ensures o == FreeSlot(i) {
      assert Owns(w, FreeSlot(i), n);
    }
    assert n in w.kernel ==> Owns(w, Kernel, n);
    forall p | p in w.procs && w.procs[p].kstack == n ensures o == KernelStack(p) {
      assert Owns(w, KernelStack(p), n);
    }
    forall p, v | p in w.procs && v in w.procs[p].pages && w.procs[p].pages[v].ppn == n ensures o == UserPage(p, v) {
      assert Owns(w, UserPage(p, v), n);
    }
  }

  /** What the partition means for the page tables and the free list. */
  lemma PartitionFacts(w: World, p: nat)
    requires Partition(w)
    ensures Managed(w.pm)
    ensures forall n :: n in w.kernel ==> n in w.pm.ram && n !in w.pm.free
    ensures p in w.procs ==>
      && w.procs[p].kstack in w.pm.ram && w.procs[p].kstack !in w.pm.free && w.procs[p].kstack !in w.kernel
      && Injective(w.procs[p].pages)
      && (forall v :: v in w.procs[p].pages ==>
            w.procs[p].pages[v].ppn in w.pm.ram && w.procs[p].pages[v].ppn !in w.pm.free)
  {
    forall i | 0 <= i < |w.pm.free| { OneOwner(w, FreeSlot(i), w.pm.free[i]); }
    forall n | n in w.kernel { OneOwner(w, Kernel, n); }
    if p in w.procs {
      OneOwner(w, KernelStack(p), w.procs[p].kstack);
      forall v | v in w.procs[p].pages { OneOwner(w, UserPage(p, v), w.procs[p].pages[v].ppn); }
    }
  }

  // ---- the invariant ------------------------------------------------------------------------

  ghost predicate ProcSound(pr: Proc) {
    && Disjoint(pr.areas) && (forall i :: 0 <= i < |pr.areas| ==> Sound(pr.areas[i]))
    && (forall v :: v in pr.pages ==> pr.pages[v].valid)
    && (pr.zombie ==> pr.areas == [] && pr.pages == map[] && pr.asid == Mmu.ASID_INVALID)
  }

  /** Identifiers: each used one belongs to one process, free ones are clean, and what the TLB holds
      for a process is what its page table says. */
  ghost predicate AsidsSound(procs: map<nat, Proc>, mmu: Mmu.State) {
    && Mmu.WellFormed(mmu) && Mmu.FreeIsClean(mmu)
    && (forall p :: p in procs ==>
          procs[p].asid == Mmu.ASID_INVALID ||
          (procs[p].asid < Mmu.ASID_MAX && mmu.usage[procs[p].asid] == Mmu.Used))
    && (forall p, q :: p in procs && q in procs && p != q && procs[p].asid == procs[q].asid ==>
          procs[p].asid == Mmu.ASID_INVALID)
    && (forall a :: 0 <= a < Mmu.ASID_MAX && mmu.usage[a] == Mmu.Used ==> Held(procs, a))
    && (forall p, k :: p in procs && k in mmu.tlb && procs[p].asid == k.asid ==>
          Mirrors(procs[p].pages, k.vpn, mmu.tlb[k]))
  }

  ghost predicate Held(procs: map<nat, Proc>, a: nat) {
    exists p :: p in procs && procs[p].asid == a
  }

  /** A TLB entry that is also an entry of the page table. */
  ghost predicate Mirrors(pages: PageMap, vpn: nat, ppn: nat) {
    vpn in pages && pages[vpn].ppn == ppn
  }

  ghost predicate ProcsSound(procs: map<nat, Proc>) {
    forall p :: p in procs ==> ProcSound(procs[p])
  }

  /** Holds between any two kernel actions. */
  ghost predicate Core(w: World) {
    && Chained(w.pm) && Partition(w)
    && ProcsSound(w.procs) && AsidsSound(w.procs, w.mmu)
  }

  /** The process that runs, if any, runs in its own address space. */
  ghost predicate Running(w: World) {
    w.current in w.procs && !w.procs[w.current].zombie ==>
      w.procs[w.current].asid == w.mmu.asid && w.mmu.asid != Mmu.ASID_INVALID
  }

  ghost predicate Inv(w: World) {
    && Core(w) && Running(w) && |w.procs| <= PROC_MAX
    && 0 !in w.procs && (w.current == 0 || w.current in w.procs)
  }

  // ---- the actions operations are made of ------------------------------------------------------

  /** A page goes from the free list to the kernel, and is filled. */
  ghost function TakeKernel(w: World, f: Frame): World
    requires w.pm.free != []
  {
    var n := w.pm.free[0];
    w.(pm := Pm(w.pm.free[1..], w.pm.ram[n := f]), kernel := w.kernel + {n})
  }

  /** A page of the kernel goes back to the free list. */
  ghost function GiveKernel(w: World, n: nat): World
    requires n in w.kernel && n in w.pm.ram
  {
    w.(pm := GiveBack(w.pm, n), kernel := w.kernel - {n})
  }

  /** A page of the kernel becomes page v of process p. */
  ghost function MapKernel(w: World, p: nat, v: nat, n: nat): World
    requires p in w.procs && n in w.kernel
  {
    var pr := w.procs[p];
    w.(kernel := w.kernel - {n}, procs := w.procs[p := pr.(pages := pr.pages[v := PmPage(n, true, true)])])
  }

  /** A new kernel stack page; the old one is the kernel's to release. */
  ghost function NewStack(w: World, p: nat): World
    requires p in w.procs && w.pm.free != []
  {
    w.(pm := Take(w.pm), kernel := w.kernel + {w.procs[p].kstack},
       procs := w.procs[p := w.procs[p].(kstack := w.pm.free[0])])
  }

  /** All pages of a process are released, and it gets other areas. */
  ghost function Emptied(w: World, p: nat, order: seq<nat>, areas: seq<Area>, zombie: bool): World
    requires p in w.procs
    requires forall k :: 0 <= k < |order| ==>
               order[k] in w.procs[p].pages && w.procs[p].pages[order[k]].ppn in w.pm.ram
  {
    var pr := w.procs[p];
    w.(pm := Teardown(pr.pages, order, w.pm),
       procs := w.procs[p := pr.(areas := areas, pages := map[], zombie := zombie)])
  }

  /** arch_adrsp_release of a process. */
  ghost function AsidReleased(w: World, p: nat): World
    requires p in w.procs && Mmu.WellFormed(w.mmu)
  {
    w.(mmu := Mmu.AfterRelease(w.mmu, w.procs[p].asid),
       procs := w.procs[p := w.procs[p].(asid := Mmu.ASID_INVALID)])
  }

  /** process_contextjmp: the result of arch_adrsp_switch_to is not looked at. */
  ghost function Dispatched(w: World, p: nat): World
    requires p in w.procs && Mmu.WellFormed(w.mmu)
  {
    var r := Mmu.AfterSwitch(w.mmu, w.procs[p].asid);
    if r.Failed? then w.(current := p)
    else w.(mmu := r.state, current := p, procs := w.procs[p := w.procs[p].(asid := r.asid)])
  }

  // ---- each action keeps the core invariant -------------------------------------------------------

  lemma TakeKernelKeeps(w: World, f: Frame)
    requires Core(w) && w.pm.free != []
    ensures Core(TakeKernel(w, f))
  {
    hide Chained, ProcsSound, AsidsSound, Partition;
    PartitionFacts(w, 0);
    TakeKeepsChain(w.pm);
    StoreKeepsChain(Take(w.pm), w.pm.free[0], f);
    TakeKernelMoves(w, f);
  }

  lemma TakeKernelMoves(w: World, f: Frame)
    requires Partition(w) && w.pm.free != []
    ensures Partition(TakeKernel(w, f))
  {
    var n0 := w.pm.free[0];
    OneOwner(w, FreeSlot(0), n0);
    TransferKeepsPartition(w, TakeKernel(w, f),
      (o: Owner, n: nat) => match o
        case FreeSlot(i) => FreeSlot(i + 1)
        case Kernel => if n == n0 then FreeSlot(0) else o
        case _ => o,
      (o: Owner, n: nat) => match o
        case FreeSlot(i) => if i == 0 then Kernel else FreeSlot(i - 1)
        case _ => o);
  }

  lemma GiveKernelKeeps(w: World, n: nat)
    requires Core(w) && n in w.kernel
    ensures n in w.pm.ram && Core(GiveKernel(w, n))
  {
    hide Chained, ProcsSound, AsidsSound, Partition;
    PartitionFacts(w, 0);
    GiveBackKeepsChain(w.pm, n);
    GiveKernelMoves(w, n);
  }

  lemma GiveKernelMoves(w: World, n0: nat)
    requires Partition(w) && n0 in w.kernel && n0 in w.pm.ram
    ensures Partition(GiveKernel(w, n0))
  {
    hide Owns, GiveBackOwner, GiveForthOwner, Partition;
    var w' := GiveKernel(w, n0);
    forall o, n | Owns(w', o, n) ensures Owns(w, GiveBackOwner(o), n) { GiveKernelBack(w, n0, o, n); }
    forall o, o', n | Owns(w', o, n) && Owns(w', o', n) && GiveBackOwner(o) == GiveBackOwner(o') ensures o == o' {
      GiveKernelInjective(w, n0, o, o', n);
    }
    forall o, n | Owns(w, o, n) ensures Owns(w', GiveForthOwner(n0, o, n), n) { GiveKernelForth(w, n0, o, n); }
    TransferKeepsPartition(w, w', (o: Owner, n: nat) => GiveBackOwner(o),
                           (o: Owner, n: nat) => GiveForthOwner(n0, o, n));
  }

  ghost function GiveBackOwner(o: Owner): Owner {
    match o
    case FreeSlot(i) => if i == 0 then Kernel else FreeSlot(i - 1)
    case _ => o
  }

  ghost function GiveForthOwner(n0: nat, o: Owner, n: nat): Owner {
    match o
    case FreeSlot(i) => FreeSlot(i + 1)
    case Kernel => if n == n0 then FreeSlot(0) else o
    case _ => o
  }

  lemma GiveKernelBack(w: World, n0: nat, o: Owner, n: nat)
    requires n0 in w.kernel && n0 in w.pm.ram && Owns(GiveKernel(w, n0), o, n)
    ensures Owns(w, GiveBackOwner(o), n)
  {
    hide PhysicalMemory.Linked;
  }

  lemma GiveKernelInjective(w: World, n0: nat, o: Owner, o': Owner, n: nat)
    requires n0 in w.kernel && n0 in w.pm.ram && Owns(GiveKernel(w, n0), o, n) && Owns(GiveKernel(w, n0), o', n)
    requires GiveBackOwner(o) == GiveBackOwner(o')
    ensures o == o'
  {
    hide PhysicalMemory.Linked;
  }

  lemma GiveKernelForth(w: World, n0: nat, o: Owner, n: nat)
    requires n0 in w.kernel && n0 in w.pm.ram && Owns(w, o, n)
    ensures Owns(GiveKernel(w, n0), GiveForthOwner(n0, o, n), n)
  {
    hide PhysicalMemory.Linked;
  }

  // What happens to the address space identifiers when one process changes.

  lemma PageAddedKeepsAsids(procs: map<nat, Proc>, mmu: Mmu.State, p: nat, v: nat, page: PmPage)
    requires AsidsSound(procs, mmu) && p in procs && v !in procs[p].pages
    ensures AsidsSound(procs[p := procs[p].(pages := procs[p].pages[v := page])], mmu)
  {
    hide Mmu.FreeIsClean;
    var procs' := procs[p := procs[p].(pages := procs[p].pages[v := page])];
    forall a: nat | Held(procs, a) ensures Held(procs', a) {
      var q :| q in procs && procs[q].asid == a;
      assert procs'[q].asid == a;
    }
  }

  lemma IdleKeepsAsids(procs: map<nat, Proc>, mmu: Mmu.State, p: nat, pr: Proc)
    requires AsidsSound(procs, mmu) && pr.asid == Mmu.ASID_INVALID
    requires p in procs ==> procs[p].asid == Mmu.ASID_INVALID
    ensures AsidsSound(procs[p := pr], mmu)
    ensures AsidsSound(procs - {p}, mmu)
  {
    hide AsidsSound;
    IdleSetKeepsAsids(procs, mmu, p, pr);
    IdleGoneKeepsAsids(procs, mmu, p);
  }

  lemma IdleSetKeepsAsids(procs: map<nat, Proc>, mmu: Mmu.State, p: nat, pr: Proc)
    requires AsidsSound(procs, mmu) && pr.asid == Mmu.ASID_INVALID
    requires p in procs ==> procs[p].asid == Mmu.ASID_INVALID
    ensures AsidsSound(procs[p := pr], mmu)
  {
    hide Mirrors;
    forall a: nat | Held(procs, a) && a < Mmu.ASID_MAX ensures Held(procs[p := pr], a) {
      var q :| q in procs && procs[q].asid == a;
      assert procs[p := pr][q].asid == a;
    }
    assert forall k :: k in mmu.tlb ==> k.asid != Mmu.ASID_INVALID;
  }

  lemma IdleGoneKeepsAsids(procs: map<nat, Proc>, mmu: Mmu.State, p: nat)
    requires AsidsSound(procs, mmu) && (p in procs ==> procs[p].asid == Mmu.ASID_INVALID)
    ensures AsidsSound(procs - {p}, mmu)
  {
    hide Mirrors;
    forall a: nat | Held(procs, a) && a < Mmu.ASID_MAX ensures Held(procs - {p}, a) {
      var q :| q in procs && procs[q].asid == a;
      assert (procs - {p})[q].asid == a;
    }
  }

  lemma SameSpaceKeepsAsids(procs: map<nat, Proc>, mmu: Mmu.State, p: nat, pr: Proc)
    requires AsidsSound(procs, mmu) && p in procs && pr.asid == procs[p].asid && pr.pages == procs[p].pages
    ensures AsidsSound(procs[p := pr], mmu)
  {
    forall a: nat | Held(procs, a) ensures Held(procs[p := pr], a) {
      var q :| q in procs && procs[q].asid == a;
      assert procs[p := pr][q].asid == a;
    }
  }

  lemma MapKernelKeeps(w: World, p: nat, v: nat, n: nat)
    requires Core(w) && p in w.procs && !w.procs[p].zombie && n in w.kernel && v !in w.procs[p].pages
    ensures Core(MapKernel(w, p, v, n))
  {
    var page := PmPage(n, true, true);
    assert ProcSound(w.procs[p].(pages := w.procs[p].pages[v := page]));
    hide Chained, AsidsSound, Partition, ProcSound;
    PageAddedKeepsAsids(w.procs, w.mmu, p, v, page);
    MapKernelMoves(w, p, v, n);
  }

  lemma MapKernelMoves(w: World, p: nat, v: nat, n0: nat)
    requires Partition(w) && p in w.procs && n0 in w.kernel && v !in w.procs[p].pages
    ensures Partition(MapKernel(w, p, v, n0))
  {
    OneOwner(w, Kernel, n0);
    TransferKeepsPartition(w, MapKernel(w, p, v, n0),
      (o: Owner, n: nat) => if o == UserPage(p, v) then Kernel else o,
      (o: Owner, n: nat) => if o == Kernel && n == n0 then UserPage(p, v) else o);
  }

  lemma NewStackKeeps(w: World, p: nat)
    requires Core(w) && p in w.procs && w.pm.free != []
    ensures Core(NewStack(w, p))
    ensures w.procs[p].kstack in NewStack(w, p).kernel
  {
    var pr := w.procs[p].(kstack := w.pm.free[0]);
    assert ProcSound(pr);
    hide Chained, AsidsSound, Partition, ProcSound;
    TakeKeepsChain(w.pm);
    SameSpaceKeepsAsids(w.procs, w.mmu, p, pr);
    NewStackMoves(w, p);
  }

  lemma NewStackMoves(w: World, p: nat)
    requires Partition(w) && p in w.procs && w.pm.free != []
    ensures Partition(NewStack(w, p))
  {
    hide Owns, NewStackBackOwner, NewStackForthOwner, Partition;
    var was, w' := w.procs[p].kstack, NewStack(w, p);
    assert Owns(w, KernelStack(p), was) by { StackOwned(w, p); }
    forall o, n | Owns(w', o, n) ensures Owns(w, NewStackBackOwner(p, was, o, n), n) { NewStackBack(w, p, o, n); }
    forall o, o', n | Owns(w', o, n) && Owns(w', o', n)
                      && NewStackBackOwner(p, was, o, n) == NewStackBackOwner(p, was, o', n)
      ensures o == o'
    {
      NewStackInjective(w, p, o, o', n);
    }
    forall o, n | Owns(w, o, n) ensures Owns(w', NewStackForthOwner(p, o), n) { NewStackForth(w, p, o, n); }
    TransferKeepsPartition(w, w', (o: Owner, n: nat) => NewStackBackOwner(p, was, o, n),
                           (o: Owner, n: nat) => NewStackForthOwner(p, o));
  }

  lemma StackOwned(w: World, p: nat)
    requires p in w.procs
    ensures Owns(w, KernelStack(p), w.procs[p].kstack)
  {
  }

  ghost function NewStackBackOwner(p: nat, was: nat, o: Owner, n: nat): Owner {
    match o
    case FreeSlot(i) => FreeSlot(i + 1)
    case KernelStack(q) => if q == p then FreeSlot(0) else o
    case Kernel => if n == was then KernelStack(p) else o
    case UserPage(_, _) => o
  }

  ghost function NewStackForthOwner(p: nat, o: Owner): Owner {
    match o
    case FreeSlot(i) => if i == 0 then KernelStack(p) else FreeSlot(i - 1)
    case KernelStack(q) => if q == p then Kernel else o
    case Kernel => o
    case UserPage(_, _) => o
  }

  lemma NewStackBack(w: World, p: nat, o: Owner, n: nat)
    requires p in w.procs && w.pm.free != [] && Owns(NewStack(w, p), o, n)
    ensures Owns(w, NewStackBackOwner(p, w.procs[p].kstack, o, n), n)
  {
  }

  lemma NewStackInjective(w: World, p: nat, o: Owner, o': Owner, n: nat)
    requires Partition(w) && p in w.procs && w.pm.free != [] && Owns(NewStack(w, p), o, n)
             && Owns(NewStack(w, p), o', n)
    requires NewStackBackOwner(p, w.procs[p].kstack, o, n) == NewStackBackOwner(p, w.procs[p].kstack, o', n)
    ensures o == o'
  {
    OneOwner(w, KernelStack(p), w.procs[p].kstack);
    OneOwner(w, FreeSlot(0), w.pm.free[0]);
    hide Partition;
  }

  lemma NewStackForth(w: World, p: nat, o: Owner, n: nat)
    requires p in w.procs && w.pm.free != [] && Owns(w, o, n)
    ensures Owns(NewStack(w, p), NewStackForthOwner(p, o), n)
  {
  }

  /** Where v is in order. */
  ghost function IndexIn(order: seq<nat>, v: nat): (k: nat)
    ensures v in order ==> k < |order| && order[k] == v
  {
    if v in order then var k: nat :| k < |order| && order[k] == v; k else 0
  }

  /** order lists all the pages of a process, each once. */
  ghost predicate ListsAll(order: seq<nat>, pages: PageMap) {
    Lists(order, pages) && forall v :: v in pages ==> v in order
  }

  lemma EmptiedKeeps(w: World, p: nat, order: seq<nat>, areas: seq<Area>, zombie: bool)
    requires Core(w) && p in w.procs && w.procs[p].asid == Mmu.ASID_INVALID && ListsAll(order, w.procs[p].pages)
    requires Disjoint(areas) && (forall i :: 0 <= i < |areas| ==> Sound(areas[i])) && (zombie ==> areas == [])
    ensures forall k :: 0 <= k < |order| ==> w.procs[p].pages[order[k]].ppn in w.pm.ram
    ensures Core(Emptied(w, p, order, areas, zombie))
  {
    PartitionFacts(w, p);
    var pr := w.procs[p].(areas := areas, pages := map[], zombie := zombie);
    assert ProcSound(pr);
    assert Backed(w.procs[p].pages, w.pm);
    hide Chained, AsidsSound, Partition, ProcSound, Lists;
    TeardownReleases(w.procs[p].pages, order, w.pm);
    IdleKeepsAsids(w.procs, w.mmu, p, pr);
    EmptiedMoves(w, p, order, areas, zombie);
  }

  /** The owner before a teardown of a page that has this owner after it. */
  ghost function BeforeEmptied(p: nat, order: seq<nat>, o: Owner): Owner {
    match o
    case FreeSlot(i) => if i < |order| then UserPage(p, order[|order| - 1 - i]) else FreeSlot(i - |order|)
    case _ => o
  }

  ghost function AfterEmptied(p: nat, order: seq<nat>, o: Owner): Owner {
    match o
    case FreeSlot(i) => FreeSlot(i + |order|)
    case UserPage(q, v) => if q == p && v in order then FreeSlot(|order| - 1 - IndexIn(order, v)) else o
    case _ => o
  }

  lemma EmptiedMoves(w: World, p: nat, order: seq<nat>, areas: seq<Area>, zombie: bool)
    requires Partition(w) && p in w.procs && ListsAll(order, w.procs[p].pages)
    requires forall k :: 0 <= k < |order| ==> w.procs[p].pages[order[k]].ppn in w.pm.ram
    requires IsReleased(w.procs[p].pages, order, w.pm, Teardown(w.procs[p].pages, order, w.pm))
    ensures Partition(Emptied(w, p, order, areas, zombie))
  {
    hide Teardown;
    var w' := Emptied(w, p, order, areas, zombie);
    forall o, n | Owns(w, o, n) ensures Owns(w', AfterEmptied(p, order, o), n) {
      EmptiedForth(w, w', p, order, o, n);
    }
    forall o, n | Owns(w', o, n) ensures Owns(w, BeforeEmptied(p, order, o), n) {
      EmptiedBack(w, w', p, order, o, n);
    }
    forall o, o', n | Owns(w', o, n) && Owns(w', o', n) && BeforeEmptied(p, order, o) == BeforeEmptied(p, order, o')
      ensures o == o'
    {
      BeforeInjective(w, w', p, order, o, o', n);
    }
    hide AfterEmptied, BeforeEmptied, IsReleased, Owns, Partition;
    TransferKeepsPartition(w, w', (o: Owner, n: nat) => BeforeEmptied(p, order, o),
                                  (o: Owner, n: nat) => AfterEmptied(p, order, o));
  }

  lemma BeforeInjective(w: World, w': World, p: nat, order: seq<nat>, o: Owner, o': Owner, n: nat)
    requires p in w.procs && Lists(order, w.procs[p].pages) && p in w'.procs && w'.procs[p].pages == map[]
    requires Owns(w', o, n) && Owns(w', o', n) && BeforeEmptied(p, order, o) == BeforeEmptied(p, order, o')
    ensures o == o'
  {
  }

  lemma EmptiedBack(w: World, w': World, p: nat, order: seq<nat>, o: Owner, n: nat)
    requires p in w.procs && ListsAll(order, w.procs[p].pages) && Owns(w', o, n)
    requires IsReleased(w.procs[p].pages, order, w.pm, w'.pm) && w'.kernel == w.kernel
    requires p in w'.procs && w'.procs == w.procs[p := w'.procs[p]]
    requires w'.procs[p].kstack == w.procs[p].kstack && w'.procs[p].pages == map[]
    ensures Owns(w, BeforeEmptied(p, order, o), n)
  {
  }

  lemma EmptiedForth(w: World, w': World, p: nat, order: seq<nat>, o: Owner, n: nat)
    requires p in w.procs && ListsAll(order, w.procs[p].pages) && Owns(w, o, n)
    requires IsReleased(w.procs[p].pages, order, w.pm, w'.pm) && w'.kernel == w.kernel
    requires p in w'.procs && w'.procs == w.procs[p := w'.procs[p]] && w'.procs[p].kstack == w.procs[p].kstack
    ensures Owns(w', AfterEmptied(p, order, o), n)
  {
    match o
    case FreeSlot(i) => assert w'.pm.free[i + |order|] == n;
    case UserPage(q, v) =>
      if q == p {
        assert w'.pm.free[|order| - 1 - IndexIn(order, v)] == n;
      }
    case _ =>
  }

  lemma AsidReleasedKeeps(w: World, p: nat)
    requires Core(w) && p in w.procs
    ensures Core(AsidReleased(w, p))
  {
    assert ProcSound(w.procs[p].(asid := Mmu.ASID_INVALID));
    SameOwners(w, AsidReleased(w, p));
    hide Chained, ProcSound, Partition;
    ReleaseKeepsAsids(w.procs, w.mmu, p);
  }

  lemma ReleaseKeepsAsids(procs: map<nat, Proc>, mmu: Mmu.State, p: nat)
    requires AsidsSound(procs, mmu) && p in procs
    ensures AsidsSound(procs[p := procs[p].(asid := Mmu.ASID_INVALID)], Mmu.AfterRelease(mmu, procs[p].asid))
  {
    var procs', mmu' := procs[p := procs[p].(asid := Mmu.ASID_INVALID)], Mmu.AfterRelease(mmu, procs[p].asid);
    forall a | 0 <= a < Mmu.ASID_MAX && mmu'.usage[a] == Mmu.Used ensures Held(procs', a) {
      var q :| q in procs && procs[q].asid == a;
      assert procs'[q].asid == a;
    }
  }

  /** A process with an identifier of its own, new or old, and no entry that is not its own. */
  lemma DispatchedKeeps(w: World, p: nat)
    requires Core(w) && p in w.procs && !w.procs[p].zombie
    ensures Core(Dispatched(w, p))
    ensures Mmu.AfterSwitch(w.mmu, w.procs[p].asid).Switched? ==> Running(Dispatched(w, p))
  {
    hide Chained, ProcSound, Partition, Mmu.AfterSwitch, Mmu.FreeIsClean;
    SameOwners(w, Dispatched(w, p));
    AnyAsidSound(w.procs[p], Dispatched(w, p).procs[p].asid);
    SwitchKeepsAsids(w.procs, w.mmu, p);
  }

  lemma AnyAsidSound(pr: Proc, a: nat)
    requires ProcSound(pr) && !pr.zombie
    ensures ProcSound(pr.(asid := a))
  {
  }

  lemma SwitchKeepsAsids(procs: map<nat, Proc>, mmu: Mmu.State, p: nat)
    requires AsidsSound(procs, mmu) && p in procs
    ensures var r := Mmu.AfterSwitch(mmu, procs[p].asid);
            r.Switched? ==> && AsidsSound(procs[p := procs[p].(asid := r.asid)], r.state)
                            && r.state.asid == r.asid != Mmu.ASID_INVALID
  {
    Mmu.SwitchIsClean(mmu, procs[p].asid);
    var r := Mmu.AfterSwitch(mmu, procs[p].asid);
    if procs[p].asid != Mmu.ASID_INVALID {
      assert procs[p := procs[p].(asid := r.asid)] == procs;
      assert r.state == mmu.(asid := r.asid);
      RegisterKeepsAsids(procs, mmu, r.asid);
    } else if r.Switched? {
      hide Mmu.AfterSwitch, AsidsSound;
      NewAsidKeeps(procs, mmu, p, r.state, r.asid);
    }
  }

  lemma RegisterKeepsAsids(procs: map<nat, Proc>, mmu: Mmu.State, a: nat)
    requires AsidsSound(procs, mmu)
    ensures AsidsSound(procs, mmu.(asid := a))
  {
  }

  /** An identifier that was nobody's and has no entry in the TLB goes to p. */
  lemma NewAsidKeeps(procs: map<nat, Proc>, mmu: Mmu.State, p: nat, mmu': Mmu.State, a: nat)
    requires AsidsSound(procs, mmu) && p in procs && procs[p].asid == Mmu.ASID_INVALID
    requires Mmu.WellFormed(mmu') && Mmu.FreeIsClean(mmu') && a < Mmu.ASID_MAX
    requires mmu.usage[a] != Mmu.Used && mmu'.usage[a] == Mmu.Used
    requires forall k :: k in mmu'.tlb ==> k.asid != a && k in mmu.tlb && mmu'.tlb[k] == mmu.tlb[k]
    requires forall i :: 0 <= i < Mmu.ASID_MAX && i != a ==> (mmu'.usage[i] == Mmu.Used <==> mmu.usage[i] == Mmu.Used)
    ensures AsidsSound(procs[p := procs[p].(asid := a)], mmu')
  {
    hide Mmu.FreeIsClean;
    var procs' := procs[p := procs[p].(asid := a)];
    forall b | 0 <= b < Mmu.ASID_MAX && mmu'.usage[b] == Mmu.Used ensures Held(procs', b) {
      if b == a {
        assert procs'[p].asid == b;
      } else {
        assert Held(procs, b);
        var q :| q in procs && procs[q].asid == b;
        assert procs'[q].asid == b;
      }
    }
  }

  // ---- faults and stores -------------------------------------------------------------------------

  /** The TLB entry of page v of the running process is loaded. */
  ghost function TlbLoaded(w: World, v: nat, ppn: nat, dropped: set<Mmu.TlbKey>): World {
    w.(mmu := Mmu.LoadEntry(w.mmu, v, ppn, dropped))
  }

  lemma TlbLoadedKeeps(w: World, p: nat, v: nat, dropped: set<Mmu.TlbKey>)
    requires Core(w) && p in w.procs && w.procs[p].asid == w.mmu.asid != Mmu.ASID_INVALID && v in w.procs[p].pages
    ensures Core(TlbLoaded(w, v, w.procs[p].pages[v].ppn, dropped))
  {
    hide Chained, ProcsSound, Partition, AsidsSound;
    SameOwners(w, TlbLoaded(w, v, w.procs[p].pages[v].ppn, dropped));
    EntryKeepsAsids(w.procs, w.mmu, p, v, dropped);
  }

  lemma EntryKeepsAsids(procs: map<nat, Proc>, mmu: Mmu.State, p: nat, v: nat, dropped: set<Mmu.TlbKey>)
    requires AsidsSound(procs, mmu) && p in procs && procs[p].asid == mmu.asid != Mmu.ASID_INVALID
             && v in procs[p].pages
    ensures AsidsSound(procs, Mmu.LoadEntry(mmu, v, procs[p].pages[v].ppn, dropped))
  {
    hide Held;
  }

  /** The missing page v of process p comes in. */
  ghost function Faulted(w: World, p: nat, v: nat): World
    requires p in w.procs && ProcSound(w.procs[p]) && Covered(w.procs[p].areas, v * PAGE_BYTES)
    requires w.pm.free != [] && w.pm.free[0] in w.pm.ram
  {
    var pr := w.procs[p];
    w.(pm := FaultPm(w.pm, AreaAt(pr.areas, v * PAGE_BYTES), v),
       procs := w.procs[p := pr.(pages := FaultPages(pr.pages, w.pm, v))])
  }

  lemma FaultedKeeps(w: World, p: nat, v: nat)
    requires Core(w) && p in w.procs && !w.procs[p].zombie && v !in w.procs[p].pages
    requires Covered(w.procs[p].areas, v * PAGE_BYTES) && w.pm.free != []
    ensures w.pm.free[0] in w.pm.ram && ProcSound(w.procs[p]) && Core(Faulted(w, p, v))
  {
    hide Chained, AsidsSound, Partition, ProcSound, FaultFrame;
    PartitionFacts(w, 0);
    var page := PmPage(w.pm.free[0], true, false);
    PageAddedSound(w.procs[p], v, page);
    TakeKeepsChain(w.pm);
    StoreKeepsChain(Take(w.pm), w.pm.free[0], Faulted(w, p, v).pm.ram[w.pm.free[0]]);
    PageAddedKeepsAsids(w.procs, w.mmu, p, v, page);
    FaultedMoves(w, p, v, Faulted(w, p, v));
  }

  lemma PageAddedSound(pr: Proc, v: nat, page: PmPage)
    requires ProcSound(pr) && !pr.zombie && page.valid
    ensures ProcSound(pr.(pages := pr.pages[v := page]))
  {
  }

  /** The first free page becomes page v of p. */
  ghost predicate FaultMove(w: World, p: nat, v: nat, w': World) {
    && p in w.procs && v !in w.procs[p].pages && w.pm.free != []
    && w'.pm.free == w.pm.free[1..] && w'.pm.ram.Keys == w.pm.ram.Keys && w'.kernel == w.kernel
    && w'.procs == w.procs[p := w.procs[p].(pages := FaultPages(w.procs[p].pages, w.pm, v))]
  }

  ghost function FaultBackOwner(p: nat, v: nat, o: Owner): Owner {
    match o
    case FreeSlot(i) => FreeSlot(i + 1)
    case UserPage(q, u) => if q == p && u == v then FreeSlot(0) else o
    case _ => o
  }

  ghost function FaultForthOwner(p: nat, v: nat, o: Owner): Owner {
    match o
    case FreeSlot(i) => if i == 0 then UserPage(p, v) else FreeSlot(i - 1)
    case _ => o
  }

  lemma FaultedMoves(w: World, p: nat, v: nat, w': World)
    requires Partition(w) && FaultMove(w, p, v, w')
    ensures Partition(w')
  {
    hide Owns, Partition, FaultPages;
    forall o, n | Owns(w', o, n) ensures Owns(w, FaultBackOwner(p, v, o), n) { FaultBack(w, p, v, w', o, n); }
    forall o, n | Owns(w, o, n) ensures Owns(w', FaultForthOwner(p, v, o), n) { FaultForth(w, p, v, w', o, n); }
    TransferKeepsPartition(w, w', (o: Owner, n: nat) => FaultBackOwner(p, v, o),
                           (o: Owner, n: nat) => FaultForthOwner(p, v, o));
  }

  lemma FaultBack(w: World, p: nat, v: nat, w': World, o: Owner, n: nat)
    requires FaultMove(w, p, v, w') && Owns(w', o, n)
    ensures Owns(w, FaultBackOwner(p, v, o), n)
  {
  }

  lemma FaultForth(w: World, p: nat, v: nat, w': World, o: Owner, n: nat)
    requires FaultMove(w, p, v, w') && Owns(w, o, n)
    ensures Owns(w', FaultForthOwner(p, v, o), n)
  {
  }

  /** A page in use is written by its owner. */
  ghost function FrameWritten(w: World, n: nat, f: Frame): World
    requires n in w.pm.ram
  {
    w.(pm := w.pm.(ram := w.pm.ram[n := f]))
  }

  lemma FrameWrittenKeeps(w: World, n: nat, f: Frame)
    requires Core(w) && n in w.pm.ram && n !in w.pm.free
    ensures Core(FrameWritten(w, n, f))
  {
    SameOwners(w, FrameWritten(w, n, f));
    hide Chained, AsidsSound, ProcsSound, Partition;
    StoreKeepsChain(w.pm, n, f);
  }

  // ---- processes come and go ------------------------------------------------------------------------

  /** process_alloc and elfloader_load. */
  ghost function Spawned(w: World, p: nat, areas: seq<Area>): World
    requires w.pm.free != []
  {
    w.(pm := Take(w.pm),
       procs := w.procs[p := Proc(areas, map[], w.pm.free[0], Mmu.ASID_INVALID, false)])
  }

  lemma SpawnedKeeps(w: World, p: nat, areas: seq<Area>)
    requires Core(w) && p !in w.procs && w.pm.free != []
    requires Disjoint(areas) && forall i :: 0 <= i < |areas| ==> Sound(areas[i])
    ensures Core(Spawned(w, p, areas))
  {
    var pr := Proc(areas, map[], w.pm.free[0], Mmu.ASID_INVALID, false);
    assert ProcSound(pr);
    hide Chained, AsidsSound, Partition, ProcSound;
    TakeKeepsChain(w.pm);
    IdleKeepsAsids(w.procs, w.mmu, p, pr);
    SpawnedMoves(w, p, areas);
  }

  lemma SpawnedMoves(w: World, p: nat, areas: seq<Area>)
    requires Partition(w) && p !in w.procs && w.pm.free != []
    ensures Partition(Spawned(w, p, areas))
  {
    hide Owns, Partition;
    var w' := Spawned(w, p, areas);
    forall o, n | Owns(w', o, n) ensures Owns(w, SpawnBackOwner(p, o), n) { SpawnBack(w, p, areas, o, n); }
    forall o, n | Owns(w, o, n) ensures Owns(w', SpawnForthOwner(p, o), n) { SpawnForth(w, p, areas, o, n); }
    TransferKeepsPartition(w, w', (o: Owner, n: nat) => SpawnBackOwner(p, o),
                           (o: Owner, n: nat) => SpawnForthOwner(p, o));
  }

  ghost function SpawnBackOwner(p: nat, o: Owner): Owner {
    match o
    case FreeSlot(i) => FreeSlot(i + 1)
    case KernelStack(q) => if q == p then FreeSlot(0) else o
    case _ => o
  }

  ghost function SpawnForthOwner(p: nat, o: Owner): Owner {
    match o
    case FreeSlot(i) => if i == 0 then KernelStack(p) else FreeSlot(i - 1)
    case _ => o
  }

  lemma SpawnBack(w: World, p: nat, areas: seq<Area>, o: Owner, n: nat)
    requires p !in w.procs && w.pm.free != [] && Owns(Spawned(w, p, areas), o, n)
    ensures Owns(w, SpawnBackOwner(p, o), n)
  {
  }

  lemma SpawnForth(w: World, p: nat, areas: seq<Area>, o: Owner, n: nat)
    requires p !in w.procs && w.pm.free != [] && Owns(w, o, n)
    ensures Owns(Spawned(w, p, areas), SpawnForthOwner(p, o), n)
  {
  }

  /** sys_wait, for one zombie: its kernel stack goes back and the process is freed. */
  ghost function Reaped(w: World, p: nat): World
    requires p in w.procs && w.procs[p].kstack in w.pm.ram
  {
    w.(pm := GiveBack(w.pm, w.procs[p].kstack), procs := w.procs - {p})
  }

  lemma ReapedKeeps(w: World, p: nat)
    requires Core(w) && p in w.procs && w.procs[p].zombie
    ensures w.procs[p].kstack in w.pm.ram && Core(Reaped(w, p))
  {
    PartitionFacts(w, p);
    assert ProcSound(w.procs[p]);
    IdleKeepsAsids(w.procs, w.mmu, p, w.procs[p]);
    ReapedMoves(w, p);
    hide Chained, AsidsSound, Partition, ProcSound;
    GiveBackKeepsChain(w.pm, w.procs[p].kstack);
  }

  lemma ReapedMoves(w: World, p: nat)
    requires Partition(w) && p in w.procs && w.procs[p].pages == map[] && w.procs[p].kstack in w.pm.ram
    ensures Partition(Reaped(w, p))
  {
    hide PhysicalMemory.Linked;
    OneOwner(w, KernelStack(p), w.procs[p].kstack);
    TransferKeepsPartition(w, Reaped(w, p),
      (o: Owner, n: nat) => match o
        case FreeSlot(i) => if i == 0 then KernelStack(p) else FreeSlot(i - 1)
        case _ => o,
      (o: Owner, n: nat) => match o
        case FreeSlot(i) => FreeSlot(i + 1)
        case KernelStack(q) => if q == p then FreeSlot(0) else o
        case _ => o);
  }

  // ---- fork ---------------------------------------------------------------------------------------------

  /** The child of a fork: areas in reverse order, copied pages, a kernel stack. */
  ghost function Forked(w: World, p: nat, child: nat, order: seq<nat>): World
    requires p in w.procs && Managed(w.pm) && |order| < |w.pm.free|
    requires forall k :: 0 <= k < |order| ==>
               order[k] in w.procs[p].pages && w.procs[p].pages[order[k]].ppn in w.pm.ram
  {
    var (pages, pm) := ForkCopy(w.procs[p].pages, order, w.pm);
    w.(pm := Take(pm),
       procs := w.procs[child := Proc(Reverse(w.procs[p].areas), pages, pm.free[0], Mmu.ASID_INVALID, false)])
  }

  lemma ForkedKeeps(w: World, p: nat, child: nat, order: seq<nat>)
    requires Core(w) && p in w.procs && child !in w.procs && ListsAll(order, w.procs[p].pages) && |order| < |w.pm.free|
    ensures Managed(w.pm) && forall k :: 0 <= k < |order| ==> w.procs[p].pages[order[k]].ppn in w.pm.ram
    ensures Core(Forked(w, p, child, order))
  {
    PartitionFacts(w, p);
    var pr := w.procs[p];
    assert ProcSound(pr);
    assert Backed(pr.pages, w.pm);
    hide Chained, AsidsSound, Partition, ProcSound, ForkCopy, Disjoint, Reverse, Backed, Managed, Injective;
    ForkedPartition(w, p, child, order);
    var (pages, pm) := ForkCopy(pr.pages, order, w.pm);
    var ch := Forked(w, p, child, order).procs[child];
    ChildSound(pr, order, w.pm.free, ch);
    TakeKeepsChain(pm);
    IdleKeepsAsids(w.procs, w.mmu, child, ch);
  }

  lemma ForkedPartition(w: World, p: nat, child: nat, order: seq<nat>)
    requires p in w.procs && child !in w.procs && Lists(order, w.procs[p].pages) && |order| < |w.pm.free|
    requires Managed(w.pm) && Chained(w.pm) && Backed(w.procs[p].pages, w.pm) && Partition(w)
    ensures Partition(Forked(w, p, child, order))
    ensures EntriesCopied(w.procs[p].pages, order, w.pm.free, Forked(w, p, child, order).procs[child].pages)
    ensures Chained(ForkCopy(w.procs[p].pages, order, w.pm).1)
  {
    hide Chained, Partition, ForkCopy, FramesCopied, EntriesCopied;
    ForkCopyIsCopy(w.procs[p].pages, order, w.pm);
    var w' := Forked(w, p, child, order);
    assert w.pm.free[|order|..][1..] == w.pm.free[|order| + 1..];
    assert ForkStep(w, p, child, order, w'.procs[child], w');
    hide ForkStep;
    ForkedMoves(w, p, child, order, w'.procs[child], w');
  }

  lemma ChildSound(pr: Proc, order: seq<nat>, free: seq<nat>, ch: Proc)
    requires ProcSound(pr) && EntriesCopied(pr.pages, order, free, ch.pages)
    requires ch.areas == Reverse(pr.areas) && !ch.zombie
    ensures ProcSound(ch)
  {
    hide Sound;
    ReverseDisjoint(pr.areas);
    forall v | v in ch.pages ensures ch.pages[v].valid {
      var k := IndexIn(order, v);
      assert ch.pages[order[k]] == pr.pages[order[k]].(ppn := free[k]);
    }
  }

  ghost function BeforeForked(child: nat, order: seq<nat>, o: Owner): Owner {
    match o
    case FreeSlot(i) => FreeSlot(i + |order| + 1)
    case KernelStack(q) => if q == child then FreeSlot(|order|) else o
    case UserPage(q, v) => if q == child then FreeSlot(IndexIn(order, v)) else o
    case _ => o
  }

  ghost function AfterForked(child: nat, order: seq<nat>, o: Owner): Owner {
    match o
    case FreeSlot(i) =>
      if i < |order| then UserPage(child, order[i])
      else if i == |order| then KernelStack(child) else FreeSlot(i - |order| - 1)
    case _ => o
  }

  /** How a fork changes what pages are owned. */
  ghost predicate ForkStep(w: World, p: nat, child: nat, order: seq<nat>, ch: Proc, w': World) {
    && p in w.procs && child !in w.procs && |order| < |w.pm.free|
    && EntriesCopied(w.procs[p].pages, order, w.pm.free, ch.pages) && ch.kstack == w.pm.free[|order|]
    && w'.pm.free == w.pm.free[|order| + 1..] && w'.kernel == w.kernel && w'.procs == w.procs[child := ch]
  }

  lemma ForkedMoves(w: World, p: nat, child: nat, order: seq<nat>, ch: Proc, w': World)
    requires Partition(w) && NoDuplicates(order) && ForkStep(w, p, child, order, ch, w')
    requires w'.pm.ram.Keys == w.pm.ram.Keys
    ensures Partition(w')
  {
    forall o, n | Owns(w, o, n) ensures Owns(w', AfterForked(child, order, o), n) {
      ForkedForth(w, p, child, order, ch, w', o, n);
    }
    forall o, n | Owns(w', o, n) ensures Owns(w, BeforeForked(child, order, o), n) {
      ForkedBack(w, p, child, order, ch, w', o, n);
    }
    forall o, o', n | Owns(w', o, n) && Owns(w', o', n)
                      && BeforeForked(child, order, o) == BeforeForked(child, order, o')
      ensures o == o'
    {
      ForkedInjective(w, p, child, order, ch, w', o, o', n);
    }
    hide AfterForked, BeforeForked, Owns, Partition, EntriesCopied;
    TransferKeepsPartition(w, w', (o: Owner, n: nat) => BeforeForked(child, order, o),
                                  (o: Owner, n: nat) => AfterForked(child, order, o));
  }

  lemma ForkedForth(w: World, p: nat, child: nat, order: seq<nat>, ch: Proc, w': World, o: Owner, n: nat)
    requires ForkStep(w, p, child, order, ch, w') && Owns(w, o, n)
    ensures Owns(w', AfterForked(child, order, o), n)
  {
    if o.FreeSlot? && o.i < |order| {
      assert order[o.i] in ch.pages && ch.pages[order[o.i]].ppn == n;
    }
  }

  lemma ForkedBack(w: World, p: nat, child: nat, order: seq<nat>, ch: Proc, w': World, o: Owner, n: nat)
    requires ForkStep(w, p, child, order, ch, w') && Owns(w', o, n)
    ensures Owns(w, BeforeForked(child, order, o), n)
  {
    if o.UserPage? && o.pid == child {
      var k := IndexIn(order, o.vpn);
      assert ch.pages[order[k]].ppn == w.pm.free[k];
    }
  }

  lemma ForkedInjective(w: World, p: nat, child: nat, order: seq<nat>, ch: Proc, w': World, o: Owner, o': Owner, n: nat)
    requires ForkStep(w, p, child, order, ch, w') && Owns(w', o, n) && Owns(w', o', n)
    requires BeforeForked(child, order, o) == BeforeForked(child, order, o')
    ensures o == o'
  {
    if o.UserPage? && o.pid == child {
      assert IndexIn(order, o.vpn) < |order| && order[IndexIn(order, o.vpn)] == o.vpn;
    }
    if o'.UserPage? && o'.pid == child {
      assert IndexIn(order, o'.vpn) < |order| && order[IndexIn(order, o'.vpn)] == o'.vpn;
    }
  }
}
