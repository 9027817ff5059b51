/** What the processes see. The specification machine loads every segment at once, copies whole
    images at fork and knows no frames, free lists, page tables or TLB; the kernel refines it. */
module EagerImage {
  import opened Arch
  import opened PhysicalMemory
  import opened PageDirs
  import opened Areas
  import opened Paging
  import opened World
  import opened KernelRuns
  import Mmu

  /** The memory of one process by page number. */
  type Image = map<nat, Frame>

  // ---- the eager machine ------------------------------------------------------------------

  ghost predicate FileBacked(areas: seq<Area>, v: nat) {
    Covered(areas, v * PAGE_BYTES) && AreaAt(areas, v * PAGE_BYTES).Mapped?
  }

  /** All segments of a program, loaded at once. */
  ghost function Loaded(areas: seq<Area>): Image
    requires forall i :: 0 <= i < |areas| ==> Sound(areas[i])
  {
    map v | 0 <= v < VPN_LIMIT && FileBacked(areas, v) ::
      SegmentPage(AreaAt(areas, v * PAGE_BYTES), v * PAGE_BYTES - AreaAt(areas, v * PAGE_BYTES).addr)
  }

  /** Argument pages, below the top of the stack. */
  ghost function ArgImage(args: seq<Frame>): Image
    requires |args| <= ARG_MAX_PAGES
  {
    map v: nat | v < STACK_VPN && IsArgPage(|args|, v) :: args[STACK_VPN - 1 - v]
  }

  ghost predicate IsArgPage(n: nat, v: nat) {
    STACK_VPN - n <= v < STACK_VPN
  }

  /** Process p has frame f as its page v. */
  ghost function SetPage(images: map<nat, Image>, p: nat, v: nat, f: Frame): map<nat, Image>
    requires p in images
  {
    var img: Image := images[p][v := f];
    images[p := img]
  }

  datatype Spec = Spec(images: map<nat, Image>, current: nat)

  ghost predicate SpecEnabled(a: Spec, s: Step) {
    match s
    case Spawn(_, areas) => AreasSound(areas)
    case Miss(_, _) => a.current in a.images
    case StoreByte(v, offset, _) => a.current in a.images && v in a.images[a.current] && offset < PAGE_BYTES
    case Fork(_, _) => a.current in a.images
    case Exec(areas, args, _) => AreasSound(areas) && |args| <= ARG_MAX_PAGES
    case _ => true
  }

  /** One step; junk is what a page of anonymous memory holds when it is first touched. */
  ghost function SpecNext(a: Spec, s: Step, junk: Frame): Spec
    requires SpecEnabled(a, s)
  {
    match s
    case Spawn(p, areas) => a.(images := a.images[p := Loaded(areas)])
    case Dispatch(p) => a.(current := p)
    case Idle => a.(current := 0)
    case Miss(v, _) =>
      if v in a.images[a.current] then a
      else a.(images := SetPage(a.images, a.current, v, junk))
    case StoreByte(v, offset, value) =>
      a.(images := SetPage(a.images, a.current, v, a.images[a.current][v][offset := value]))
    case Fork(child, _) => a.(images := a.images[child := a.images[a.current]])
    case Exit(_) => var none: Image := map[]; a.(images := a.images[a.current := none])
    case Reap(p) => a.(images := a.images - {p})
    case Exec(areas, args, _) => a.(images := a.images[a.current := Loaded(areas) + ArgImage(args)])
    case _ => a
  }

  // ---- what the kernel's state stands for --------------------------------------------------------

  ghost predicate FramesIn(pages: PageMap, ram: map<nat, Frame>) {
    forall v :: v in pages ==> pages[v].ppn in ram
  }

  /** Present pages are in their frames; the pages of segments that are not present are as in the file. */
  ghost function ImageOf(pr: Proc, ram: map<nat, Frame>): Image
    requires ProcSound(pr) && FramesIn(pr.pages, ram)
  {
    Loaded(pr.areas) + map v | v in pr.pages :: ram[pr.pages[v].ppn]
  }

  lemma AllFramesIn(w: World)
    requires Core(w)
    ensures forall p :: p in w.procs ==> ProcSound(w.procs[p]) && FramesIn(w.procs[p].pages, w.pm.ram)
  {
    forall p | p in w.procs ensures FramesIn(w.procs[p].pages, w.pm.ram) {
      PartitionFacts(w, p);
    }
  }

  ghost function Abs(w: World): Spec
    requires Core(w)
  {
    AllFramesIn(w);
    Spec(map p | p in w.procs :: ImageOf(w.procs[p], w.pm.ram), w.current)
  }

  // ---- steps that leave a process alone --------------------------------------------------------------

  lemma SameImage(pr: Proc, pr': Proc, ram: map<nat, Frame>, ram': map<nat, Frame>)
    requires ProcSound(pr) && FramesIn(pr.pages, ram) && ProcSound(pr') && FramesIn(pr'.pages, ram')
    requires pr'.areas == pr.areas && pr'.pages == pr.pages
    requires forall v :: v in pr.pages ==> ram'[pr.pages[v].ppn] == ram[pr.pages[v].ppn]
    ensures ImageOf(pr', ram') == ImageOf(pr, ram)
  {
    assert (map v | v in pr.pages :: ram'[pr.pages[v].ppn]) == (map v | v in pr.pages :: ram[pr.pages[v].ppn]);
  }

  /** The frames of process q are the same in both states. */
  ghost predicate Untouched(w: World, w': World, q: nat)
    requires q in w.procs && q in w'.procs
  {
    && w'.procs[q].areas == w.procs[q].areas && w'.procs[q].pages == w.procs[q].pages
    && forall v :: v in w.procs[q].pages
                   && w.procs[q].pages[v].ppn in w.pm.ram && w.procs[q].pages[v].ppn in w'.pm.ram ==>
         w'.pm.ram[w.procs[q].pages[v].ppn] == w.pm.ram[w.procs[q].pages[v].ppn]
  }

  lemma UntouchedImage(w: World, w': World, q: nat)
    requires Core(w) && Core(w') && q in w.procs && q in w'.procs && Untouched(w, w', q)
    ensures q in Abs(w).images && q in Abs(w').images && Abs(w').images[q] == Abs(w).images[q]
  {
    AllFramesIn(w);
    AllFramesIn(w');
    hide ProcSound, Core, ImageOf;
    SameImage(w.procs[q], w'.procs[q], w.pm.ram, w'.pm.ram);
  }

  lemma AbsAt(w: World, p: nat)
    requires Core(w)
    ensures Abs(w).images.Keys == w.procs.Keys && Abs(w).current == w.current
    ensures p in w.procs ==> ProcSound(w.procs[p]) && FramesIn(w.procs[p].pages, w.pm.ram)
    ensures p in w.procs ==> Abs(w).images[p] == ImageOf(w.procs[p], w.pm.ram)
  {
    AllFramesIn(w);
    hide ImageOf, ProcSound;
  }

  /** Page tables, areas and frames in use as before. */
  lemma KeepsImages(w: World, w': World)
    requires Core(w) && Core(w') && w'.procs.Keys == w.procs.Keys
    requires forall q :: q in w.procs ==> Untouched(w, w', q)
    ensures Abs(w').images == Abs(w).images
  {
    hide Core, Abs, Untouched;
    AbsAt(w, 0);
    AbsAt(w', 0);
    forall q | q in w.procs ensures Abs(w').images[q] == Abs(w).images[q] {
      UntouchedImage(w, w', q);
    }
  }

  lemma OneChanged(a: map<nat, Image>, b: map<nat, Image>, p: nat)
    requires b.Keys == a.Keys + {p}
    requires forall q :: q in a && q != p ==> b[q] == a[q]
    ensures b == a[p := b[p]]
  {
  }

  lemma OneGone(a: map<nat, Image>, b: map<nat, Image>, p: nat)
    requires b.Keys == a.Keys - {p}
    requires forall q :: q in b ==> b[q] == a[q]
    ensures b == a - {p}
  {
  }

  /** One process changed, or is new; the others see what they saw. */
  lemma OneImage(w: World, w': World, p: nat)
    requires Core(w) && Core(w') && w'.procs.Keys == w.procs.Keys + {p}
    requires forall q :: q in w.procs && q != p ==> Untouched(w, w', q)
    ensures ProcSound(w'.procs[p]) && FramesIn(w'.procs[p].pages, w'.pm.ram)
    ensures Abs(w').images == Abs(w).images[p := ImageOf(w'.procs[p], w'.pm.ram)]
  {
    AbsAt(w', p);
    hide Core, Abs, Untouched, ImageOf, ProcSound;
    AbsAt(w, p);
    forall q | q in w.procs && q != p ensures Abs(w').images[q] == Abs(w).images[q] {
      UntouchedImage(w, w', q);
    }
    OneChanged(Abs(w).images, Abs(w').images, p);
  }

  // ---- images of one process -------------------------------------------------------------------------

  lemma NoPagesImage(pr: Proc, ram: map<nat, Frame>)
    requires ProcSound(pr) && pr.pages == map[]
    ensures ImageOf(pr, ram) == Loaded(pr.areas)
  {
    hide ProcSound, Loaded;
  }

  /** What a page of a segment holds before it was ever touched. */
  lemma LoadedPage(areas: seq<Area>, v: nat)
    requires (forall i :: 0 <= i < |areas| ==> Sound(areas[i])) && Covered(areas, v * PAGE_BYTES)
    ensures FileBacked(areas, v) <==> v in Loaded(areas)
    ensures FileBacked(areas, v) ==> Loaded(areas)[v] == FaultFrame(AreaAt(areas, v * PAGE_BYTES), v, Zeros(PAGE_BYTES))
  {
    hide SegmentPage;
    assert v < VPN_LIMIT;
  }

  lemma PageAddedImage(pr: Proc, ram: map<nat, Frame>, v: nat, page: PmPage, f: Frame)
    requires ProcSound(pr) && FramesIn(pr.pages, ram) && page.valid && page.ppn in ram
    requires forall u :: u in pr.pages && u != v ==> pr.pages[u].ppn != page.ppn
    requires !pr.zombie
    ensures var pr', ram' := pr.(pages := pr.pages[v := page]), ram[page.ppn := f];
      ProcSound(pr') && FramesIn(pr'.pages, ram') && ImageOf(pr', ram') == ImageOf(pr, ram)[v := f]
  {
    hide Loaded, Sound, Disjoint;
  }

  /** A child sees what its parent sees. */
  lemma ForkedImage(pr: Proc, ch: Proc, order: seq<nat>, pm: Pm, pm': Pm)
    requires ProcSound(pr) && FramesIn(pr.pages, pm.ram) && ProcSound(ch) && FramesIn(ch.pages, pm'.ram)
    requires ch.areas == Reverse(pr.areas) && ListsAll(order, pr.pages)
    requires EntriesCopied(pr.pages, order, pm.free, ch.pages) && FramesCopied(pr.pages, order, pm, pm')
    ensures ImageOf(ch, pm'.ram) == ImageOf(pr, pm.ram)
  {
    ReverseLoaded(pr.areas);
    hide ProcSound, Loaded;
    forall v | v in pr.pages
      ensures v in ch.pages && pm'.ram[ch.pages[v].ppn] == pm.ram[pr.pages[v].ppn]
    {
      var k := IndexIn(order, v);
      assert order[k] == v;
    }
    forall v | v in ch.pages ensures v in pr.pages {
      var k := IndexIn(order, v);
      assert order[k] == v;
    }
    hide EntriesCopied, FramesCopied, ListsAll;
    SameMap(map v | v in pr.pages :: pm.ram[pr.pages[v].ppn], map v | v in ch.pages :: pm'.ram[ch.pages[v].ppn]);
  }

  lemma ReverseSound(areas: seq<Area>)
    requires forall i :: 0 <= i < |areas| ==> Sound(areas[i])
    ensures forall i :: 0 <= i < |areas| ==> Sound(Reverse(areas)[i])
  {
    hide Sound;
  }

  lemma SameMap(a: Image, b: Image)
    requires forall v: nat :: v in a <==> v in b
    requires forall v: nat :: v in a ==> a[v] == b[v]
    ensures a == b
  {
  }

  lemma ReverseLoaded(areas: seq<Area>)
    requires Disjoint(areas) && forall i :: 0 <= i < |areas| ==> Sound(areas[i])
    ensures forall i :: 0 <= i < |areas| ==> Sound(Reverse(areas)[i])
    ensures Loaded(Reverse(areas)) == Loaded(areas)
  {
    hide Sound, Disjoint, Loaded, Reverse;
    ReverseSound(areas);
    forall v: nat
      ensures v in Loaded(Reverse(areas)) <==> v in Loaded(areas)
      ensures v in Loaded(areas) ==> Loaded(Reverse(areas))[v] == Loaded(areas)[v]
    {
      ReverseLoadedAt(areas, v);
    }
    SameMap(Loaded(Reverse(areas)), Loaded(areas));
  }

  lemma ReverseLoadedAt(areas: seq<Area>, v: nat)
    requires Disjoint(areas) && forall i :: 0 <= i < |areas| ==> Sound(areas[i])
    requires forall i :: 0 <= i < |areas| ==> Sound(Reverse(areas)[i])
    ensures v in Loaded(Reverse(areas)) <==> v in Loaded(areas)
    ensures v in Loaded(areas) ==> Loaded(Reverse(areas))[v] == Loaded(areas)[v]
  {
    hide Sound, Disjoint, Loaded, Covered, AreaAt, SegmentPage, Reverse;
    ReverseFind(areas, v * PAGE_BYTES);
    LoadedAt(areas, v);
    LoadedAt(Reverse(areas), v);
  }

  lemma LoadedAt(areas: seq<Area>, v: nat)
    requires forall i :: 0 <= i < |areas| ==> Sound(areas[i])
    ensures v in Loaded(areas) <==> v < VPN_LIMIT && FileBacked(areas, v)
    ensures v in Loaded(areas) ==>
      var a := AreaAt(areas, v * PAGE_BYTES);
      Sound(a) && Loaded(areas)[v] == SegmentPage(a, v * PAGE_BYTES - a.addr)
  {
    hide SegmentPage, Sound;
  }

  // ---- the steps, one by one ----------------------------------------------------------------------------

  lemma SimSpawn(w: World, p: nat, areas: seq<Area>)
    requires Core(w) && p !in w.procs && w.pm.free != [] && AreasSound(areas)
    ensures Core(Spawned(w, p, areas)) && Abs(Spawned(w, p, areas)).images == Abs(w).images[p := Loaded(areas)]
  {
    hide Core, Abs, Loaded, Sound, Disjoint, ImageOf, ProcSound;
    SpawnedKeeps(w, p, areas);
    var w' := Spawned(w, p, areas);
    OneImage(w, w', p);
    NoPagesImage(w'.procs[p], w'.pm.ram);
  }

  lemma SimDispatch(w: World, p: nat)
    requires Core(w) && Mmu.WellFormed(w.mmu) && p in w.procs && Core(Dispatched(w, p))
    ensures Abs(Dispatched(w, p)).images == Abs(w).images
  {
    hide Core, Abs, Mmu.AfterSwitch;
    KeepsImages(w, Dispatched(w, p));
  }

  lemma SimTlb(w: World, w': World)
    requires Core(w) && Core(w') && w'.pm == w.pm && w'.procs == w.procs
    ensures Abs(w').images == Abs(w).images
  {
    hide Core, Abs;
    KeepsImages(w, w');
  }

  lemma SameEntry(a: Image, v: nat)
    requires v in a
    ensures a[v := a[v]] == a
  {
  }

  /** The image of a process after a fault: the page of the segment was there all along; a page of
      anonymous memory is new. */
  lemma FaultImage(pr: Proc, pm: Pm, v: nat)
    requires ProcSound(pr) && FramesIn(pr.pages, pm.ram) && !pr.zombie && v !in pr.pages
    requires Covered(pr.areas, v * PAGE_BYTES) && pm.free != [] && pm.free[0] in pm.ram
    requires forall u :: u in pr.pages ==> pr.pages[u].ppn != pm.free[0]
    ensures var pr', pm' := pr.(pages := FaultPages(pr.pages, pm, v)), FaultPm(pm, AreaAt(pr.areas, v * PAGE_BYTES), v);
      && ProcSound(pr') && FramesIn(pr'.pages, pm'.ram)
      && ImageOf(pr', pm'.ram) == if v in ImageOf(pr, pm.ram) then ImageOf(pr, pm.ram)
                                  else ImageOf(pr, pm.ram)[v := pm.ram[pm.free[0]]]
  {
    LoadedPage(pr.areas, v);
    var f := FaultFrame(AreaAt(pr.areas, v * PAGE_BYTES), v, pm.ram[pm.free[0]]);
    hide Sound, Disjoint, SegmentPage, Loaded;
    PageAddedImage(pr, pm.ram, v, PmPage(pm.free[0], true, false), f);
    hide ProcSound, AreaAt, Covered;
    if FileBacked(pr.areas, v) {
      assert ImageOf(pr, pm.ram)[v] == f;
      hide ImageOf;
      SameEntry(ImageOf(pr, pm.ram), v);
    }
  }

  lemma OwnFrames(w: World, p: nat)
    requires Core(w) && p in w.procs
    ensures forall v :: v in w.procs[p].pages ==>
              w.procs[p].pages[v].ppn in w.pm.ram && w.procs[p].pages[v].ppn !in w.pm.free
    ensures Backed(w.procs[p].pages, w.pm) && Managed(w.pm) && Chained(w.pm)
    ensures Injective(w.procs[p].pages)
    ensures w.procs[p].kstack in w.pm.ram && w.procs[p].kstack !in w.pm.free
  {
    PartitionFacts(w, p);
    assert ProcSound(w.procs[p]);
  }

  /** A fault brings in the page the eager image already has, or new memory. */
  lemma SimFault(w: World, p: nat, v: nat)
    requires Core(w) && p in w.procs && !w.procs[p].zombie && v !in w.procs[p].pages
    requires Covered(w.procs[p].areas, v * PAGE_BYTES) && w.pm.free != []
    ensures w.pm.free[0] in w.pm.ram && ProcSound(w.procs[p]) && Core(Faulted(w, p, v)) && p in Abs(w).images
    ensures Abs(Faulted(w, p, v)).images ==
      if v in Abs(w).images[p] then Abs(w).images
      else SetPage(Abs(w).images, p, v, w.pm.ram[w.pm.free[0]])
  {
    hide Core, Abs, Untouched, ProcSound, ImageOf, Chained, Backed, Managed, Injective;
    FaultedKeeps(w, p, v);
    FaultedOthers(w, p, v);
    OwnFrames(w, p);
    AbsAt(w, p);
    OneImage(w, Faulted(w, p, v), p);
    FaultImage(w.procs[p], w.pm, v);
    if v in Abs(w).images[p] {
      assert Abs(w).images[p := Abs(w).images[p]] == Abs(w).images;
    }
  }

  lemma FaultedOthers(w: World, p: nat, v: nat)
    requires Core(w) && p in w.procs && ProcSound(w.procs[p]) && Covered(w.procs[p].areas, v * PAGE_BYTES)
    requires w.pm.free != [] && w.pm.free[0] in w.pm.ram
    ensures forall q :: q in w.procs && q != p ==> Untouched(w, Faulted(w, p, v), q)
  {
    hide FaultFrame;
    forall q | q in w.procs && q != p ensures Untouched(w, Faulted(w, p, v), q) {
      PartitionFacts(w, q);
    }
  }

  lemma StoreImage(pr: Proc, ram: map<nat, Frame>, v: nat, f: Frame)
    requires ProcSound(pr) && FramesIn(pr.pages, ram) && v in pr.pages && Injective(pr.pages)
    ensures FramesIn(pr.pages, ram[pr.pages[v].ppn := f])
    ensures v in ImageOf(pr, ram) && ImageOf(pr, ram)[v] == ram[pr.pages[v].ppn]
    ensures ImageOf(pr, ram[pr.pages[v].ppn := f]) == ImageOf(pr, ram)[v := f]
  {
    hide Loaded, Sound, Disjoint;
    PageAddedImage(pr, ram, v, pr.pages[v], f);
    assert pr.pages[v := pr.pages[v]] == pr.pages;
    assert pr.(pages := pr.pages) == pr;
  }

  lemma StoreOthers(w: World, p: nat, v: nat, f: Frame)
    requires Core(w) && p in w.procs && v in w.procs[p].pages && w.procs[p].pages[v].ppn in w.pm.ram
    ensures forall q :: q in w.procs && q != p ==> Untouched(w, FrameWritten(w, w.procs[p].pages[v].ppn, f), q)
  {
    OneOwner(w, UserPage(p, v), w.procs[p].pages[v].ppn);
  }

  lemma SimStore(w: World, p: nat, v: nat, f: Frame)
    requires Core(w) && p in w.procs && v in w.procs[p].pages
    ensures w.procs[p].pages[v].ppn in w.pm.ram && w.procs[p].pages[v].ppn !in w.pm.free
    ensures var w' := FrameWritten(w, w.procs[p].pages[v].ppn, f);
      && Core(w') && p in Abs(w).images && v in Abs(w).images[p]
      && Abs(w).images[p][v] == w.pm.ram[w.procs[p].pages[v].ppn]
      && Abs(w').images == SetPage(Abs(w).images, p, v, f)
  {
    hide Core, Abs, Untouched, ProcSound, ImageOf, Chained, Backed, Managed, Injective;
    OwnFrames(w, p);
    var n := w.procs[p].pages[v].ppn;
    FrameWrittenKeeps(w, n, f);
    StoreOthers(w, p, v, f);
    AbsAt(w, p);
    OneImage(w, FrameWritten(w, n, f), p);
    StoreImage(w.procs[p], w.pm.ram, v, f);
  }

  lemma SimFork(w: World, p: nat, child: nat, order: seq<nat>)
    requires Core(w) && p in w.procs && child !in w.procs && ListsAll(order, w.procs[p].pages) && |order| < |w.pm.free|
    ensures Managed(w.pm) && (forall k :: 0 <= k < |order| ==> w.procs[p].pages[order[k]].ppn in w.pm.ram)
    ensures Core(Forked(w, p, child, order)) && p in Abs(w).images
    ensures Abs(Forked(w, p, child, order)).images == Abs(w).images[child := Abs(w).images[p]]
  {
    hide Core, Abs, Untouched, ProcSound, ImageOf, Chained, Backed, Managed, Injective, ForkCopy, FramesCopied,
         EntriesCopied;
    OwnFrames(w, p);
    ForkedKeeps(w, p, child, order);
    AbsAt(w, p);
    var pr, w' := w.procs[p], Forked(w, p, child, order);
    ForkCopyIsCopy(pr.pages, order, w.pm);
    var pm := ForkCopy(pr.pages, order, w.pm).1;
    FramesElsewhere(pr.pages, order, w.pm, pm);
    ForkedOthers(w, order, w');
    OneImage(w, w', child);
    ForkedImage(pr, w'.procs[child], order, w.pm, pm);
  }

  lemma FramesElsewhere(pages: PageMap, order: seq<nat>, pm: Pm, pm': Pm)
    requires FramesCopied(pages, order, pm, pm')
    ensures |order| <= |pm.free| && pm'.ram.Keys == pm.ram.Keys
    ensures forall n :: n in pm.ram && (forall k :: 0 <= k < |order| ==> pm.free[k] != n) ==> pm'.ram[n] == pm.ram[n]
  {
  }

  lemma ForkedOthers(w: World, order: seq<nat>, w': World)
    requires Core(w) && |order| <= |w.pm.free|
    requires w'.pm.ram.Keys == w.pm.ram.Keys
    requires forall q :: q in w.procs ==> q in w'.procs && w'.procs[q] == w.procs[q]
    requires forall n :: n in w.pm.ram && (forall k :: 0 <= k < |order| ==> w.pm.free[k] != n) ==>
               w'.pm.ram[n] == w.pm.ram[n]
    ensures forall q :: q in w.procs ==> Untouched(w, w', q)
  {
    forall q | q in w.procs ensures Untouched(w, w', q) {
      PartitionFacts(w, q);
    }
  }

  // Teardown: other processes keep their frames.

  lemma EmptiedOthers(w: World, p: nat, order: seq<nat>, areas: seq<Area>, zombie: bool)
    requires Core(w) && p in w.procs && ListsAll(order, w.procs[p].pages)
    requires forall k :: 0 <= k < |order| ==> w.procs[p].pages[order[k]].ppn in w.pm.ram
    ensures var w' := Emptied(w, p, order, areas, zombie);
      && (forall q :: q in w.procs && q != p ==> Untouched(w, w', q))
      && (forall n :: n in w.pm.ram && (forall v :: v in w.procs[p].pages ==> w.procs[p].pages[v].ppn != n) ==>
            w'.pm.ram[n] == w.pm.ram[n])
  {
    OwnFrames(w, p);
    var pr, w' := w.procs[p], Emptied(w, p, order, areas, zombie);
    hide Teardown, Chained, AsidsSound, ProcsSound, IsReleased, ListsAll, Backed, Managed, Injective;
    TeardownReleases(pr.pages, order, w.pm);
    ReleasedElsewhere(pr.pages, order, w.pm, w'.pm);
    hide Partition;
    forall q | q in w.procs && q != p ensures Untouched(w, w', q) {
      OtherFrames(w, p, q);
    }
  }

  lemma OtherFrames(w: World, p: nat, q: nat)
    requires Partition(w) && p in w.procs && q in w.procs && p != q
    ensures forall u, v :: u in w.procs[p].pages && v in w.procs[q].pages ==>
              w.procs[p].pages[u].ppn != w.procs[q].pages[v].ppn
  {
    forall v | v in w.procs[q].pages { OneOwner(w, UserPage(q, v), w.procs[q].pages[v].ppn); }
  }

  lemma ReleasedElsewhere(pages: PageMap, order: seq<nat>, pm: Pm, pm': Pm)
    requires IsReleased(pages, order, pm, pm')
    ensures pm'.ram.Keys == pm.ram.Keys
    ensures forall n :: n in pm.ram && (forall v :: v in pages ==> pages[v].ppn != n) ==> pm'.ram[n] == pm.ram[n]
  {
  }

  lemma SimExit(w: World, order: seq<nat>)
    requires Core(w) && Enabled(w, Exit(order))
    ensures Core(ExitStep(w, order))
    ensures var none: Image := map[]; Abs(ExitStep(w, order)).images == Abs(w).images[w.current := none]
  {
    hide Core, Abs, Untouched, Teardown, Loaded, ImageOf, ListsAll, Mmu.AfterRelease, Mmu.WellFormed;
    var p := w.current;
    CoreMmu(w);
    AsidReleasedKeeps(w, p);
    var e := AsidReleased(w, p);
    EmptiedKeeps(e, p, order, [], true);
    ExitKeeps(w, order);
    EmptiedOthers(e, p, order, [], true);
    SimAsid(w, p);
    var w' := ExitStep(w, order);
    OneImage(e, w', p);
    EmptyImage(w'.procs[p], w'.pm.ram);
  }

  lemma EmptyImage(pr: Proc, ram: map<nat, Frame>)
    requires ProcSound(pr) && pr.pages == map[] && pr.areas == []
    ensures ImageOf(pr, ram) == map[]
  {
  }

  lemma SimAsid(w: World, p: nat)
    requires Core(w) && Mmu.WellFormed(w.mmu) && p in w.procs && Core(AsidReleased(w, p))
    ensures Abs(AsidReleased(w, p)).images == Abs(w).images
  {
    hide Core, Abs;
    KeepsImages(w, AsidReleased(w, p));
  }

  /** A frame that no page table maps can change. */
  lemma SimElsewhere(w: World, w': World, n: nat)
    requires Core(w) && Core(w') && w'.procs == w.procs && w'.pm.ram.Keys == w.pm.ram.Keys
    requires forall m :: m in w.pm.ram && m != n ==> w'.pm.ram[m] == w.pm.ram[m]
    requires forall q, v :: q in w.procs && v in w.procs[q].pages ==> w.procs[q].pages[v].ppn != n
    ensures Abs(w').images == Abs(w).images
  {
    hide Core, Abs;
    KeepsImages(w, w');
  }

  lemma FreeIsNoPage(w: World)
    requires Core(w) && w.pm.free != []
    ensures w.pm.free[0] in w.pm.ram
    ensures forall q, v :: q in w.procs && v in w.procs[q].pages ==> w.procs[q].pages[v].ppn != w.pm.free[0]
  {
    OneOwner(w, FreeSlot(0), w.pm.free[0]);
  }

  lemma SimTake(w: World, f: Frame)
    requires Core(w) && w.pm.free != []
    ensures Core(TakeKernel(w, f)) && Abs(TakeKernel(w, f)).images == Abs(w).images
  {
    hide Core, Abs;
    TakeKernelKeeps(w, f);
    FreeIsNoPage(w);
    SimElsewhere(w, TakeKernel(w, f), w.pm.free[0]);
  }

  lemma SimGive(w: World, n: nat)
    requires Core(w) && n in w.kernel
    ensures n in w.pm.ram && Core(GiveKernel(w, n)) && Abs(GiveKernel(w, n)).images == Abs(w).images
  {
    CoreParts(w);
    hide Core, Abs, PhysicalMemory.Linked;
    GiveKernelKeeps(w, n);
    KernelOwnedFacts(w, n);
    SimElsewhere(w, GiveKernel(w, n), n);
  }

  lemma SimWrite(w: World, n: nat, f: Frame)
    requires Core(w) && KernelOwned(w, n)
    ensures n in w.pm.ram && Core(FrameWritten(w, n, f)) && Abs(FrameWritten(w, n, f)).images == Abs(w).images
  {
    CoreParts(w);
    hide Core, Abs;
    KernelOwnedFacts(w, n);
    FrameWrittenKeeps(w, n, f);
    SimElsewhere(w, FrameWritten(w, n, f), n);
  }

  lemma SimReap(w: World, p: nat)
    requires Core(w) && p in w.procs && w.procs[p].zombie
    ensures w.procs[p].kstack in w.pm.ram && Core(Reaped(w, p)) && Abs(Reaped(w, p)).images == Abs(w).images - {p}
  {
    CoreParts(w);
    hide Core, Abs, PhysicalMemory.Linked, Untouched;
    ReapedKeeps(w, p);
    var w' := Reaped(w, p);
    ReapedOthers(w, p);
    AbsAt(w, 0);
    AbsAt(w', 0);
    forall q | q in w'.procs ensures Abs(w').images[q] == Abs(w).images[q] {
      UntouchedImage(w, w', q);
    }
    OneGone(Abs(w).images, Abs(w').images, p);
  }

  lemma ReapedOthers(w: World, p: nat)
    requires Core(w) && p in w.procs && w.procs[p].kstack in w.pm.ram
    ensures forall q :: q in w.procs && q != p ==> Untouched(w, Reaped(w, p), q)
  {
    hide PhysicalMemory.Linked;
    OneOwner(w, KernelStack(p), w.procs[p].kstack);
  }

  // ---- exec --------------------------------------------------------------------------------------------

  lemma {:induction false} SimArgs(w: World, args: seq<Frame>)
    requires Core(w) && |args| <= |w.pm.free|
    ensures Core(TakeArgs(w, args)) && Abs(TakeArgs(w, args)).images == Abs(w).images
  {
    hide Core, Abs;
    TakeArgsKeeps(w, args);
    if args != [] {
      var n := |args| - 1;
      SimArgs(w, args[..n]);
      SimTake(TakeArgs(w, args[..n]), args[n]);
    }
  }

  lemma {:induction false} ArgFrames(w: World, args: seq<Frame>)
    requires Managed(w.pm) && |args| <= |w.pm.free|
    ensures forall i :: 0 <= i < |args| ==>
              w.pm.free[i] in TakeArgs(w, args).pm.ram && TakeArgs(w, args).pm.ram[w.pm.free[i]] == args[i]
  {
    if args != [] {
      var n := |args| - 1;
      ArgFrames(w, args[..n]);
      var mid := TakeArgs(w, args[..n]);
      assert mid.pm.free[0] == w.pm.free[n];
    }
  }

  lemma ArgPagesImage(pr: Proc, ram: map<nat, Frame>, ppns: seq<nat>, args: seq<Frame>)
    requires ProcSound(pr) && FramesIn(pr.pages, ram) && |args| == |ppns| <= ARG_MAX_PAGES
    requires forall v :: v in pr.pages <==> STACK_VPN - |ppns| <= v < STACK_VPN
    requires forall i :: 0 <= i < |ppns| ==>
               pr.pages[ArgVpn(i)].ppn == ppns[i] && ppns[i] in ram && ram[ppns[i]] == args[i]
    ensures ImageOf(pr, ram) == Loaded(pr.areas) + ArgImage(args)
  {
    hide ProcSound, Loaded;
    var a := map v | v in pr.pages :: ram[pr.pages[v].ppn];
    forall v: nat
      ensures v in a <==> v in ArgImage(args)
      ensures v in a ==> a[v] == ArgImage(args)[v]
    {
      if v in pr.pages {
        assert ArgVpn(STACK_VPN - 1 - v) == v;
      }
    }
    SameMap(a, ArgImage(args));
  }

  lemma SimMapArgs(w: World, p: nat, ppns: seq<nat>, args: seq<Frame>)
    requires Core(w) && p in w.procs && !w.procs[p].zombie && w.procs[p].pages == map[]
    requires |args| == |ppns| <= ARG_MAX_PAGES
    requires (forall i :: 0 <= i < |ppns| ==> ppns[i] in w.kernel) && NoDuplicates(ppns)
    requires forall i :: 0 <= i < |ppns| ==> ppns[i] in w.pm.ram && w.pm.ram[ppns[i]] == args[i]
    ensures Core(MapArgs(w, p, ppns)) && ProcSound(w.procs[p])
    ensures Abs(MapArgs(w, p, ppns)).images == Abs(w).images[p := Loaded(w.procs[p].areas) + ArgImage(args)]
  {
    hide Core, Abs, ImageOf, ProcSound, Loaded, ArgImage, ArgPages;
    MapArgsKeeps(w, p, ppns);
    AbsAt(w, p);
    AbsAt(MapArgs(w, p, ppns), p);
    var w' := MapArgs(w, p, ppns);
    OneImage(w, w', p);
    ArgPagesImage(w'.procs[p], w'.pm.ram, ppns, args);
  }

  /** After the old pages are gone the process sees its new segments; the saved arguments are intact. */
  lemma SimCleared(w: World, areas: seq<Area>, args: seq<Frame>, order: seq<nat>)
    requires Core(w) && CanExec(w, areas, args, order)
    ensures var e3 := ExecCleared(w, areas, args, order);
      && Core(e3) && Abs(e3).images == Abs(w).images[w.current := Loaded(areas)]
      && forall i :: 0 <= i < |args| ==> w.pm.free[i] in e3.pm.ram && e3.pm.ram[w.pm.free[i]] == args[i]
  {
    var p := w.current;
    ListsSame(order, w.procs[p].pages, areas);
    hide Core, Abs, Loaded, ListsAll, AreasSound, Emptied, AsidReleased, TakeArgs;
    OwnManaged(w);
    SimArgs(w, args);
    ArgFrames(w, args);
    TakeArgsKeeps(w, args);
    var e1 := TakeArgs(w, args);
    ArgsNotPages(w, args, p);
    CoreMmu(e1);
    SimReleased(e1, p, order, areas);
  }

  lemma OwnManaged(w: World)
    requires Core(w)
    ensures Managed(w.pm)
  {
    PartitionFacts(w, 0);
  }

  /** Identifier and pages are released; frames that were not mapped keep their contents. */
  lemma SimReleased(w: World, p: nat, order: seq<nat>, areas: seq<Area>)
    requires Core(w) && Mmu.WellFormed(w.mmu) && p in w.procs && ListsAll(order, w.procs[p].pages) && AreasSound(areas)
    ensures var e2 := AsidReleased(w, p);
      && (forall k :: 0 <= k < |order| ==> e2.procs[p].pages[order[k]].ppn in e2.pm.ram)
      && var e3 := Emptied(e2, p, order, areas, false);
      && Core(e3) && Abs(e3).images == Abs(w).images[p := Loaded(areas)]
      && forall n :: n in w.pm.ram && (forall v :: v in w.procs[p].pages ==> w.procs[p].pages[v].ppn != n) ==>
           n in e3.pm.ram && e3.pm.ram[n] == w.pm.ram[n]
  {
    ListsSame(order, w.procs[p].pages, areas);
    hide Core, Abs, Loaded, ImageOf, Untouched, Teardown, ListsAll, AreasSound, ProcSound;
    AsidReleasedKeeps(w, p);
    var e2 := AsidReleased(w, p);
    SimAsid(w, p);
    EmptiedKeeps(e2, p, order, areas, false);
    EmptiedOthers(e2, p, order, areas, false);
    var e3 := Emptied(e2, p, order, areas, false);
    OneImage(e2, e3, p);
    NoPagesImage(e3.procs[p], e3.pm.ram);
  }

  lemma ArgsNotPages(w: World, args: seq<Frame>, p: nat)
    requires Core(w) && p in w.procs && |args| <= |w.pm.free|
    ensures forall i, v :: 0 <= i < |args| && v in w.procs[p].pages ==> w.procs[p].pages[v].ppn != w.pm.free[i]
  {
    PartitionFacts(w, p);
  }

  lemma SimExec(w: World, areas: seq<Area>, args: seq<Frame>, order: seq<nat>)
    requires Core(w) && CanExec(w, areas, args, order)
    ensures Core(Executed(w, areas, args, order))
    ensures Abs(Executed(w, areas, args, order)).images == Abs(w).images[w.current := Loaded(areas) + ArgImage(args)]
  {
    hide Core, Abs, Loaded, AreasSound, ListsAll, ArgImage, ExecBuilt;
    SimBuilt(w, areas, args, order);
    ExecNotZombie(w, areas, args, order);
    var e6 := ExecBuilt(w, areas, args, order);
    CoreMmu(e6);
    DispatchedKeeps(e6, w.current);
    SimDispatch(e6, w.current);
  }

  lemma SimBuilt(w: World, areas: seq<Area>, args: seq<Frame>, order: seq<nat>)
    requires Core(w) && CanExec(w, areas, args, order)
    ensures Abs(ExecBuilt(w, areas, args, order)).images == Abs(w).images[w.current := Loaded(areas) + ArgImage(args)]
  {
    hide Core, Abs, Loaded, ImageOf, AreasSound, ListsAll, ArgImage, ExecCleared, ArgPages;
    var p, n := w.current, |args|;
    ExecClearedShape(w, areas, args, order);
    SimCleared(w, areas, args, order);
    var e3 := ExecCleared(w, areas, args, order);
    NewStackKeeps(e3, p);
    var e4 := NewStack(e3, p);
    SimNewStack(e3, p);
    ArgPagesHeld(w, args, e4);
    SimMapArgs(e4, p, w.pm.free[..n], args);
    var e5 := MapArgs(e4, p, w.pm.free[..n]);
    OldStackHeld(w, args, e4);
    SimGive(e5, w.procs[p].kstack);
  }

  lemma SimNewStack(w: World, p: nat)
    requires Core(w) && p in w.procs && w.pm.free != [] && Core(NewStack(w, p))
    ensures Abs(NewStack(w, p)).images == Abs(w).images
  {
    hide Core, Abs;
    KeepsImages(w, NewStack(w, p));
  }

  // ---- the refinement ------------------------------------------------------------------------------------

  /** What a page of anonymous memory happens to hold when it is first touched. */
  ghost function Junk(w: World, s: Step): Frame {
    if w.pm.free != [] && w.pm.free[0] in w.pm.ram then w.pm.ram[w.pm.free[0]] else Zeros(PAGE_BYTES)
  }

  /** Every step of the kernel is the step of the eager machine, seen through Abs. */
  lemma Simulates(w: World, s: Step)
    requires Inv(w) && Enabled(w, s)
    ensures Core(Next(w, s)) && SpecEnabled(Abs(w), s)
    ensures Abs(Next(w, s)) == SpecNext(Abs(w), s, Junk(w, s))
  {
    NextKeepsCore(w, s);
    SimEnabled(w, s);
    hide Inv, Core, Abs, SpecEnabled;
    SimImages(w, s);
    SimCurrent(w, s);
  }

  lemma SimEnabled(w: World, s: Step)
    requires Inv(w) && Enabled(w, s)
    ensures SpecEnabled(Abs(w), s)
  {
    hide Core, Abs, AreasSound, ListsAll, Running, Loaded, ProcSound;
    AbsAt(w, w.current);
    if s.StoreByte? { TlbHitIsMapped(w, s.vpn); }
  }

  lemma SimCurrent(w: World, s: Step)
    requires Inv(w) && Enabled(w, s) && Core(Next(w, s)) && SpecEnabled(Abs(w), s)
    ensures Abs(Next(w, s)).current == SpecNext(Abs(w), s, Junk(w, s)).current
  {
    AbsAt(w, 0);
    AbsAt(Next(w, s), 0);
    NextCurrent(w, s);
    hide Inv, Core, Abs, SpecEnabled, Enabled, Next, SpecNext;
    SpecCurrent(Abs(w), s, Junk(w, s));
  }

  lemma SpecCurrent(a: Spec, s: Step, junk: Frame)
    requires SpecEnabled(a, s)
    ensures SpecNext(a, s, junk).current == if s.Dispatch? then s.pid else if s.Idle? then 0 else a.current
  {
  }

  lemma SimImages(w: World, s: Step)
    requires Inv(w) && Enabled(w, s) && Core(Next(w, s)) && SpecEnabled(Abs(w), s)
    ensures Abs(Next(w, s)).images == SpecNext(Abs(w), s, Junk(w, s)).images
  {
    hide Core, Abs, Loaded, ArgImage, AreasSound, ListsAll, Running, SetPage, MissStep, StoreStep, ExitStep, Executed,
         Forked, Dispatched;
    AbsAt(w, 0);
    var p := w.current;
    match s
    case Spawn(q, areas) => SimSpawn(w, q, areas);
    case Dispatch(q) =>
      CoreMmu(w);
      SimDispatch(w, q);
    case Idle => SimTlb(w, Next(w, s));
    case Miss(v, dropped) => SimMiss(w, v, dropped);
    case StoreByte(v, offset, value) => SimStoreByte(w, v, offset, value);
    case Fork(child, order) => SimFork(w, p, child, order);
    case Exit(order) => SimExit(w, order);
    case Reap(q) => SimReap(w, q);
    case Exec(areas, args, order) => SimExec(w, areas, args, order);
    case KernelTake(f) => SimTake(w, f);
    case KernelGive(n) => SimGive(w, n);
    case KernelWrite(n, f) => SimWrite(w, n, f);
  }

  lemma SimStoreByte(w: World, v: nat, offset: nat, value: Byte)
    requires Inv(w) && Enabled(w, StoreByte(v, offset, value)) && SpecEnabled(Abs(w), StoreByte(v, offset, value))
    requires Core(StoreStep(w, v, offset, value))
    ensures Abs(StoreStep(w, v, offset, value)).images ==
            SetPage(Abs(w).images, w.current, v, Abs(w).images[w.current][v][offset := value])
  {
    AbsAt(w, 0);
    hide Core, Abs;
    TlbHitIsMapped(w, v);
    SimStore(w, w.current, v, w.pm.ram[w.procs[w.current].pages[v].ppn][offset := value]);
  }

  lemma SimMiss(w: World, v: nat, dropped: set<Mmu.TlbKey>)
    requires Inv(w) && Enabled(w, Miss(v, dropped))
    ensures Core(MissStep(w, v, dropped)) && w.current in Abs(w).images
    ensures Abs(MissStep(w, v, dropped)).images ==
      if v in Abs(w).images[w.current] then Abs(w).images
      else SetPage(Abs(w).images, w.current, v, Junk(w, Miss(v, dropped)))
  {
    var p := w.current;
    AbsAt(w, p);
    MissKeeps(w, v, dropped);
    hide Core, Abs, Loaded;
    if v in w.procs[p].pages {
      SimTlb(w, MissStep(w, v, dropped));
    } else {
      hide ImageOf;
      SimFault(w, p, v);
      SimTlb(Faulted(w, p, v), MissStep(w, v, dropped));
    }
  }

  /** A user load that hits the TLB reads the byte of the eager image. */
  lemma LoadSeesImage(w: World, v: nat)
    requires Inv(w) && Runs(w) && Mmu.TlbKey(w.mmu.asid, v) in w.mmu.tlb
    ensures w.mmu.tlb[Mmu.TlbKey(w.mmu.asid, v)] in w.pm.ram
    ensures w.current in Abs(w).images && v in Abs(w).images[w.current]
    ensures w.pm.ram[w.mmu.tlb[Mmu.TlbKey(w.mmu.asid, v)]] == Abs(w).images[w.current][v]
  {
    TlbHitIsMapped(w, v);
    AbsAt(w, w.current);
    hide Loaded, ProcSound, Core;
  }

  /** a' can come from a by these steps of the eager machine. */
  ghost predicate SpecRuns(a: Spec, steps: seq<Step>, a': Spec)
    decreases |steps|
  {
    if steps == [] then a == a'
    else SpecEnabled(a, steps[0]) && exists junk :: SpecRuns(SpecNext(a, steps[0], junk), steps[1..], a')
  }

  /** Over every run, in any order of faults, forks, stores, exits and execs, the processes see what
      they would see if every segment had been loaded at once and every image copied whole. */
  lemma {:induction false} RunRefinesEager(w: World, steps: seq<Step>)
    requires Inv(w) && CanRun(w, steps)
    ensures Core(Run(w, steps)) && SpecRuns(Abs(w), steps, Abs(Run(w, steps)))
    decreases |steps|
  {
    RunKeepsInv(w, steps);
    if steps != [] {
      NextKeepsInv(w, steps[0]);
      Simulates(w, steps[0]);
      hide Inv, Enabled, Next, Abs, SpecNext, Core;
      RunRefinesEager(Next(w, steps[0]), steps[1..]);
      var junk := Junk(w, steps[0]);
      assert SpecRuns(SpecNext(Abs(w), steps[0], junk), steps[1..], Abs(Run(w, steps)));
    }
  }

  // ---- isolation -------------------------------------------------------------------------------------------

  /** The steps that create or remove process q. */
  ghost predicate About(s: Step, q: nat) {
    match s
    case Spawn(p, _) => p == q
    case Fork(child, _) => child == q
    case Reap(p) => p == q
    case _ => false
  }

  lemma SpecIsolates(a: Spec, s: Step, junk: Frame, q: nat)
    requires SpecEnabled(a, s) && q in a.images && q != a.current && !About(s, q)
    ensures q in SpecNext(a, s, junk).images && SpecNext(a, s, junk).images[q] == a.images[q]
  {
    hide Loaded, ArgImage;
  }

  /** Process q never runs, and is neither created nor removed, in this run. */
  ghost predicate Sleeps(w: World, steps: seq<Step>, q: nat)
    requires Inv(w) && CanRun(w, steps)
    decreases |steps|
  {
    steps == [] ||
    (w.current != q && !About(steps[0], q) && (NextKeepsInv(w, steps[0]); Sleeps(Next(w, steps[0]), steps[1..], q)))
  }

  /** Whatever other processes do, fork relatives included, a process that does not run keeps its image. */
  lemma {:induction false} RunIsolates(w: World, steps: seq<Step>, q: nat)
    requires Inv(w) && CanRun(w, steps) && Sleeps(w, steps, q) && q in w.procs
    ensures Core(Run(w, steps)) && q in Abs(w).images && q in Abs(Run(w, steps)).images
    ensures Abs(Run(w, steps)).images[q] == Abs(w).images[q]
    decreases |steps|
  {
    RunKeepsInv(w, steps);
    AbsAt(w, q);
    if steps != [] {
      NextKeepsInv(w, steps[0]);
      Simulates(w, steps[0]);
      SpecIsolates(Abs(w), steps[0], Junk(w, steps[0]), q);
      AbsAt(Next(w, steps[0]), q);
      hide Inv, Enabled, Next, Abs, SpecNext, Core, About, ImageOf, ProcSound;
      RunIsolates(Next(w, steps[0]), steps[1..], q);
    }
  }
}
