/** exec from the program file on (sys_execve in sys/process.c with elfloader_load in
    loader/elfloader/loader.c): when it keeps the kernel sound, and what the new program finds in its
    memory. */
module ExecRuns {
  import opened Arch
  import opened Areas
  import opened Elf
  import opened Paging
  import opened World
  import opened KernelRuns
  import opened EagerImage
  import opened Loader
  import ArgLayout
  import Mmu
  import Smem

  // ---- one exec ---------------------------------------------------------------------------------

  /** What exec takes for granted in a file: its segments, and that it needs no shared library. */
  ghost predicate Plausible(f: Smem.File) {
    Smem.WellFormed(f) && AllTrusted(f, HeadersOf(f)) && Static(HeadersOf(f))
  }

  /** The caller is alive and memory does not run out. */
  ghost predicate ReadyToExec(w: World, args: seq<Frame>, order: seq<nat>) {
    && w.current in w.procs && !w.procs[w.current].zombie && ListsAll(order, w.procs[w.current].pages)
    && |args| <= ARG_MAX_PAGES && |args| <= |w.pm.free| && |args| < |w.pm.free| + |order|
  }

  ghost predicate CanExecFile(w: World, f: Smem.File, args: seq<Frame>, order: seq<nat>) {
    Plausible(f) && ReadyToExec(w, args, order)
  }

  /** The areas of a file, loaded or not, are what the kernel relies on. */
  lemma FileAreasSound(f: Smem.File)
    requires Smem.WellFormed(f) && AllTrusted(f, HeadersOf(f))
    ensures AreasSound(AreasOf(f))
  {
    hide AreasAfter, Progress, Disjoint, Smem.Content, Smem.WellFormed, HeadersOf, LoadsAll;
    NoAreas(f, HeadersOf(f));
    AreasSoundUpTo(f, HeadersOf(f), Progress(f, HeadersOf(f), 0, []));
    assert Sound(USER_STACK);
  }

  /** sys_execve of the file: how far the program headers can be read and mapped decides what elfloader_load
      does, and it reports success in either case. */
  ghost function ExecFile(w: World, f: Smem.File, args: seq<Frame>, order: seq<nat>): World
    requires Core(w) && CanExecFile(w, f, args, order)
  {
    FileAreasSound(f);
    if LoadsAll(f) then Executed(w, AreasOf(f), args, order) else ExecFailed(w, AreasOf(f), args, order)
  }

  /** exec keeps one owner per page exactly when the ELF header is accepted, every program header is in the
      file, every segment is page-aligned and no two overlap. When it does not, the kernel stack of the
      running process is also the first free page. */
  lemma ExecPartitionExact(w: World, f: Smem.File, args: seq<Frame>, order: seq<nat>)
    requires Core(w) && CanExecFile(w, f, args, order)
    ensures var r, c, hs := ExecFile(w, f, args, order), Smem.Content(f), HeadersOf(f);
            && (Partition(r) <==>
                  && HeaderOk(c) && (forall i :: 0 <= i < Count(c) ==> Readable(c, i))
                  && Aligned(hs) && Disjoint(AreasAfter(f, hs, |hs|, [])))
            && (!Partition(r) ==> w.current in r.procs && r.pm.free != [] && r.procs[w.current].kstack == r.pm.free[0])
  {
    hide Core, ExecFailed, Executed, Partition, Owns, AreasSound, AreasOf, AreasAfter, Progress, ListsAll;
    hide Smem.Content, Smem.WellFormed, HeaderOk, Readable, Count, Aligned, Disjoint, HeadersOf, LoadsAll;
    FileAreasSound(f);
    LoadableExact(f);
    if LoadsAll(f) {
      CorePartition(Executed(w, AreasOf(f), args, order));
    } else {
      FailedSharesStack(w, AreasOf(f), args, order);
      StackNotFree(ExecFailed(w, AreasOf(f), args, order), w.current);
    }
  }

  // ---- files it fails on ------------------------------------------------------------------------------

  /** Any file whose ELF header is not accepted, whatever follows. */
  lemma NoProgramFails(w: World, f: Smem.File, args: seq<Frame>, order: seq<nat>)
    requires Core(w) && CanExecFile(w, f, args, order) && !HeaderOk(Smem.Content(f))
    ensures !Partition(ExecFile(w, f, args, order)) && AreasOf(f) == []
  {
    hide Core, ExecFile, Partition, ListsAll, CanExecFile, HeaderOk, Smem.Content, Smem.WellFormed;
    TrustedFile(w, f, args, order);
    ExecPartitionExact(w, f, args, order);
    NoHeaders(Smem.Content(f));
  }

  /** A program without segments in which one letter of the magic is wrong. */
  const WRONG_MAGIC: seq<Byte> := FileBytes([])[3 := 0x47]

  lemma WrongMagicFails(w: World, args: seq<Frame>, order: seq<nat>)
    requires Core(w) && ReadyToExec(w, args, order)
    ensures var f := Smem.OnePiece(WRONG_MAGIC);
            CanExecFile(w, f, args, order) && !Partition(ExecFile(w, f, args, order))
  {
    hide Core, ExecFile, Partition, ReadyToExec, Smem.Content, Smem.WellFormed, Smem.OnePiece, FileBytes;
    var f := Smem.OnePiece(WRONG_MAGIC);
    Smem.OnePieceContent(WRONG_MAGIC);
    assert WRONG_MAGIC[..EHDR_BYTES][3] == 0x47;
    NoHeaders(WRONG_MAGIC);
    NoProgramFails(w, f, args, order);
  }

  /** A file that ends one byte before its only program header does. */
  const CUT: seq<Byte> := FileBytes([Header(TYPE_LOAD, 0, 0, 0, 0, 0)])[..EHDR_BYTES + PHDR_BYTES - 1]

  lemma CutFileFails(w: World, args: seq<Frame>, order: seq<nat>)
    requires Core(w) && ReadyToExec(w, args, order)
    ensures var f := Smem.OnePiece(CUT);
            CanExecFile(w, f, args, order) && !Partition(ExecFile(w, f, args, order))
  {
    hide Core, ExecFile, Partition, ReadyToExec, Smem.Content, Smem.WellFormed, Smem.OnePiece, FileBytes, Headers;
    Smem.OnePieceContent(CUT);
    CutShort();
    ExecPartitionExact(w, Smem.OnePiece(CUT), args, order);
  }

  lemma CutShort()
    ensures HeaderOk(CUT) && Count(CUT) == 1 && !Readable(CUT, 0) && Headers(CUT) == []
  {
    hide GoodHeader, HeaderBytes, EntriesBytes, Headers, PhOff, PhNum;
    assert CUT[..EHDR_BYTES] == HeaderBytes(1);
    HeaderRoundTrip(1);
    HeadersExact(CUT);
  }

  /** A program whose only segment, even an empty one, starts at address 1. */
  const UNALIGNED: seq<Header> := [Header(TYPE_LOAD, 0, 1, 1, 0, 0)]

  lemma UnalignedFileFails(w: World, args: seq<Frame>, order: seq<nat>)
    requires Core(w) && ReadyToExec(w, args, order)
    ensures var f := Smem.OnePiece(FileBytes(UNALIGNED));
            CanExecFile(w, f, args, order) && !Partition(ExecFile(w, f, args, order))
  {
    hide Core, ExecFile, Partition, AreasAfter, ReadyToExec, Smem.Content, Smem.WellFormed, Smem.OnePiece, FileBytes;
    hide HeadersOf, HeaderOk, Readable, Count;
    WrittenFile(UNALIGNED);
    ExecPartitionExact(w, Smem.OnePiece(FileBytes(UNALIGNED)), args, order);
    assert UNALIGNED[0].IsLoad() && UNALIGNED[0].vaddr % PAGE_BYTES != 0;
  }

  /** A program that maps the same page twice. */
  const TWICE: seq<Header> := [Header(TYPE_LOAD, 0, 1024, 0, 0, 1024), Header(TYPE_LOAD, 0, 1024, 0, 0, 1024)]

  lemma OverlappingFileFails(w: World, args: seq<Frame>, order: seq<nat>)
    requires Core(w) && ReadyToExec(w, args, order)
    ensures var f := Smem.OnePiece(FileBytes(TWICE));
            CanExecFile(w, f, args, order) && !Partition(ExecFile(w, f, args, order))
  {
    hide Core, ExecFile, Partition, ReadyToExec, Smem.Content, Smem.WellFormed, Smem.OnePiece, FileBytes;
    hide HeadersOf, HeaderOk, Readable, Count;
    WrittenFile(TWICE);
    var f := Smem.OnePiece(FileBytes(TWICE));
    ExecPartitionExact(w, f, args, order);
    var areas := AreasAfter(f, TWICE, 2, []);
    NoneYet(f, TWICE, []);
    AreasStep(f, TWICE, 0, []);
    AreasStep(f, TWICE, 1, []);
    assert areas == [AreaOf(f, TWICE[1])] + ([AreaOf(f, TWICE[0])] + []);
    assert Overlaps(areas[0], areas[1].addr, areas[1].size);
  }

  lemma WrittenFile(hs: seq<Header>)
    requires Writable(hs)
    ensures var f := Smem.OnePiece(FileBytes(hs));
            Smem.WellFormed(f) && Complete(Smem.Content(f)) && HeadersOf(f) == hs
  {
    hide Smem.Content, Smem.WellFormed, Smem.OnePiece, FileBytes, Headers;
    Smem.OnePieceContent(FileBytes(hs));
    FileRoundTrip(hs, []);
    assert FileBytes(hs) + [] == FileBytes(hs);
  }

  // ---- runs ----------------------------------------------------------------------------------------

  /** A step of the kernel, exec with its file. */
  datatype FileStep = Plain(step: Step) | Program(f: Smem.File, args: seq<Frame>, order: seq<nat>)

  ghost predicate Loads(s: FileStep) {
    s.Program? ==> Smem.WellFormed(s.f) && Loadable(s.f)
  }

  ghost predicate EnabledFile(w: World, s: FileStep) {
    match s
    case Plain(step) => !step.Exec? && Enabled(w, step)
    case Program(f, args, order) => CanExecFile(w, f, args, order)
  }

  ghost function NextFile(w: World, s: FileStep): World
    requires Inv(w) && EnabledFile(w, s)
  {
    match s
    case Plain(step) => Next(w, step)
    case Program(f, args, order) => ExecFile(w, f, args, order)
  }

  /** The step of the kernel a file step is, if its file loads. */
  ghost function AsStep(s: FileStep): Step
    requires Loads(s)
  {
    match s
    case Plain(step) => step
    case Program(f, args, order) => Exec(AreasOf(f), args, order)
  }

  lemma NextFileIsStep(w: World, s: FileStep)
    requires Inv(w) && EnabledFile(w, s) && Loads(s)
    ensures Enabled(w, AsStep(s)) && NextFile(w, s) == Next(w, AsStep(s)) && Inv(NextFile(w, s))
  {
    hide Core, Running, Executed, ExecFailed, AreasSound, AreasOf, AreasAfter, Progress, Aligned, Disjoint, ListsAll;
    match s {
      case Plain(step) => NextKeepsInv(w, step);
      case Program(f, args, order) =>
        FileAreasSound(f);
        LoadableExact(f);
        NextKeepsInv(w, AsStep(s));
    }
  }

  ghost predicate CanRunFiles(w: World, steps: seq<FileStep>)
    requires Inv(w)
    decreases |steps|
  {
    steps == [] ||
    (EnabledFile(w, steps[0]) &&
     (Loads(steps[0]) ==> (NextFileIsStep(w, steps[0]); CanRunFiles(NextFile(w, steps[0]), steps[1..]))))
  }

  /** The state after the steps, or after the first exec of a file that does not load. */
  ghost function RunFiles(w: World, steps: seq<FileStep>): World
    requires Inv(w) && CanRunFiles(w, steps)
    decreases |steps|
  {
    if steps == [] then w
    else if !Loads(steps[0]) then NextFile(w, steps[0])
    else
      NextFileIsStep(w, steps[0]);
      RunFiles(NextFile(w, steps[0]), steps[1..])
  }

  ghost predicate AllLoad(steps: seq<FileStep>) { forall i :: 0 <= i < |steps| ==> Loads(steps[i]) }

  ghost function AsSteps(steps: seq<FileStep>): seq<Step>
    requires AllLoad(steps)
  {
    if steps == [] then [] else [AsStep(steps[0])] + AsSteps(steps[1..])
  }

  /** Over every run, each page keeps one owner exactly when every file that is executed is one the loader
      accepts. */
  lemma {:induction false} RunPartitionExact(w: World, steps: seq<FileStep>)
    requires Inv(w) && CanRunFiles(w, steps)
    ensures Partition(RunFiles(w, steps)) <==> AllLoad(steps)
    ensures AllLoad(steps) ==> Inv(RunFiles(w, steps))
    decreases |steps|
  {
    hide Inv, EnabledFile, Loads, NextFile, Partition;
    if steps == [] {
      InvPartition(w);
    } else if !Loads(steps[0]) {
      FailedStep(w, steps[0]);
    } else {
      NextFileIsStep(w, steps[0]);
      RunPartitionExact(NextFile(w, steps[0]), steps[1..]);
      assert forall i :: 0 <= i < |steps| - 1 ==> steps[1..][i] == steps[i + 1];
      assert AllLoad(steps) <==> AllLoad(steps[1..]) by {
        if AllLoad(steps[1..]) {
          forall i | 0 <= i < |steps| ensures Loads(steps[i]) {
            if i > 0 { assert steps[i] == steps[1..][i - 1]; }
          }
        }
      }
    }
  }

  lemma InvPartition(w: World)
    requires Inv(w)
    ensures Partition(w)
  {
  }

  lemma FailedStep(w: World, s: FileStep)
    requires Inv(w) && EnabledFile(w, s) && !Loads(s)
    ensures !Partition(NextFile(w, s))
  {
    hide Core, ExecFile, Partition, AreasAfter, ListsAll, Running, CanExecFile;
    hide Smem.Content, Smem.WellFormed, HeaderOk, Readable, Count, Aligned, Disjoint, HeadersOf;
    TrustedFile(w, s.f, s.args, s.order);
    ExecPartitionExact(w, s.f, s.args, s.order);
  }

  /** As long as the files load, these are the runs of the kernel, and what is proved of those holds. */
  lemma {:induction false} FileRunsAreRuns(w: World, steps: seq<FileStep>)
    requires Inv(w) && CanRunFiles(w, steps) && AllLoad(steps)
    ensures CanRun(w, AsSteps(steps)) && RunFiles(w, steps) == Run(w, AsSteps(steps))
    decreases |steps|
  {
    hide Inv, EnabledFile, Loads, NextFile, Enabled, Next, AsStep;
    if steps != [] {
      assert Loads(steps[0]);
      assert AllLoad(steps[1..]) by {
        forall i | 0 <= i < |steps| - 1 ensures Loads(steps[1..][i]) { assert steps[1..][i] == steps[i + 1]; }
      }
      NextFileIsStep(w, steps[0]);
      FileRunsAreRuns(NextFile(w, steps[0]), steps[1..]);
      assert AsSteps(steps)[1..] == AsSteps(steps[1..]);
    }
  }

  /** In particular the processes see what the eager machine shows them. */
  lemma FileRunsRefineEager(w: World, steps: seq<FileStep>)
    requires Inv(w) && CanRunFiles(w, steps) && AllLoad(steps)
    ensures Inv(RunFiles(w, steps)) && SpecRuns(Abs(w), AsSteps(steps), Abs(RunFiles(w, steps)))
  {
    hide Core, Running, Abs, CanRun, Run, CanRunFiles, RunFiles, AllLoad, SpecRuns;
    RunPartitionExact(w, steps);
    FileRunsAreRuns(w, steps);
    RunRefinesEager(w, AsSteps(steps));
  }

  // ---- what the new program reads -----------------------------------------------------------------

  /** The byte at an address of an image. */
  ghost predicate HoldsByte(img: Image, x: nat, b: int) {
    x / PAGE_BYTES in img && img[x / PAGE_BYTES][x % PAGE_BYTES] == b
  }

  /** The step may change page v of process p: a store to it, or the end of its image. */
  ghost predicate Touches(s: Step, current: nat, p: nat, v: nat) {
    match s
    case Spawn(q, _) => q == p
    case Fork(q, _) => q == p
    case Reap(q) => q == p
    case StoreByte(u, _, _) => current == p && u == v
    case Exit(_) => current == p
    case Exec(_, _, _) => current == p
    case _ => false
  }

  lemma SpecKeepsPage(a: Spec, s: Step, junk: Frame, p: nat, v: nat)
    requires SpecEnabled(a, s) && p in a.images && v in a.images[p] && !Touches(s, a.current, p, v)
    ensures var b := SpecNext(a, s, junk); p in b.images && v in b.images[p] && b.images[p][v] == a.images[p][v]
  {
    hide Loaded, ArgImage;
  }

  /** The run does not touch page v of process p. */
  ghost predicate Leaves(w: World, steps: seq<Step>, p: nat, v: nat)
    requires Inv(w) && CanRun(w, steps)
    decreases |steps|
  {
    steps == [] ||
    (!Touches(steps[0], w.current, p, v) && (NextKeepsInv(w, steps[0]); Leaves(Next(w, steps[0]), steps[1..], p, v)))
  }

  lemma {:induction false} RunKeepsPage(w: World, steps: seq<Step>, p: nat, v: nat)
    requires Inv(w) && CanRun(w, steps) && Leaves(w, steps, p, v)
    requires p in Abs(w).images && v in Abs(w).images[p]
    ensures Inv(Run(w, steps))
    ensures var b := Abs(Run(w, steps)); p in b.images && v in b.images[p] && b.images[p][v] == Abs(w).images[p][v]
    decreases |steps|
  {
    hide Enabled, Next, Abs, SpecNext, SpecEnabled, Core, Running, Touches;
    RunKeepsInv(w, steps);
    if steps != [] {
      NextKeepsInv(w, steps[0]);
      Simulates(w, steps[0]);
      AbsCurrent(w);
      SpecKeepsPage(Abs(w), steps[0], Junk(w, steps[0]), p, v);
      RunKeepsPage(Next(w, steps[0]), steps[1..], p, v);
    }
  }

  lemma AbsCurrent(w: World)
    requires Core(w)
    ensures Abs(w).current == w.current
  {
  }

  /** What an image holds is what the process reads, however its pages get into the TLB, as long as the
      page is not touched. */
  lemma HitReads(w: World, steps: seq<Step>, x: nat, b: int)
    requires Inv(w) && w.current in Abs(w).images && HoldsByte(Abs(w).images[w.current], x, b)
    requires CanRun(w, steps) && Leaves(w, steps, w.current, x / PAGE_BYTES)
    requires var w' := Run(w, steps);
             w'.current == w.current && Runs(w') && Mmu.TlbKey(w'.mmu.asid, x / PAGE_BYTES) in w'.mmu.tlb
    ensures var w' := Run(w, steps);
            var ppn := w'.mmu.tlb[Mmu.TlbKey(w'.mmu.asid, x / PAGE_BYTES)];
            ppn in w'.pm.ram && w'.pm.ram[ppn][x % PAGE_BYTES] == b
  {
    hide Run, CanRun, Leaves, Abs, Core, Running;
    RunKeepsPage(w, steps, w.current, x / PAGE_BYTES);
    LoadSeesImage(Run(w, steps), x / PAGE_BYTES);
  }

  // ---- segments --------------------------------------------------------------------------------------

  /** The stack in front hides no segment. */
  lemma StackHidesNothing(segments: seq<Area>)
    requires Disjoint([USER_STACK] + segments) && Disjoint(segments)
    requires forall i :: 0 <= i < |segments| ==> Sound(segments[i])
    ensures forall i :: 0 <= i < |segments| + 1 ==> Sound(([USER_STACK] + segments)[i])
    ensures Loaded([USER_STACK] + segments) == Loaded(segments)
  {
    hide SegmentPage, Smem.Content, Smem.WellFormed, Disjoint, AreaAt, Covered, Loaded, Sound;
    assert Sound(USER_STACK) by { StackSound(); }
    var all := [USER_STACK] + segments;
    assert forall i :: 0 < i < |all| ==> all[i] == segments[i - 1];
    forall v: nat
      ensures v in Loaded(all) <==> v in Loaded(segments)
      ensures v in Loaded(all) ==> Loaded(all)[v] == Loaded(segments)[v]
    {
      FindInFront(USER_STACK, segments, v * PAGE_BYTES);
      if Covered(segments, v * PAGE_BYTES) { StackApart(segments, v * PAGE_BYTES); }
      LoadedAt(all, v);
      LoadedAt(segments, v);
    }
    SameMap(Loaded(all), Loaded(segments));
  }

  lemma StackSound()
    ensures Sound(USER_STACK)
  {
  }

  lemma StackApart(segments: seq<Area>, x: nat)
    requires Disjoint([USER_STACK] + segments) && Covered(segments, x)
    ensures !Contains(USER_STACK, x)
  {
    var i :| 0 <= i < |segments| && Contains(segments[i], x);
    assert ([USER_STACK] + segments)[1 + i] == segments[i] && ([USER_STACK] + segments)[0] == USER_STACK;
    assert !Overlaps(USER_STACK, segments[i].addr, segments[i].size);
  }

  /** All segments of a program, as areas. */
  ghost function SegmentsOf(f: Smem.File): seq<Area>
    requires Smem.WellFormed(f)
  {
    AreasAfter(f, HeadersOf(f), |HeadersOf(f)|, [])
  }

  /** The byte the eager load puts at an address, -1 if none. */
  ghost function FileByte(f: Smem.File, x: nat): int
    requires Smem.WellFormed(f) && AllTrusted(f, HeadersOf(f))
  {
    EagerByte(f, HeadersOf(f), Virtual, |HeadersOf(f)|, x)
  }

  /** Right after exec, the image of the process: its segments, and over them the arguments. */
  lemma ExecImage(w: World, f: Smem.File, args: seq<Frame>, order: seq<nat>)
    requires Inv(w) && CanExecFile(w, f, args, order) && Loadable(f)
    ensures AreasSound(SegmentsOf(f))
    ensures var r := ExecFile(w, f, args, order);
            && Inv(r) && r.current == w.current && w.current in Abs(r).images
            && Abs(r).images[w.current] == Loaded(SegmentsOf(f)) + ArgImage(args)
  {
    hide Core, Running, Abs, Executed, ExecFailed, AreasAfter, Progress, ListsAll, Loaded, ArgImage, Disjoint;
    hide Smem.Content, Smem.WellFormed, HeadersOf, Complete;
    FileAreasSound(f);
    LoadableExact(f);
    NoAreas(f, HeadersOf(f));
    AreasSoundUpTo(f, HeadersOf(f), |HeadersOf(f)|);
    NextFileIsStep(w, Program(f, args, order));
    SimExec(w, AreasOf(f), args, order);
    if Disjoint([USER_STACK] + SegmentsOf(f)) { StackHidesNothing(SegmentsOf(f)); }
  }

  /** After exec of a file that loads, and any run that leaves the page alone, a load by the process
      that hits the TLB reads the byte the eager load puts there; argument pages lie over segments. */
  lemma ExecReadsFile(w: World, f: Smem.File, args: seq<Frame>, order: seq<nat>, steps: seq<Step>, x: nat)
    requires Inv(w) && CanExecFile(w, f, args, order) && Loadable(f)
    requires FileByte(f, x) != -1 && !IsArgPage(|args|, x / PAGE_BYTES)
    requires var r := ExecFile(w, f, args, order);
             Inv(r) && CanRun(r, steps) && Leaves(r, steps, w.current, x / PAGE_BYTES) &&
             var w' := Run(r, steps);
             w'.current == w.current && Runs(w') && Mmu.TlbKey(w'.mmu.asid, x / PAGE_BYTES) in w'.mmu.tlb
    ensures var w' := Run(ExecFile(w, f, args, order), steps);
            var ppn := w'.mmu.tlb[Mmu.TlbKey(w'.mmu.asid, x / PAGE_BYTES)];
            ppn in w'.pm.ram && w'.pm.ram[ppn][x % PAGE_BYTES] == FileByte(f, x)
  {
    hide Core, Running, Run, CanRun, Leaves, Abs, ExecFile, CanExecFile, AreasAfter, Loaded, EagerByte, Disjoint, Runs;
    hide Smem.Content, Smem.WellFormed, HeadersOf, Complete;
    var r := ExecFile(w, f, args, order);
    ExecImage(w, f, args, order);
    TrustedFile(w, f, args, order);
    DemandIsEager(f, HeadersOf(f), x);
    assert HoldsByte(Abs(r).images[w.current], x, FileByte(f, x));
    HitReads(r, steps, x, FileByte(f, x));
  }

  lemma TrustedFile(w: World, f: Smem.File, args: seq<Frame>, order: seq<nat>)
    requires CanExecFile(w, f, args, order)
    ensures Smem.WellFormed(f) && AllTrusted(f, HeadersOf(f))
  {
  }

  // ---- arguments ---------------------------------------------------------------------------------------

  ghost predicate HoldsBytes(img: Image, x: nat, data: seq<Byte>) {
    forall i :: 0 <= i < |data| ==> HoldsByte(img, x + i, data[i])
  }

  ghost predicate HoldsWord(img: Image, x: nat, word: nat)
    requires word < 0x1_0000_0000
  {
    HoldsBytes(img, x, WordToBytes(word))
  }

  /** A NULL-terminated array of pointers to the strings, as main expects it. */
  ghost predicate Vector(img: Image, x: nat, list: seq<seq<Byte>>) {
    && (forall k :: 0 <= k < |list| ==> Points(img, x + 4 * k, list[k]))
    && HoldsWord(img, x + 4 * |list|, NULL)
  }

  ghost predicate Points(img: Image, x: nat, s: seq<Byte>) {
    exists a: nat :: a < 0x1_0000_0000 && HoldsWord(img, x, a) && HoldsBytes(img, a, s)
  }

  /** Page i of the copy is page i + 1 below the top of the stack, so position p is at STACK_TOP - p. */
  lemma PositionHolds(frames: seq<Frame>, n: nat, pos: nat)
    requires |frames| == ARG_MAX_PAGES && n <= ARG_MAX_PAGES && 0 < pos <= n * PAGE_BYTES
    ensures HoldsByte(ArgImage(frames[..n]), STACK_TOP - pos, ArgLayout.Flat(frames)[ArgLayout.SPACE - pos])
  {
    hide ArgLayout.Flat;
    ArgLayout.ThroughMapping(frames, pos);
  }

  lemma DataHolds(frames: seq<Frame>, n: nat, pos: nat, data: seq<Byte>)
    requires |frames| == ARG_MAX_PAGES && n <= ARG_MAX_PAGES && |data| <= pos <= n * PAGE_BYTES
    requires ArgLayout.Flat(frames)[ArgLayout.SPACE - pos..ArgLayout.SPACE - pos + |data|] == data
    ensures HoldsBytes(ArgImage(frames[..n]), STACK_TOP - pos, data)
  {
    hide ArgLayout.Flat, ArgImage, HoldsByte;
    forall i | 0 <= i < |data| ensures HoldsByte(ArgImage(frames[..n]), STACK_TOP - pos + i, data[i]) {
      PositionHolds(frames, n, pos - i);
      assert data[i] == ArgLayout.Flat(frames)[ArgLayout.SPACE - pos + i];
    }
  }

  /** What copy_arg_array lays out is, mapped into the process, the vector main expects. */
  lemma LaidIsVector(frames: seq<Frame>, begin: nat, list: seq<seq<Byte>>, n: nat)
    requires |frames| == ARG_MAX_PAGES && n <= ARG_MAX_PAGES
    requires ArgLayout.InPlace(ArgLayout.Flat(frames), begin, Some(list), n)
    ensures ArgLayout.ArrayPos(begin, |list|) <= STACK_TOP
    ensures Vector(ArgImage(frames[..n]), STACK_TOP - ArgLayout.ArrayPos(begin, |list|), list)
  {
    hide ArgLayout.Flat, ArgImage, HoldsWord, HoldsBytes, ArgLayout.WordAt;
    var img, flat, x := ArgImage(frames[..n]), ArgLayout.Flat(frames), STACK_TOP - ArgLayout.ArrayPos(begin, |list|);
    ArgLayout.StringsFit(begin, list, 0);
    forall k | 0 <= k < |list| ensures Points(img, x + 4 * k, list[k]) {
      PointerHolds(frames, begin, list, n, k);
    }
    WordHolds(frames, n, begin + 4);
  }

  lemma WordHolds(frames: seq<Frame>, n: nat, pos: nat)
    requires |frames| == ARG_MAX_PAGES && n <= ARG_MAX_PAGES && 4 <= pos <= n * PAGE_BYTES
    ensures ArgLayout.WordAt(ArgLayout.Flat(frames), pos) < 0x1_0000_0000
    ensures HoldsWord(ArgImage(frames[..n]), STACK_TOP - pos, ArgLayout.WordAt(ArgLayout.Flat(frames), pos))
  {
    hide ArgLayout.Flat, ArgImage, HoldsBytes, WordToBytes, BytesToWord;
    var bytes := ArgLayout.Flat(frames)[ArgLayout.SPACE - pos..ArgLayout.SPACE - pos + 4];
    BytesRoundTrip(bytes);
    DataHolds(frames, n, pos, bytes);
  }

  lemma PointerHolds(frames: seq<Frame>, begin: nat, list: seq<seq<Byte>>, n: nat, k: nat)
    requires |frames| == ARG_MAX_PAGES && n <= ARG_MAX_PAGES && k < |list|
    requires ArgLayout.InPlace(ArgLayout.Flat(frames), begin, Some(list), n)
    ensures ArgLayout.ArrayPos(begin, |list|) <= STACK_TOP
    ensures Points(ArgImage(frames[..n]), STACK_TOP - ArgLayout.ArrayPos(begin, |list|) + 4 * k, list[k])
  {
    hide ArgLayout.Flat, ArgImage, HoldsWord, HoldsBytes, ArgLayout.WordAt;
    ArgLayout.StringsFit(begin, list, k);
    var p, flat := ArgLayout.StringPos(begin, list, k + 1), ArgLayout.Flat(frames);
    assert ArgLayout.StringAt(flat, begin, list, k) && ArgLayout.PointerAt(flat, begin, list, k);
    WordHolds(frames, n, ArgLayout.ArrayPos(begin, |list|) - 4 * k);
    DataHolds(frames, n, p, list[k]);
  }

  lemma VectorStays(loaded: Image, arguments: Image, x: nat, list: seq<seq<Byte>>)
    requires Vector(arguments, x, list)
    ensures Vector(loaded + arguments, x, list)
  {
    hide HoldsByte, WordToBytes;
    var img: Image := loaded + arguments;
    forall y, b | HoldsByte(arguments, y, b) ensures HoldsByte(img, y, b) { ByteStays(loaded, arguments, y, b); }
    forall k | 0 <= k < |list| ensures Points(img, x + 4 * k, list[k]) {
      assert Points(arguments, x + 4 * k, list[k]);
      var a: nat :| a < 0x1_0000_0000 && HoldsWord(arguments, x + 4 * k, a) && HoldsBytes(arguments, a, list[k]);
      assert HoldsWord(img, x + 4 * k, a) && HoldsBytes(img, a, list[k]);
    }
  }

  lemma ByteStays(loaded: Image, arguments: Image, x: nat, b: int)
    requires HoldsByte(arguments, x, b)
    ensures HoldsByte(loaded + arguments, x, b)
  {
  }

  /** argv and envp of sys_execve: after exec with the pages copy_arg_array filled, the process finds
      both vectors at the addresses it is given, whatever its segments are. */
  lemma ExecArguments(w: World, f: Smem.File, frames: seq<Frame>, n: nat, order: seq<nat>,
                      args: Option<seq<seq<Byte>>>, env: Option<seq<seq<Byte>>>)
    requires |frames| == ARG_MAX_PAGES && n <= ARG_MAX_PAGES
    requires ArgLayout.InPlace(ArgLayout.Flat(frames), 0, args, n)
    requires ArgLayout.InPlace(ArgLayout.Flat(frames), ArgLayout.EndOf(0, args), env, n)
    requires Inv(w) && CanExecFile(w, f, frames[..n], order) && Loadable(f)
    ensures var r := ExecFile(w, f, frames[..n], order);
      && Inv(r) && r.current == w.current && w.current in Abs(r).images
      && var img, mid := Abs(r).images[w.current], ArgLayout.EndOf(0, args);
      && (args.Some? ==> ArgLayout.AddressOf(0, args) >= 0 && Vector(img, ArgLayout.AddressOf(0, args), args.value))
      && (env.Some? ==> ArgLayout.AddressOf(mid, env) >= 0 && Vector(img, ArgLayout.AddressOf(mid, env), env.value))
  {
    hide Core, Running, Abs, ExecFile, CanExecFile, AreasAfter, Loaded, ArgImage, Disjoint, Vector;
    hide ArgLayout.Flat, ArgLayout.InPlace, Smem.Content, Smem.WellFormed, HeadersOf, Loadable, SegmentsOf;
    TrustedFile(w, f, frames[..n], order);
    ExecImage(w, f, frames[..n], order);
    var loaded, arguments := Loaded(SegmentsOf(f)), ArgImage(frames[..n]);
    if args.Some? {
      LaidIsVector(frames, 0, args.value, n);
      VectorStays(loaded, arguments, ArgLayout.AddressOf(0, args), args.value);
    }
    if env.Some? {
      var mid := ArgLayout.EndOf(0, args);
      LaidIsVector(frames, mid, env.value, n);
      VectorStays(loaded, arguments, ArgLayout.AddressOf(mid, env), env.value);
    }
  }
}
