/** Loading a program lazily (loader/elfloader/loader.c) against loading it at once
    (bootloader/elf_loader.c). */
module Loader {
  import opened Arch
  import opened Areas
  import opened Elf
  import EagerImage
  import Smem

  /** The bootloader puts segments at their physical addresses, a process has them at the virtual ones. */
  datatype Space = Physical | Virtual

  function Base(h: Header, at: Space): nat { if at.Physical? then h.paddr else h.vaddr }

  /** What the loaders trust: the segment lies in the file, is not larger there than in memory, and
      fits the address space. */
  ghost predicate Trusted(f: Smem.File, h: Header) {
    && Smem.WellFormed(f)
    && h.offset + h.filesz <= |Smem.Content(f)| && h.filesz <= h.memsz && h.vaddr + h.memsz < VPN_LIMIT * PAGE_BYTES
  }

  /** The program headers the loaders see in a file. */
  ghost function HeadersOf(f: Smem.File): seq<Header>
    requires Smem.WellFormed(f)
  {
    Headers(Smem.Content(f))
  }

  ghost predicate AllTrusted(f: Smem.File, hs: seq<Header>) {
    Smem.WellFormed(f) && forall i :: 0 <= i < |hs| && hs[i].IsLoad() ==> Trusted(f, hs[i])
  }

  // ---- at once --------------------------------------------------------------------------------

  ghost function Segment(f: Smem.File, h: Header): seq<Byte>
    requires Trusted(f, h)
    ensures |Segment(f, h)| == h.memsz
  {
    SegmentImage(Smem.Content(f), h.offset, h.filesz, h.memsz)
  }

  /** The byte at an address after the first n headers were loaded in order; later ones win. */
  ghost function EagerByte(f: Smem.File, hs: seq<Header>, at: Space, n: nat, x: nat): (r: int)
    requires n <= |hs| && AllTrusted(f, hs)
    ensures r == -1 || 0 <= r < 256
  {
    if n == 0 then -1
    else
      var h := hs[n - 1];
      if h.IsLoad() && Base(h, at) <= x < Base(h, at) + h.memsz then Segment(f, h)[x - Base(h, at)]
      else EagerByte(f, hs, at, n - 1, x)
  }

  /** The same in memory that held something else. */
  ghost function AfterLoad(f: Smem.File, hs: seq<Header>, n: nat, x: nat, was: Byte): Byte
    requires n <= |hs| && AllTrusted(f, hs)
  {
    var b := EagerByte(f, hs, Physical, n, x);
    if b == -1 then was else b
  }

  /** elf_load_kernel up to the jump to the entry point, which is reached with r == 0, into memory that
      starts at address 0. */
  method LoadKernel(file: Smem.BootFile, ram: array<Byte>) returns (r: int)
    requires file.Valid() && file.pos == 0 && |Smem.Content(file.file)| < 0x8000_0000
    requires AllTrusted(file.file, HeadersOf(file.file))
    requires forall h :: h in HeadersOf(file.file) && h.IsLoad() ==> h.paddr + h.memsz <= ram.Length
    modifies file, ram
    ensures file.Valid()
    ensures var c := Smem.Content(file.file); r == if !HeaderOk(c) then -1 else if !Complete(c) then -2 else 0
    ensures var hs := HeadersOf(file.file);
            forall x :: 0 <= x < ram.Length ==> ram[x] == AfterLoad(file.file, hs, |hs|, x, old(ram[x]))
  {
    hide Smem.Content, Smem.WellFormed, AfterLoad, HeaderOk, Complete, Headers, Readable, EntryAt, Count, Trusted;
    ghost var f := file.file;
    ghost var c, hs := Smem.Content(f), HeadersOf(f);
    forall x | 0 <= x < ram.Length ensures AfterLoad(f, hs, 0, x, ram[x]) == ram[x] { AfterNone(f, hs, x, ram[x]); }
    var good, b := BootHeader(file);
    if !good {
      NoHeaders(c);
      r := -1;
      return;
    }
    HeadersExact(c);
    CountOf(c);
    r := 0;
    var n := 0;
    while n < PhNum(b) && r == 0
      invariant file.Valid() && 0 <= n <= |hs|
      invariant r == 0 || (r == -2 && n == |hs| < PhNum(b))
      invariant forall x :: 0 <= x < ram.Length ==> ram[x] == AfterLoad(f, hs, n, x, old(ram[x]))
      decreases PhNum(b) - n, r == 0
    {
      var ok, h := BootEntry(file, b, n);
      if ok {
        ghost var before := ram[..];
        if h.IsLoad() { LoadHeader(file, h, ram); }
        forall x | 0 <= x < ram.Length ensures ram[x] == AfterLoad(f, hs, n + 1, x, old(ram[x])) {
          AfterStep(f, hs, n, x, old(ram[x]));
          assert before[x] == AfterLoad(f, hs, n, x, old(ram[x]));
        }
        n := n + 1;
      } else {
        r := -2;
      }
    }
  }

  /** elf_load_segment. */
  method LoadHeader(file: Smem.BootFile, h: Header, ram: array<Byte>)
    requires file.Valid() && Trusted(file.file, h) && |Smem.Content(file.file)| < 0x8000_0000
    requires h.paddr + h.memsz <= ram.Length
    modifies file, ram
    ensures file.Valid()
    ensures forall x :: 0 <= x < ram.Length ==>
              ram[x] == if h.paddr <= x < h.paddr + h.memsz then Segment(file.file, h)[x - h.paddr] else old(ram[x])
  {
    hide Smem.Content, Smem.WellFormed, SegmentImage;
    LoadSegment(file, h.offset, h.filesz, h.memsz, ram, h.paddr);
    forall x | 0 <= x < ram.Length
      ensures ram[x] == if h.paddr <= x < h.paddr + h.memsz then Segment(file.file, h)[x - h.paddr] else old(ram[x])
    {
      assert ram[..][x] == ram[x];
    }
  }

  lemma AfterNone(f: Smem.File, hs: seq<Header>, x: nat, was: Byte)
    requires AllTrusted(f, hs)
    ensures AfterLoad(f, hs, 0, x, was) == was
  {
  }

  lemma AfterStep(f: Smem.File, hs: seq<Header>, n: nat, x: nat, was: Byte)
    requires n < |hs| && AllTrusted(f, hs)
    ensures AfterLoad(f, hs, n + 1, x, was) ==
            if hs[n].IsLoad() && hs[n].paddr <= x < hs[n].paddr + hs[n].memsz then Segment(f, hs[n])[x - hs[n].paddr]
            else AfterLoad(f, hs, n, x, was)
  {
    hide Smem.Content, Smem.WellFormed, Segment;
  }

  // ---- lazily ----------------------------------------------------------------------------------

  function AreaOf(f: Smem.File, h: Header): Area { Mapped(h.vaddr, h.memsz, f, h.offset, h.filesz, true) }

  /** The areas after the first n headers: each new one in front. */
  ghost function AreasAfter(f: Smem.File, hs: seq<Header>, n: nat, before: seq<Area>): seq<Area>
    requires n <= |hs|
  {
    if n == 0 then before
    else if hs[n - 1].IsLoad() then [AreaOf(f, hs[n - 1])] + AreasAfter(f, hs, n - 1, before)
    else AreasAfter(f, hs, n - 1, before)
  }

  predicate Aligned(hs: seq<Header>) {
    forall i :: 0 <= i < |hs| && hs[i].IsLoad() ==> hs[i].vaddr % PAGE_BYTES == 0
  }

  /** No program header asks for a shared library. */
  ghost predicate Static(hs: seq<Header>) { forall i :: 0 <= i < |hs| ==> hs[i].kind != TYPE_SHLIB }

  /** The first byte beyond the last segment. */
  function Break(hs: seq<Header>, n: nat): nat
    requires n <= |hs|
  {
    if n == 0 then 0
    else
      var b := Break(hs, n - 1);
      if hs[n - 1].IsLoad() && hs[n - 1].vaddr + hs[n - 1].memsz > b then hs[n - 1].vaddr + hs[n - 1].memsz else b
  }

  lemma {:induction false} BreakIsBeyond(hs: seq<Header>, n: nat, i: nat)
    requires i < n <= |hs| && hs[i].IsLoad()
    ensures hs[i].vaddr + hs[i].memsz <= Break(hs, n)
  {
    if i < n - 1 { BreakIsBeyond(hs, n - 1, i); }
  }

  /** An overlap among the first areas is one among all. */
  lemma {:induction false} StaysOverlapped(f: Smem.File, hs: seq<Header>, n: nat, m: nat, before: seq<Area>)
    requires n <= m <= |hs| && !Disjoint(AreasAfter(f, hs, n, before))
    ensures !Disjoint(AreasAfter(f, hs, m, before))
    decreases m - n
  {
    if n < m {
      StaysOverlapped(f, hs, n, m - 1, before);
      var a, b := AreasAfter(f, hs, m - 1, before), AreasAfter(f, hs, m, before);
      hide AreasAfter;
      var i, j :| 0 <= i < j < |a| && Overlaps(a[i], a[j].addr, a[j].size);
      var d := |b| - |a|;
      assert b[d + i] == a[i] && b[d + j] == a[j];
    }
  }

  /** Header n cannot be mapped behind the ones before it. */
  ghost predicate Refused(f: Smem.File, hs: seq<Header>, n: nat, before: seq<Area>)
    requires n < |hs|
  {
    hs[n].IsLoad() && (hs[n].vaddr % PAGE_BYTES != 0 || !Disjoint(AreasAfter(f, hs, n + 1, before)))
  }

  /** How many headers are dealt with before one is refused. */
  ghost function Progress(f: Smem.File, hs: seq<Header>, n: nat, before: seq<Area>): (r: nat)
    requires n <= |hs|
    ensures n <= r <= |hs|
    decreases |hs| - n
  {
    if n == |hs| || Refused(f, hs, n, before) then n else Progress(f, hs, n + 1, before)
  }

  /** The whole file is loaded exactly when all segments are page-aligned and no two areas overlap. */
  lemma {:induction false} ProgressExact(f: Smem.File, hs: seq<Header>, n: nat, before: seq<Area>)
    requires n <= |hs| && Disjoint(AreasAfter(f, hs, n, before))
    requires forall i :: 0 <= i < n && hs[i].IsLoad() ==> hs[i].vaddr % PAGE_BYTES == 0
    ensures Progress(f, hs, n, before) == |hs| <==> Aligned(hs) && Disjoint(AreasAfter(f, hs, |hs|, before))
    ensures Disjoint(AreasAfter(f, hs, Progress(f, hs, n, before), before))
    ensures forall i :: 0 <= i < Progress(f, hs, n, before) && hs[i].IsLoad() ==> hs[i].vaddr % PAGE_BYTES == 0
    decreases |hs| - n
  {
    hide Disjoint;
    if n < |hs| {
      if !Refused(f, hs, n, before) {
        ProgressExact(f, hs, n + 1, before);
      } else if hs[n].vaddr % PAGE_BYTES == 0 {
        StaysOverlapped(f, hs, n + 1, |hs|, before);
      }
    }
  }

  /** elfloader_load_all: succeeds exactly when the ELF header is accepted, all program headers are in the
      file, all segments are page-aligned and no two areas overlap; the segments before a failure stay
      mapped. */
  method LoadAll(file: Smem.KernelFile, list: AreaList) returns (ok: bool, brk: nat)
    requires file.Valid() && Disjoint(list.areas) && Static(HeadersOf(file.file))
    modifies file, list
    ensures file.Valid() && Disjoint(list.areas)
    ensures var f, c, hs := file.file, Smem.Content(file.file), HeadersOf(file.file);
            && (ok <==> Complete(c) && Aligned(hs) && Disjoint(AreasAfter(f, hs, |hs|, old(list.areas))))
            && list.areas == AreasAfter(f, hs, Progress(f, hs, 0, old(list.areas)), old(list.areas))
            && (ok ==> brk == Break(hs, |hs|))
  {
    hide Smem.Content, Smem.WellFormed, HeaderOk, Complete, Headers, Readable, EntryAt, Count;
    hide Disjoint, Progress, AreasAfter, Aligned, Overlaps, Static;
    ghost var before, f := list.areas, file.file;
    ghost var c, hs := Smem.Content(f), HeadersOf(f);
    NoneYet(f, hs, before);
    ProgressExact(f, hs, 0, before);
    brk := 0;
    var b;
    ok, b := GetHeader(file);
    if !ok {
      NoHeaders(c);
      ProgressStep(f, hs, 0, before);
      return;
    }
    HeadersExact(c);
    CountOf(c);
    var n := 0;
    while n < PhNum(b)
      invariant file.Valid() && 0 <= n <= |hs| && ok && brk == Break(hs, n)
      invariant list.areas == AreasAfter(f, hs, n, before) && Disjoint(list.areas)
      invariant Progress(f, hs, n, before) == Progress(f, hs, 0, before)
      decreases PhNum(b) - n
    {
      ProgressStep(f, hs, n, before);
      var h;
      ok, h := GetEntry(file, b, n);
      if !ok {
        return;
      }
      AreasStep(f, hs, n, before);
      if h.IsLoad() {
        if h.vaddr % PAGE_BYTES != 0 {
          ok := false;
          return;
        }
        ghost var was := list.areas;
        ok := list.Insert(AreaOf(file.file, h));
        if !ok {
          FrontOverlaps(AreaOf(f, h), was);
          return;
        }
        if h.vaddr + h.memsz > brk {
          brk := h.vaddr + h.memsz;
        }
      }
      n := n + 1;
    }
    ProgressStep(f, hs, n, before);
  }

  lemma NoHeaders(c: seq<Byte>)
    requires !HeaderOk(c)
    ensures Headers(c) == [] && !Complete(c)
  {
  }

  lemma CountOf(c: seq<Byte>)
    requires HeaderOk(c)
    ensures |c| >= EHDR_BYTES && Count(c) == PhNum(c[..EHDR_BYTES])
  {
  }

  lemma NoneYet(f: Smem.File, hs: seq<Header>, before: seq<Area>)
    ensures AreasAfter(f, hs, 0, before) == before
  {
  }

  lemma AreasStep(f: Smem.File, hs: seq<Header>, n: nat, before: seq<Area>)
    requires n < |hs|
    ensures AreasAfter(f, hs, n + 1, before) ==
            if hs[n].IsLoad() then [AreaOf(f, hs[n])] + AreasAfter(f, hs, n, before) else AreasAfter(f, hs, n, before)
  {
  }

  lemma ProgressStep(f: Smem.File, hs: seq<Header>, n: nat, before: seq<Area>)
    requires n <= |hs|
    ensures Progress(f, hs, n, before) ==
            if n == |hs| || Refused(f, hs, n, before) then n else Progress(f, hs, n + 1, before)
  {
    hide Refused;
  }

  lemma FrontOverlaps(a: Area, areas: seq<Area>)
    requires exists i :: 0 <= i < |areas| && Overlaps(areas[i], a.addr, a.size)
    ensures !Disjoint([a] + areas)
  {
    var i :| 0 <= i < |areas| && Overlaps(areas[i], a.addr, a.size);
    assert ([a] + areas)[0] == a && ([a] + areas)[1 + i] == areas[i] && Overlaps(a, areas[i].addr, areas[i].size);
  }

  const STACK_SIZE := 64 * 1024   // PROCESS_DEFAULT_STACK_SIZE

  const USER_STACK: Area := Anon(STACK_TOP - STACK_SIZE, STACK_SIZE)

  /** The areas elfloader_load leaves in an empty process: the segments up to the program header that is
      refused or not in the file; if there is none, the stack as well, unless a segment is in its way. */
  ghost function AreasOf(f: Smem.File): seq<Area>
    requires Smem.WellFormed(f)
  {
    var hs := HeadersOf(f);
    var segments := AreasAfter(f, hs, Progress(f, hs, 0, []), []);
    if LoadsAll(f) && Disjoint([USER_STACK] + segments) then [USER_STACK] + segments else segments
  }

  /** Every program header is read and mapped. */
  ghost predicate LoadsAll(f: Smem.File)
    requires Smem.WellFormed(f)
  {
    Complete(Smem.Content(f)) && Progress(f, HeadersOf(f), 0, []) == |HeadersOf(f)|
  }

  /** The same, as something to check of the file. */
  ghost predicate Loadable(f: Smem.File)
    requires Smem.WellFormed(f)
  {
    var hs := HeadersOf(f);
    Complete(Smem.Content(f)) && Aligned(hs) && Disjoint(AreasAfter(f, hs, |hs|, []))
  }

  /** elfloader_load up to the kernel stack: 0 is returned whether or not the file could be loaded. */
  method Load(file: Smem.KernelFile, list: AreaList) returns (r: int, ok: bool)
    requires file.Valid() && list.areas == [] && Static(HeadersOf(file.file))
    modifies file, list
    ensures file.Valid() && r == 0 && Disjoint(list.areas) && list.areas == AreasOf(file.file)
    ensures ok <==> Loadable(file.file)
  {
    hide AreasAfter, Aligned, Progress, HeadersOf, Complete, Smem.Content, Smem.WellFormed;
    LoadableExact(file.file);
    var brk;
    ok, brk := LoadAll(file, list);
    if ok {
      ghost var segments := list.areas;
      var fits := list.Insert(USER_STACK);
      if !fits { FrontOverlaps(USER_STACK, segments); }
    }
    r := 0;
  }

  /** The loader gets through the file exactly when the ELF header is accepted, every program header is in
      the file, the segments are page-aligned and no two overlap. */
  lemma LoadableExact(f: Smem.File)
    requires Smem.WellFormed(f)
    ensures LoadsAll(f) <==> Loadable(f)
  {
    hide AreasAfter, Aligned, Progress, Complete, Disjoint, HeadersOf;
    NoAreas(f, HeadersOf(f));
  }

  lemma NoAreas(f: Smem.File, hs: seq<Header>)
    ensures Progress(f, hs, 0, []) == |hs| <==> Aligned(hs) && Disjoint(AreasAfter(f, hs, |hs|, []))
    ensures Disjoint(AreasAfter(f, hs, Progress(f, hs, 0, []), []))
    ensures forall i :: 0 <= i < Progress(f, hs, 0, []) && hs[i].IsLoad() ==> hs[i].vaddr % PAGE_BYTES == 0
  {
    ProgressExact(f, hs, 0, []);
  }

  // ---- the two agree --------------------------------------------------------------------------------

  /** At every address, the area found there stands for the byte the eager load puts there; addresses
      without an area are those it does not touch. */
  lemma {:induction false} AreasAreEager(f: Smem.File, hs: seq<Header>, n: nat, x: nat)
    requires n <= |hs| && AllTrusted(f, hs)
    ensures var areas := AreasAfter(f, hs, n, []);
            if Covered(areas, x) then
              var a := AreaAt(areas, x);
              && a.Mapped? && a.file == f && a.base + a.infile <= |Smem.Content(f)| && a.infile <= a.size
              && EagerByte(f, hs, Virtual, n, x) == SegmentImage(Smem.Content(f), a.base, a.infile, a.size)[x - a.addr]
            else EagerByte(f, hs, Virtual, n, x) == -1
  {
    hide SegmentImage, Smem.Content, Smem.WellFormed;
    if n > 0 {
      AreasAreEager(f, hs, n - 1, x);
      if hs[n - 1].IsLoad() { FindInFront(AreaOf(f, hs[n - 1]), AreasAfter(f, hs, n - 1, []), x); }
    }
  }

  lemma FindInFront(a: Area, areas: seq<Area>, x: nat)
    ensures Covered([a] + areas, x) <==> Contains(a, x) || Covered(areas, x)
    ensures Covered([a] + areas, x) ==>
              AreaAt([a] + areas, x) == if Contains(a, x) then a else AreaAt(areas, x)
  {
    assert ([a] + areas)[0] == a && ([a] + areas)[1..] == areas;
    if i :| 0 <= i < |areas| && Contains(areas[i], x) { assert ([a] + areas)[i + 1] == areas[i]; }
  }

  /** A program loaded lazily, seen page by page as demand paging brings it in, is the program loaded
      at once. */
  lemma DemandIsEager(f: Smem.File, hs: seq<Header>, x: nat)
    requires AllTrusted(f, hs) && Aligned(hs) && Disjoint(AreasAfter(f, hs, |hs|, []))
    ensures var areas := AreasAfter(f, hs, |hs|, []);
            && (forall i :: 0 <= i < |areas| ==> Sound(areas[i]))
            && (EagerByte(f, hs, Virtual, |hs|, x) != -1 ==>
                  x / PAGE_BYTES in EagerImage.Loaded(areas) &&
                  EagerImage.Loaded(areas)[x / PAGE_BYTES][x % PAGE_BYTES] == EagerByte(f, hs, Virtual, |hs|, x))
  {
    hide Disjoint, SegmentImage, SegmentPage, Smem.Content, Smem.WellFormed, EagerByte, EagerImage.Loaded;
    var areas := AreasAfter(f, hs, |hs|, []);
    AreasSoundUpTo(f, hs, |hs|);
    AreasAreEager(f, hs, |hs|, x);
    if EagerByte(f, hs, Virtual, |hs|, x) != -1 {
      PageInArea(areas, x);
      var a := AreaAt(areas, x);
      EagerImage.LoadedAt(areas, x / PAGE_BYTES);
      PageByte(a, x);
    }
  }

  lemma {:induction false} AreasSoundUpTo(f: Smem.File, hs: seq<Header>, n: nat)
    requires n <= |hs| && AllTrusted(f, hs)
    requires forall i :: 0 <= i < n && hs[i].IsLoad() ==> hs[i].vaddr % PAGE_BYTES == 0
    ensures forall i :: 0 <= i < |AreasAfter(f, hs, n, [])| ==> Sound(AreasAfter(f, hs, n, [])[i])
  {
    hide Smem.Content, Smem.WellFormed;
    if n > 0 { AreasSoundUpTo(f, hs, n - 1); }
  }

  /** The start of a page and every address of an area in it are in the same area. */
  lemma PageInArea(areas: seq<Area>, x: nat)
    requires Disjoint(areas) && Covered(areas, x) && forall i :: 0 <= i < |areas| ==> Sound(areas[i])
    ensures var start := x / PAGE_BYTES * PAGE_BYTES;
            && Covered(areas, start) && AreaAt(areas, start) == AreaAt(areas, x)
            && start + x % PAGE_BYTES == x && AreaAt(areas, x).addr <= start && x / PAGE_BYTES < VPN_LIMIT
  {
    hide Smem.Content, Smem.WellFormed;
    var i := FindIndex(areas, x);
    PageStart(areas[i].addr, x);
    AreaUnique(areas, x, i);
    AreaUnique(areas, x / PAGE_BYTES * PAGE_BYTES, i);
  }

  lemma PageStart(addr: nat, x: nat)
    requires addr % PAGE_BYTES == 0 && addr <= x < VPN_LIMIT * PAGE_BYTES
    ensures addr <= x / PAGE_BYTES * PAGE_BYTES <= x && x / PAGE_BYTES * PAGE_BYTES + x % PAGE_BYTES == x
    ensures x / PAGE_BYTES < VPN_LIMIT
  {
    var q := addr / PAGE_BYTES;
    assert addr == q * PAGE_BYTES;
  }

  lemma PageByte(a: Area, x: nat)
    requires Sound(a) && a.Mapped? && Contains(a, x) && a.addr <= x / PAGE_BYTES * PAGE_BYTES
    requires x / PAGE_BYTES * PAGE_BYTES + x % PAGE_BYTES == x
    ensures SegmentPage(a, x / PAGE_BYTES * PAGE_BYTES - a.addr)[x % PAGE_BYTES]
            == SegmentImage(Smem.Content(a.file), a.base, a.infile, a.size)[x - a.addr]
  {
    hide Smem.Content, Smem.WellFormed, SegmentImage;
  }
}
