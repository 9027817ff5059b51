/** Memory areas of a process (sys/mem_area.c, sys/mem_area.h), their file-backed page faults
    (fs/casio_smemfs/file.c) and the eager segment load they stand for (bootloader/elf_loader.c). */
module Areas {
  import opened Arch
  import Smem

  /** struct mem_area. base and infile are file.base_offset and file.infile_size. */
  datatype Area =
    | Anon(addr: nat, size: nat)
    | Mapped(addr: nat, size: nat, file: Smem.File, base: nat, infile: nat, partial: bool)

  /** What elfloader_load_segment and elfloader_load build: page-aligned areas inside the address
      space, file areas of a segment that lies in the file with filesz <= memsz. */
  ghost predicate Sound(a: Area) {
    && a.addr % PAGE_BYTES == 0 && a.addr + a.size < VPN_LIMIT * PAGE_BYTES
    && (a.Mapped? ==>
          && a.partial && a.infile <= a.size && Smem.WellFormed(a.file)
          && a.base + a.infile <= |Smem.Content(a.file)|)
  }

  predicate Contains(a: Area, address: nat) {
    a.addr <= address < a.addr + a.size
  }

  /** The intersection test of mem_area_check_range. */
  predicate Overlaps(a: Area, begin: nat, size: nat) {
    a.addr < begin + size && a.addr + a.size > begin
  }

  ghost predicate Disjoint(areas: seq<Area>) {
    forall i, j :: 0 <= i < j < |areas| ==> !Overlaps(areas[i], areas[j].addr, areas[j].size)
  }

  // ---- the area list --------------------------------------------------------------------

  /** The first area that holds the address; the number of areas if there is none. */
  ghost function FindIndex(areas: seq<Area>, address: nat): (i: nat)
    ensures i <= |areas|
    ensures i < |areas| ==> Contains(areas[i], address)
    ensures forall j :: 0 <= j < i ==> !Contains(areas[j], address)
  {
    if areas == [] || Contains(areas[0], address) then 0 else 1 + FindIndex(areas[1..], address)
  }

  ghost predicate Covered(areas: seq<Area>, address: nat) {
    exists i :: 0 <= i < |areas| && Contains(areas[i], address)
  }

  ghost function AreaAt(areas: seq<Area>, address: nat): (a: Area)
    requires Covered(areas, address)
    ensures a in areas && Contains(a, address)
  {
    areas[FindIndex(areas, address)]
  }

  /** In a disjoint list the area of an address does not depend on the order of the list. */
  lemma AreaUnique(areas: seq<Area>, address: nat, i: nat)
    requires Disjoint(areas) && i < |areas| && Contains(areas[i], address)
    ensures AreaAt(areas, address) == areas[i]
  {
    var k := FindIndex(areas, address);
    assert forall j :: 0 <= j < i ==> !Contains(areas[j], address) by {
      forall j | 0 <= j < i ensures !Contains(areas[j], address) {
        assert !Overlaps(areas[j], areas[i].addr, areas[i].size);
      }
    }
    assert k == i;
  }

  ghost function Reverse(areas: seq<Area>): (r: seq<Area>)
    ensures |r| == |areas|
    ensures forall i :: 0 <= i < |r| ==> r[i] == areas[|areas| - 1 - i]
  {
    if areas == [] then [] else Reverse(areas[1..]) + [areas[0]]
  }

  lemma ReverseDisjoint(areas: seq<Area>)
    requires Disjoint(areas)
    ensures Disjoint(Reverse(areas))
  {
  }

  /** Lookup in the reversed list of a fork gives the same area as in the parent's list. */
  lemma ReverseFind(areas: seq<Area>, address: nat)
    requires Disjoint(areas)
    ensures Covered(Reverse(areas), address) <==> Covered(areas, address)
    ensures Covered(areas, address) ==> AreaAt(Reverse(areas), address) == AreaAt(areas, address)
  {
    var r := Reverse(areas);
    ReverseDisjoint(areas);
    if i :| 0 <= i < |areas| && Contains(areas[i], address) {
      assert r[|areas| - 1 - i] == areas[i];
      AreaUnique(areas, address, i);
      AreaUnique(r, address, |areas| - 1 - i);
    }
  }

  class AreaList {
    var areas: seq<Area>

    constructor ()
      ensures areas == []
    {
      areas := [];
    }

    /** mem_area_find. */
    method Find(address: nat) returns (found: bool, area: Area)
      ensures found <==> Covered(areas, address)
      ensures found ==> area == AreaAt(areas, address)
    {
      var i := 0;
      while i < |areas| && !Contains(areas[i], address)
        invariant i <= |areas|
        invariant forall j :: 0 <= j < i ==> !Contains(areas[j], address)
      {
        i := i + 1;
      }
      found := i < |areas|;
      area := if found then areas[i] else Anon(0, 0);
    }

    /** mem_area_check_range. */
    method CheckRange(begin: nat, size: nat) returns (taken: bool)
      ensures taken <==> exists i :: 0 <= i < |areas| && Overlaps(areas[i], begin, size)
    {
      for i := 0 to |areas|
        invariant forall j :: 0 <= j < i ==> !Overlaps(areas[j], begin, size)
      {
        if Overlaps(areas[i], begin, size) {
          return true;
        }
      }
      return false;
    }

    /** mem_area_insert: in front of the list, unless it overlaps. */
    method Insert(area: Area) returns (ok: bool)
      modifies this
      ensures ok <==> forall i :: 0 <= i < |old(areas)| ==> !Overlaps(old(areas)[i], area.addr, area.size)
      ensures areas == if ok then [area] + old(areas) else old(areas)
      ensures Disjoint(old(areas)) ==> Disjoint(areas)
    {
      var taken := CheckRange(area.addr, area.size);
      ok := !taken;
      if ok {
        areas := [area] + areas;
      }
    }

    /** The area loop of sys_fork: every clone goes in, because the parent's areas are disjoint. */
    method CloneFrom(parent: AreaList) returns (allIn: bool)
      requires parent != this && Disjoint(parent.areas) && areas == []
      modifies this
      ensures allIn && areas == Reverse(parent.areas) && Disjoint(areas)
    {
      hide Reverse, Disjoint, Overlaps;
      allIn := true;
      ghost var r := Reverse(parent.areas);
      var n := |parent.areas|;
      ReverseDisjoint(parent.areas);
      for i := 0 to n
        invariant allIn && areas == r[n - i..]
      {
        NextClone(parent.areas, r, i);
        var ok := Insert(parent.areas[i]);
        allIn := allIn && ok;
      }
      assert r[0..] == r;
    }
  }

  /** The clone of area i goes in front of those of the areas before it. */
  lemma NextClone(areas: seq<Area>, r: seq<Area>, i: nat)
    requires i < |areas| && r == Reverse(areas) && Disjoint(r)
    ensures var was := r[|areas| - i..];
            && (forall k :: 0 <= k < |was| ==> !Overlaps(was[k], areas[i].addr, areas[i].size))
            && [areas[i]] + was == r[|areas| - (i + 1)..]
  {
    hide Reverse;
    var m := |areas| - 1 - i;
    assert r[m] == areas[i];
    forall k | m < k < |r| ensures !Overlaps(r[k], areas[i].addr, areas[i].size) {
      assert !Overlaps(r[m], r[k].addr, r[k].size);
    }
  }

  // ---- the eager load -----------------------------------------------------------------------

  /** What a loaded segment is: filesz bytes of the file, then zeros up to memsz. */
  ghost function SegmentImage(content: seq<Byte>, offset: nat, filesz: nat, memsz: nat): (s: seq<Byte>)
    requires offset + filesz <= |content| && filesz <= memsz
    ensures |s| == memsz
  {
    content[offset..offset + filesz] + Zeros(memsz - filesz)
  }

  lemma WrittenTwice(ram: seq<Byte>, at: nat, d: seq<Byte>, e: seq<Byte>)
    requires at + |d| + |e| <= |ram|
    ensures Overwritten(Overwritten(ram, at, d), at + |d|, e) == Overwritten(ram, at, d + e)
  {
  }

  /** memcpy; memset is a copy of zeros. */
  method CopyBytes(ram: array<Byte>, at: nat, data: seq<Byte>)
    requires at + |data| <= ram.Length
    modifies ram
    ensures ram[..] == Overwritten(old(ram[..]), at, data)
  {
    for i := 0 to |data|
      invariant ram[..] == Overwritten(old(ram[..]), at, data[..i])
    {
      ram[at + i] := data[i];
    }
    assert data[..|data|] == data;
  }

  /** The seek and the read of elf_load_segment. */
  method ReadSegment(f: Smem.BootFile, offset: nat, filesz: nat) returns (data: seq<Byte>)
    requires f.Valid() && offset + filesz <= |Smem.Content(f.file)| < 0x8000_0000
    modifies f
    ensures f.Valid() && data == Smem.Content(f.file)[offset..offset + filesz]
  {
    hide Smem.CursorAt, Smem.Content;
    var at := f.Seek(offset, Smem.SeekSet);
    var r;
    r, data := f.Read(filesz);
  }

  /** elf_load_segment, into the memory that starts at physical address 0. */
  method LoadSegment(f: Smem.BootFile, offset: nat, filesz: nat, memsz: nat, ram: array<Byte>, paddr: nat)
    requires f.Valid() && offset + filesz <= |Smem.Content(f.file)| < 0x8000_0000 && filesz <= memsz
    requires paddr + memsz <= ram.Length
    modifies f, ram
    ensures f.Valid()
    ensures ram[..] == Overwritten(old(ram[..]), paddr, SegmentImage(Smem.Content(f.file), offset, filesz, memsz))
  {
    hide Overwritten;
    var data := ReadSegment(f, offset, filesz);
    WrittenTwice(ram[..], paddr, data, Zeros(memsz - filesz));
    CopyBytes(ram, paddr, data);
    CopyBytes(ram, paddr + filesz, Zeros(memsz - filesz));
  }

  // ---- the lazy load -----------------------------------------------------------------------

  /** Page at this offset of the eagerly loaded segment, zeros behind its end. */
  ghost function SegmentPage(a: Area, offset: nat): (f: Frame)
    requires Sound(a) && a.Mapped?
  {
    var image := SegmentImage(Smem.Content(a.file), a.base, a.infile, a.size);
    seq(PAGE_BYTES, j requires 0 <= j => if offset + j < |image| then image[offset + j] else 0)
  }

  /** mem_area_fill_partial_page. */
  method FillPartialPage(a: Area, offset: nat, dest: Frame) returns (readsize: nat, filled: Frame)
    ensures readsize <= PAGE_BYTES
    ensures readsize == if a.Mapped? && a.partial then Smem.Clamp(a.infile - offset, PAGE_BYTES) else PAGE_BYTES
    ensures filled == dest[..readsize] + Zeros(PAGE_BYTES - readsize)
  {
    readsize, filled := PAGE_BYTES, dest;
    if a.Mapped? && a.partial {
      if a.infile < offset + readsize {
        var zeroed;
        if a.infile > offset {
          readsize := a.infile - offset;
          zeroed := offset + PAGE_BYTES - a.infile;
        } else {
          zeroed := readsize;
          readsize := 0;
        }
        filled := dest[..readsize] + Zeros(zeroed);
      }
    }
  }

  /** The filling part of smemfs_area_pagefault: the new page, whatever the frame held, is the
      page of the eagerly loaded segment. */
  method FillFilePage(a: Area, offset: nat, junk: Frame) returns (frame: Frame)
    requires Sound(a) && a.Mapped?
    ensures frame == SegmentPage(a, offset)
  {
    var readsize, filled := FillPartialPage(a, offset, junk);
    frame := filled;
    ghost var content := Smem.Content(a.file);
    if readsize > 0 {
      var n, data := Smem.ReadData(a.file, readsize, a.base + offset);
      assert n == readsize;
      frame := data + frame[n..];
      assert forall j :: 0 <= j < n ==> frame[j] == content[a.base + offset + j];
    }
    ghost var image := SegmentImage(content, a.base, a.infile, a.size);
    assert forall j :: 0 <= j < a.infile ==> image[j] == content[a.base + j];
    assert forall j :: readsize <= j < PAGE_BYTES ==> frame[j] == 0;
    assert forall j :: 0 <= j < PAGE_BYTES ==> frame[j] == SegmentPage(a, offset)[j];
  }

  /** The pages of an area, put end to end, are the segment that elf_load_segment builds. */
  lemma PagesAreSegment(a: Area, i: nat)
    requires Sound(a) && a.Mapped? && i < a.size
    ensures SegmentPage(a, i / PAGE_BYTES * PAGE_BYTES)[i % PAGE_BYTES]
            == SegmentImage(Smem.Content(a.file), a.base, a.infile, a.size)[i]
  {
    assert i / PAGE_BYTES * PAGE_BYTES + i % PAGE_BYTES == i;
  }
}
