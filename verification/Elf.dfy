/** Program files: the ELF header and the program headers in the bytes of a file, as read by
    loader/elfloader (elf.h, elf_utils.c, loader.c) and by bootloader/elf_loader.c. */
module Elf {
  import opened Arch
  import Smem

  const EHDR_BYTES := 52   // sizeof(struct elf_header)
  const PHDR_BYTES := 32   // sizeof(struct elf_prog_header)
  const TYPE_LOAD := 1     // ELFP_TYPE_LOAD
  const TYPE_SHLIB := 5    // ELFP_TYPE_SHLIB

  /** struct elf_prog_header, without the flags and the alignment, which nothing reads. */
  datatype Header = Header(kind: nat, offset: nat, vaddr: nat, paddr: nat, filesz: nat, memsz: nat) {
    predicate IsLoad() { kind == TYPE_LOAD }
  }

  // ---- fields ------------------------------------------------------------------------------------

  function HalfAt(b: seq<Byte>, i: nat): nat
    requires i + 2 <= |b|
  {
    var hi: int, lo: int := b[i], b[i + 1];
    hi * 256 + lo
  }

  function WordAt(b: seq<Byte>, i: nat): (w: nat)
    requires i + 4 <= |b|
    ensures w < Smem.WORD
  {
    BytesToWord(b[i..i + 4])
  }

  /** check_elf_header (elf_check_header in the bootloader). */
  predicate GoodHeader(b: seq<Byte>)
    requires |b| == EHDR_BYTES
  {
    && b[0] == 0x7F && b[1] == 0x45 && b[2] == 0x4C && b[3] == 0x46      // magic
    && b[4] == 1 && b[5] == 2 && b[6] == 1 && b[7] == 0                  // 32 bits, big-endian, version, no ABI
    && HalfAt(b, 16) == 2 && HalfAt(b, 18) == 42 && WordAt(b, 20) == 1   // executable, SuperH, version
    && HalfAt(b, 40) == EHDR_BYTES && HalfAt(b, 42) == PHDR_BYTES
  }

  function PhOff(b: seq<Byte>): nat
    requires |b| == EHDR_BYTES
  {
    WordAt(b, 28)
  }

  function PhNum(b: seq<Byte>): nat
    requires |b| == EHDR_BYTES
  {
    HalfAt(b, 44)
  }

  function EntryOf(b: seq<Byte>): Header
    requires |b| == PHDR_BYTES
  {
    Header(WordAt(b, 0), WordAt(b, 4), WordAt(b, 8), WordAt(b, 12), WordAt(b, 16), WordAt(b, 20))
  }

  /** A 32-bit sum, passed as off_t. */
  function AsOffset(x: nat): int {
    var w := x % Smem.WORD;
    if w < 0x8000_0000 then w else w - Smem.WORD
  }

  /** Where the readers stand after seeking entry i. */
  function EntryPlace(b: seq<Byte>, size: nat, i: nat): nat
    requires |b| == EHDR_BYTES
  {
    Smem.SeekTarget(size, 0, AsOffset(PhOff(b) + i * PHDR_BYTES), Smem.SeekSet)
  }

  // ---- the headers of a file ----------------------------------------------------------------------

  ghost predicate HeaderOk(c: seq<Byte>) { |c| >= EHDR_BYTES && GoodHeader(c[..EHDR_BYTES]) }

  /** The number of entries the ELF header announces. */
  ghost function Count(c: seq<Byte>): nat
    requires HeaderOk(c)
  {
    PhNum(c[..EHDR_BYTES])
  }

  ghost function Place(c: seq<Byte>, i: nat): nat
    requires HeaderOk(c)
  {
    EntryPlace(c[..EHDR_BYTES], |c|, i)
  }

  /** Entry i lies wholly in the file. */
  ghost predicate Readable(c: seq<Byte>, i: nat)
    requires HeaderOk(c)
  {
    Place(c, i) + PHDR_BYTES <= |c|
  }

  ghost function EntryAt(c: seq<Byte>, i: nat): Header
    requires HeaderOk(c) && Readable(c, i)
  {
    EntryOf(c[Place(c, i)..Place(c, i) + PHDR_BYTES])
  }

  /** The header is accepted and every entry it announces is in the file. */
  ghost predicate Complete(c: seq<Byte>) {
    HeaderOk(c) && forall i :: 0 <= i < Count(c) ==> Readable(c, i)
  }

  /** The entries from i on, up to the first that cannot be read. */
  ghost function Entries(c: seq<Byte>, i: nat): seq<Header>
    requires HeaderOk(c) && i <= Count(c)
    decreases Count(c) - i
  {
    if i == Count(c) || !Readable(c, i) then [] else [EntryAt(c, i)] + Entries(c, i + 1)
  }

  /** What the loaders get to see. */
  ghost function Headers(c: seq<Byte>): seq<Header> { if HeaderOk(c) then Entries(c, 0) else [] }

  lemma {:induction false} EntriesExact(c: seq<Byte>, i: nat)
    requires HeaderOk(c) && i <= Count(c)
    ensures var n := i + |Entries(c, i)|;
            && n <= Count(c) && (n < Count(c) ==> !Readable(c, n))
            && forall k :: i <= k < n ==> Readable(c, k) && Entries(c, i)[k - i] == EntryAt(c, k)
    decreases Count(c) - i
  {
    hide HeaderOk, Count, Readable, EntryAt;
    if i < Count(c) && Readable(c, i) {
      EntriesExact(c, i + 1);
    }
  }

  /** The headers seen are those announced exactly when all of them are in the file; otherwise they end
      in front of the first that is not. */
  lemma HeadersExact(c: seq<Byte>)
    requires HeaderOk(c)
    ensures |Headers(c)| <= Count(c) && (|Headers(c)| == Count(c) <==> Complete(c))
    ensures forall k :: 0 <= k < |Headers(c)| ==> Readable(c, k) && Headers(c)[k] == EntryAt(c, k)
    ensures |Headers(c)| < Count(c) ==> !Readable(c, |Headers(c)|)
  {
    hide HeaderOk, Count, Readable, EntryAt;
    EntriesExact(c, 0);
  }

  // ---- reading them ---------------------------------------------------------------------------------

  /** elf_get_header and check_elf_header. */
  method GetHeader(file: Smem.KernelFile) returns (ok: bool, b: seq<Byte>)
    requires file.Valid()
    modifies file
    ensures file.Valid() && (ok <==> HeaderOk(Smem.Content(file.file)))
    ensures ok ==> b == Smem.Content(file.file)[..EHDR_BYTES]
  {
    hide Smem.Content, Smem.WellFormed, GoodHeader;
    var r;
    r := file.Lseek(0, Smem.SeekSet);
    r, b := file.Read(EHDR_BYTES);
    ok := r == EHDR_BYTES && GoodHeader(b);
  }

  /** The seek and read of one program header in elfloader_load_all. */
  method GetEntry(file: Smem.KernelFile, b: seq<Byte>, i: nat) returns (ok: bool, h: Header)
    requires file.Valid() && HeaderOk(Smem.Content(file.file)) && b == Smem.Content(file.file)[..EHDR_BYTES]
    modifies file
    ensures file.Valid() && (ok <==> Readable(Smem.Content(file.file), i))
    ensures ok ==> h == EntryAt(Smem.Content(file.file), i)
  {
    hide Smem.Content, Smem.WellFormed, GoodHeader, EntryOf, WordAt, AsOffset;
    var r := file.Lseek(AsOffset(PhOff(b) + i * PHDR_BYTES), Smem.SeekSet);
    var n, e := file.Read(PHDR_BYTES);
    ok := n == PHDR_BYTES;
    h := if ok then EntryOf(e) else Header(0, 0, 0, 0, 0, 0);
  }

  /** The same in elf_load_kernel, right after smem_open. */
  method BootHeader(file: Smem.BootFile) returns (ok: bool, b: seq<Byte>)
    requires file.Valid() && file.pos == 0
    modifies file
    ensures file.Valid() && (ok <==> HeaderOk(Smem.Content(file.file)))
    ensures ok ==> b == Smem.Content(file.file)[..EHDR_BYTES]
  {
    hide Smem.Content, Smem.WellFormed, GoodHeader;
    var r;
    r, b := file.Read(EHDR_BYTES);
    ok := r == EHDR_BYTES && GoodHeader(b);
  }

  method BootEntry(file: Smem.BootFile, b: seq<Byte>, i: nat) returns (ok: bool, h: Header)
    requires file.Valid() && HeaderOk(Smem.Content(file.file)) && b == Smem.Content(file.file)[..EHDR_BYTES]
    modifies file
    ensures file.Valid() && (ok <==> Readable(Smem.Content(file.file), i))
    ensures ok ==> h == EntryAt(Smem.Content(file.file), i)
  {
    hide Smem.Content, Smem.WellFormed, GoodHeader, EntryOf, WordAt, AsOffset;
    var r := file.Seek(AsOffset(PhOff(b) + i * PHDR_BYTES), Smem.SeekSet);
    var n, e := file.Read(PHDR_BYTES);
    ok := n == PHDR_BYTES;
    h := if ok then EntryOf(e) else Header(0, 0, 0, 0, 0, 0);
  }

  // ---- writing them -----------------------------------------------------------------------------------

  predicate Fits(h: Header) {
    && h.kind < Smem.WORD && h.offset < Smem.WORD && h.vaddr < Smem.WORD
    && h.paddr < Smem.WORD && h.filesz < Smem.WORD && h.memsz < Smem.WORD
  }

  predicate Writable(hs: seq<Header>) { |hs| < 0x1_0000 && forall i :: 0 <= i < |hs| ==> Fits(hs[i]) }

  function EntryBytes(h: Header): (b: seq<Byte>)
    requires Fits(h)
    ensures |b| == PHDR_BYTES
  {
    WordToBytes(h.kind) + WordToBytes(h.offset) + WordToBytes(h.vaddr) + WordToBytes(h.paddr)
    + WordToBytes(h.filesz) + WordToBytes(h.memsz) + Zeros(8)
  }

  /** Byte i of an ELF header for n entries that follow it. */
  function HeaderByte(n: nat, i: nat): Byte
    requires n < 0x1_0000
  {
    match i
    case 0 => 0x7F
    case 1 => 0x45
    case 2 => 0x4C
    case 3 => 0x46
    case 4 => 1
    case 5 => 2
    case 6 => 1
    case 17 => 2
    case 19 => 42
    case 23 => 1
    case 31 => EHDR_BYTES
    case 41 => EHDR_BYTES
    case 43 => PHDR_BYTES
    case 44 => n / 256
    case 45 => n % 256
    case _ => 0
  }

  function HeaderBytes(n: nat): (b: seq<Byte>)
    requires n < 0x1_0000
    ensures |b| == EHDR_BYTES
    ensures forall i :: 0 <= i < EHDR_BYTES ==> b[i] == HeaderByte(n, i)
  {
    seq(EHDR_BYTES, i requires 0 <= i < EHDR_BYTES => HeaderByte(n, i))
  }

  function EntriesBytes(hs: seq<Header>): (b: seq<Byte>)
    requires forall i :: 0 <= i < |hs| ==> Fits(hs[i])
    ensures |b| == |hs| * PHDR_BYTES
  {
    if hs == [] then [] else EntryBytes(hs[0]) + EntriesBytes(hs[1..])
  }

  function FileBytes(hs: seq<Header>): (b: seq<Byte>)
    requires Writable(hs)
    ensures |b| == EHDR_BYTES + |hs| * PHDR_BYTES
  {
    HeaderBytes(|hs|) + EntriesBytes(hs)
  }

  lemma EntryRoundTrip(h: Header)
    requires Fits(h)
    ensures EntryOf(EntryBytes(h)) == h
  {
    hide WordToBytes, BytesToWord;
    var b := EntryBytes(h);
    assert b[0..4] == WordToBytes(h.kind) && b[4..8] == WordToBytes(h.offset) && b[8..12] == WordToBytes(h.vaddr);
    assert b[12..16] == WordToBytes(h.paddr) && b[16..20] == WordToBytes(h.filesz) && b[20..24] == WordToBytes(h.memsz);
    WordRoundTrip(h.kind);
    WordRoundTrip(h.offset);
    WordRoundTrip(h.vaddr);
    WordRoundTrip(h.paddr);
    WordRoundTrip(h.filesz);
    WordRoundTrip(h.memsz);
  }

  lemma HeaderRoundTrip(n: nat)
    requires n < 0x1_0000
    ensures var b := HeaderBytes(n); GoodHeader(b) && PhOff(b) == EHDR_BYTES && PhNum(b) == n
  {
  }

  lemma {:induction false} EntriesSlice(hs: seq<Header>, i: nat)
    requires i < |hs| && forall k :: 0 <= k < |hs| ==> Fits(hs[k])
    ensures EntriesBytes(hs)[i * PHDR_BYTES..(i + 1) * PHDR_BYTES] == EntryBytes(hs[i])
  {
    hide EntryBytes, Fits;
    var e, rest := EntryBytes(hs[0]), EntriesBytes(hs[1..]);
    assert EntriesBytes(hs) == e + rest;
    if i > 0 {
      EntriesSlice(hs[1..], i - 1);
      assert (e + rest)[i * PHDR_BYTES..(i + 1) * PHDR_BYTES] == rest[(i - 1) * PHDR_BYTES..i * PHDR_BYTES];
    } else {
      assert (e + rest)[0..PHDR_BYTES] == e;
    }
  }

  /** Headers written in front of anything are the headers read. */
  lemma FileRoundTrip(hs: seq<Header>, rest: seq<Byte>)
    requires Writable(hs)
    ensures Complete(FileBytes(hs) + rest) && Headers(FileBytes(hs) + rest) == hs
  {
    hide GoodHeader, EntryOf, EntryBytes, HeaderBytes, EntriesBytes, Fits, PhOff, PhNum, Readable, EntryAt, Headers;
    var c := FileBytes(hs) + rest;
    assert c[..EHDR_BYTES] == HeaderBytes(|hs|);
    HeaderRoundTrip(|hs|);
    assert HeaderOk(c) && Count(c) == |hs|;
    forall i | 0 <= i < |hs| ensures Readable(c, i) && EntryAt(c, i) == hs[i] { EntryReadsBack(hs, rest, i); }
    HeadersExact(c);
  }

  lemma EntryReadsBack(hs: seq<Header>, rest: seq<Byte>, i: nat)
    requires Writable(hs) && i < |hs| && HeaderOk(FileBytes(hs) + rest)
    ensures Readable(FileBytes(hs) + rest, i) && EntryAt(FileBytes(hs) + rest, i) == hs[i]
  {
    hide GoodHeader, EntryOf, EntryBytes, HeaderBytes, EntriesBytes, Fits, PhOff, PhNum;
    var c, entries := FileBytes(hs) + rest, EntriesBytes(hs);
    assert c[..EHDR_BYTES] == HeaderBytes(|hs|);
    HeaderRoundTrip(|hs|);
    var p := EHDR_BYTES + i * PHDR_BYTES;
    assert AsOffset(p) == p;
    assert Place(c, i) == p;
    EntriesSlice(hs, i);
    assert c[p..p + PHDR_BYTES] == entries[i * PHDR_BYTES..(i + 1) * PHDR_BYTES];
    EntryRoundTrip(hs[i]);
  }
}
