/** Fragmented files of the SMEM flash file system and their two readers: the cursor of the
    bootloader (bootloader/smem_file.c) and the offset reader of the kernel
    (fs/casio_smemfs/file.c), over smemfs_primitives_ng.c. */
module Smem {
  import opened Arch

  /** An entry of the block table that carries the table's magic byte. */
  datatype Block = Block(id: nat, relOffset: nat)

  /** struct smemfs_frag_header; dataSize is one less than the number of bytes. */
  datatype FragHeader = FragHeader(total: nat, blockId: nat, offset: nat, dataSize: nat)

  /** A file entry: its header's type, the fragment headers found in flash from the one after the
      file header on (those past the last fragment belong to whatever follows), the block table
      and the flash itself. */
  datatype File = File(isDir: bool, headers: seq<FragHeader>, blocks: seq<Block>, flash: seq<Byte>)

  // ---- primitives ----------------------------------------------------------------

  /** smemfs_prim_get_frag_num. */
  function FragNum(f: File): nat
    requires f.headers != []
  {
    if f.isDir then 0 else f.headers[0].total
  }

  /** The first block table entry with this id, looking from k on; the table's length if none. */
  ghost function BlockIndex(blocks: seq<Block>, id: nat, k: nat): (r: nat)
    requires k <= |blocks|
    ensures k <= r <= |blocks|
    ensures r < |blocks| ==> blocks[r].id == id
    ensures forall j :: k <= j < r ==> blocks[j].id != id
    decreases |blocks| - k
  {
    if k == |blocks| || blocks[k].id == id then k else BlockIndex(blocks, id, k + 1)
  }

  /** Where the data of fragment i starts in flash. */
  ghost function FragStart(f: File, i: nat): nat
    requires i < |f.headers|
  {
    var k := BlockIndex(f.blocks, f.headers[i].blockId, 0);
    if k < |f.blocks| then f.blocks[k].relOffset + f.headers[i].offset else |f.flash|
  }

  /** Every fragment has its block, its data is in flash, and flash goes on after the last header. */
  ghost predicate WellFormed(f: File) {
    && f.headers != [] && FragNum(f) < |f.headers|
    && forall i :: 0 <= i < FragNum(f) ==> FragStart(f, i) + f.headers[i].dataSize + 1 <= |f.flash|
  }

  ghost function FragBytes(f: File, i: nat): (data: seq<Byte>)
    requires WellFormed(f) && i < FragNum(f)
    ensures |data| == f.headers[i].dataSize + 1
  {
    f.flash[FragStart(f, i)..FragStart(f, i) + f.headers[i].dataSize + 1]
  }

  /** The first n fragments end to end. */
  ghost function Prefix(f: File, n: nat): (s: seq<Byte>)
    requires WellFormed(f) && n <= FragNum(f)
  {
    if n == 0 then [] else Prefix(f, n - 1) + FragBytes(f, n - 1)
  }

  /** The flat file. */
  ghost function Content(f: File): seq<Byte>
    requires WellFormed(f)
  {
    Prefix(f, FragNum(f))
  }

  lemma {:induction false} PrefixOf(f: File, m: nat, n: nat)
    requires WellFormed(f) && m <= n <= FragNum(f)
    ensures |Prefix(f, m)| <= |Prefix(f, n)|
    ensures Prefix(f, n)[..|Prefix(f, m)|] == Prefix(f, m)
    ensures m < n ==> |Prefix(f, m)| < |Prefix(f, n)|
  {
    if m < n {
      assert Prefix(f, n) == Prefix(f, n - 1) + FragBytes(f, n - 1);
      hide Prefix, WellFormed, FragBytes;
      PrefixOf(f, m, n - 1);
    }
  }

  lemma SliceOfPrefix(all: seq<Byte>, base: seq<Byte>, data: seq<Byte>, from: nat, to: nat)
    requires |base| + |data| <= |all| && all[..|base| + |data|] == base + data && from <= to <= |data|
    ensures all[|base| + from..|base| + to] == data[from..to]
  {
    assert all[|base| + from..|base| + to] == all[..|base| + |data|][|base| + from..|base| + to];
  }

  /** A stretch of fragment i is the stretch of the flat file at its place. */
  lemma FragSlice(f: File, i: nat, from: nat, to: nat)
    requires WellFormed(f) && i < FragNum(f) && from <= to <= |FragBytes(f, i)|
    ensures |Prefix(f, i)| + to <= |Content(f)|
    ensures Content(f)[|Prefix(f, i)| + from..|Prefix(f, i)| + to] == FragBytes(f, i)[from..to]
  {
    var base, data, all := PlaceOf(f, i);
    hide Prefix, WellFormed, FragBytes, Content;
    SliceOfPrefix(all, base, data, from, to);
  }

  lemma PlaceOf(f: File, i: nat) returns (base: seq<Byte>, data: seq<Byte>, all: seq<Byte>)
    requires WellFormed(f) && i < FragNum(f)
    ensures base == Prefix(f, i) && data == FragBytes(f, i) && all == Content(f)
    ensures |base| + |data| <= |all| && all[..|base| + |data|] == base + data
  {
    base, data, all := Prefix(f, i), FragBytes(f, i), Content(f);
    PrefixOf(f, i + 1, FragNum(f));
  }

  /** smemfs_prim_get_file_size. */
  method FileSize(f: File) returns (size: nat)
    requires WellFormed(f)
    ensures size == |Content(f)|
  {
    size := 0;
    for i := 0 to FragNum(f)
      invariant size == |Prefix(f, i)|
    {
      size := size + f.headers[i].dataSize + 1;
    }
  }

  /** smemfs_prim_get_block_header: the first entry with this id. */
  method BlockHeader(f: File, id: nat) returns (k: nat)
    ensures k == BlockIndex(f.blocks, id, 0)
  {
    k := 0;
    while k < |f.blocks| && f.blocks[k].id != id
      invariant k <= |f.blocks|
      invariant BlockIndex(f.blocks, id, 0) == BlockIndex(f.blocks, id, k)
    {
      k := k + 1;
    }
  }

  /** memcpy from smemfs_prim_get_frag_data(frag) + from. */
  method CopyFromFrag(f: File, i: nat, from: nat, count: nat) returns (data: seq<Byte>)
    requires WellFormed(f) && i < FragNum(f) && from + count <= f.headers[i].dataSize + 1
    ensures data == FragBytes(f, i)[from..from + count]
  {
    var h := f.headers[i];
    var k := BlockHeader(f, h.blockId);
    var at := f.blocks[k].relOffset + h.offset;
    data := f.flash[at + from..at + from + count];
    SliceOfSlice(f.flash, at, at + h.dataSize + 1, from, from + count);
  }

  // ---- the cursor invariant -----------------------------------------------------------

  /** pos is fragPos bytes into fragment frag; at the end of the file it is at the start of the
      header that follows the last fragment. */
  ghost predicate CursorAt(f: File, pos: nat, frag: nat, fragPos: nat)
    requires WellFormed(f)
  {
    && frag <= FragNum(f)
    && pos == |Prefix(f, frag)| + fragPos
    && if frag < FragNum(f) then fragPos <= f.headers[frag].dataSize else fragPos == 0
  }

  lemma CursorInFile(f: File, pos: nat, frag: nat, fragPos: nat)
    requires WellFormed(f) && CursorAt(f, pos, frag, fragPos)
    ensures pos <= |Content(f)|
    ensures frag < FragNum(f) <==> pos < |Content(f)|
  {
    PrefixOf(f, frag, FragNum(f));
    if frag < FragNum(f) {
      PrefixOf(f, frag + 1, FragNum(f));
    }
  }

  lemma CursorFields(f: File, pos: nat, frag: nat, fragPos: nat)
    requires WellFormed(f) && CursorAt(f, pos, frag, fragPos) && pos < |Content(f)|
    ensures frag < FragNum(f) < |f.headers| && fragPos <= f.headers[frag].dataSize
    ensures pos == |Prefix(f, frag)| + fragPos && |FragBytes(f, frag)| == f.headers[frag].dataSize + 1
  {
    CursorInFile(f, pos, frag, fragPos);
  }

  /** Reading n bytes of the current fragment moves the cursor, into the next one at its end. */
  lemma CursorMoves(f: File, pos: nat, frag: nat, fragPos: nat, n: nat)
    requires WellFormed(f) && CursorAt(f, pos, frag, fragPos) && frag < FragNum(f)
    requires fragPos + n <= f.headers[frag].dataSize + 1
    ensures if fragPos + n == f.headers[frag].dataSize + 1 then CursorAt(f, pos + n, frag + 1, 0)
            else CursorAt(f, pos + n, frag, fragPos + n)
  {
    assert Prefix(f, frag + 1) == Prefix(f, frag) + FragBytes(f, frag);
  }

  /** The loop that looks for the fragment of a position. It may look at the header after the
      last fragment, never further. */
  method Locate(f: File, pos: nat) returns (frag: nat, fragPos: nat)
    requires WellFormed(f) && pos <= |Content(f)|
    ensures CursorAt(f, pos, frag, fragPos)
  {
    var before := 0;
    frag := 0;
    while before + f.headers[frag].dataSize + 1 <= pos
      invariant frag <= FragNum(f) && before == |Prefix(f, frag)| <= pos
      decreases FragNum(f) - frag
    {
      assert frag < FragNum(f);
      before := before + f.headers[frag].dataSize + 1;
      frag := frag + 1;
    }
    fragPos := pos - before;
  }

  /** The copying loop shared by the two readers: count bytes from the cursor on. */
  method ReadFrom(f: File, pos: nat, count: nat, frag0: nat, fragPos0: nat)
    returns (dest: seq<Byte>, frag: nat, fragPos: nat)
    requires WellFormed(f) && CursorAt(f, pos, frag0, fragPos0) && pos + count <= |Content(f)|
    ensures dest == Content(f)[pos..pos + count]
    ensures CursorAt(f, pos + count, frag, fragPos)
  {
    hide WellFormed, Prefix, FragBytes, CursorAt;
    frag, fragPos := frag0, fragPos0;
    dest := [];
    var j, n := pos, pos + count;
    while j < n
      invariant pos <= j <= n
      invariant CursorAt(f, j, frag, fragPos)
      invariant dest == Content(f)[pos..j]
      decreases n - j
    {
      CursorInFile(f, j, frag, fragPos);
      CursorFields(f, j, frag, fragPos);
      var chunk := f.headers[frag].dataSize + 1 - fragPos;
      var toread := if j + chunk < n then chunk else n - j;
      var data := CopyFromFrag(f, frag, fragPos, toread);
      FragSlice(f, frag, fragPos, fragPos + toread);
      assert Content(f)[pos..j] + Content(f)[j..j + toread] == Content(f)[pos..j + toread];
      CursorMoves(f, j, frag, fragPos, toread);
      dest := dest + data;
      j := j + toread;
      if toread == chunk {
        fragPos := 0;
        frag := frag + 1;
      } else {
        fragPos := fragPos + toread;
      }
    }
  }

  // ---- seeking -------------------------------------------------------------------------

  datatype Whence = SeekSet | SeekCur | SeekEnd

  const WORD := 0x1_0000_0000

  /** The position computed by smem_seek and by smemfs_lseek. -offset is compared as an unsigned
      32-bit number. */
  function SeekTarget(size: nat, pos: nat, offset: int, whence: Whence): (r: nat)
    ensures r <= size
  {
    var target: nat := match whence
      case SeekEnd => if (-offset) % WORD > size then 0 else (size + offset) % WORD
      case SeekCur => if (-offset) % WORD > pos then 0 else (pos + offset) % WORD
      case SeekSet => if offset < 0 then 0 else offset;
    if target > size then size else target
  }

  function Clamp(x: int, size: nat): (r: nat) {
    if x < 0 then 0 else if x > size then size else x
  }

  /** What lseek is for: the base plus the offset, kept inside the file. */
  function SeekMeaning(size: nat, pos: nat, offset: int, whence: Whence): (r: nat) {
    Clamp(offset + (match whence case SeekSet => 0 case SeekCur => pos case SeekEnd => size), size)
  }

  /** Seeking does what it is for exactly when the base is the start of the file, or the offset is
      not forward, or the file is empty; every other forward seek goes to the start of the file. */
  lemma SeekExact(size: nat, pos: nat, offset: int, whence: Whence)
    requires pos <= size < 0x8000_0000 && -0x8000_0000 <= offset < 0x8000_0000
    ensures SeekTarget(size, pos, offset, whence) == SeekMeaning(size, pos, offset, whence)
            <==> whence == SeekSet || offset <= 0 || size == 0
    ensures whence != SeekSet && offset > 0 ==> SeekTarget(size, pos, offset, whence) == 0
  {
    if offset > 0 {
      assert (-offset) % WORD == WORD - offset;
    } else if offset < 0 {
      assert (-offset) % WORD == -offset;
      assert size + offset >= 0 ==> (size + offset) % WORD == size + offset;
    }
  }

  /** A forward seek from the current position that goes backward. */
  lemma ForwardSeekGoesToStart()
    ensures SeekTarget(100, 10, 5, SeekCur) == 0 && SeekMeaning(100, 10, 5, SeekCur) == 15
  {
  }

  /** A file in one fragment. */
  function OnePiece(c: seq<Byte>): File
    requires c != []
  {
    File(false, [FragHeader(1, 0, 0, |c| - 1), FragHeader(0, 0, 0, 0)], [Block(0, 0)], c)
  }

  lemma OnePieceContent(c: seq<Byte>)
    requires c != []
    ensures WellFormed(OnePiece(c)) && Content(OnePiece(c)) == c
  {
    var f := OnePiece(c);
    assert FragStart(f, 0) == 0 && FragBytes(f, 0) == c;
    assert Prefix(f, 1) == Prefix(f, 0) + FragBytes(f, 0);
  }

  // ---- the bootloader's reader ------------------------------------------------------------

  class BootFile {
    const file: File
    var pos: nat
    var size: nat
    var curFrag: nat
    var fragPos: nat

    ghost predicate Valid()
      reads this
    {
      && WellFormed(file)
      && size == |Content(file)|
      && CursorAt(file, pos, curFrag, fragPos)
    }

    /** The part of smem_open that fills the structure. */
    constructor (f: File)
      requires WellFormed(f)
      ensures Valid() && file == f && pos == 0
    {
      file := f;
      pos, curFrag, fragPos := 0, 0, 0;
      var s := FileSize(f);
      size := s;
    }

    /** smem_seek. */
    method Seek(offset: int, whence: Whence) returns (r: nat)
      requires Valid()
      modifies this
      ensures Valid() && size == old(size)
      ensures r == pos == SeekTarget(size, old(pos), offset, whence)
    {
      pos := SeekTarget(size, pos, offset, whence);
      curFrag, fragPos := Locate(file, pos);
      r := pos;
    }

    /** smem_read. */
    method Read(len: nat) returns (r: int, dest: seq<Byte>)
      requires Valid()
      modifies this
      ensures Valid() && size == old(size)
      ensures (r, dest, pos) == BootRead(Content(file), old(pos), len)
    {
      if pos >= size {
        r, dest := -1, [];
      } else {
        var count := if size - pos < len then size - pos else len;
        dest, curFrag, fragPos := ReadFrom(file, pos, count, curFrag, fragPos);
        pos := pos + count;
        r := count;
      }
    }

    /** smem_readchar. */
    method ReadChar() returns (r: int)
      requires Valid()
      modifies this
      ensures Valid() && size == old(size)
      ensures old(pos) < size ==> r == Content(file)[old(pos)] && pos == old(pos) + 1
      ensures old(pos) >= size ==> r == -1 && pos == old(pos)
    {
      CursorInFile(file, pos, curFrag, fragPos);
      if pos >= size {
        r := -1;
      } else {
        var c := CopyFromFrag(file, curFrag, fragPos, 1);
        FragSlice(file, curFrag, fragPos, fragPos + 1);
        assert c[0] == Content(file)[pos..pos + 1][0];
        fragPos := fragPos + 1;
        if fragPos > file.headers[curFrag].dataSize {
          fragPos := 0;
          curFrag := curFrag + 1;
        }
        pos := pos + 1;
        r := c[0];
      }
    }
  }

  // ---- the kernel's reader ------------------------------------------------------------------

  /** smemfs_read_data, for positions inside the file. */
  method ReadData(f: File, len: nat, atpos: nat) returns (r: nat, dest: seq<Byte>)
    requires WellFormed(f) && atpos <= |Content(f)|
    ensures r == if |Content(f)| - atpos < len then |Content(f)| - atpos else len
    ensures dest == Content(f)[atpos..atpos + r]
  {
    var size := FileSize(f);
    r := if size - atpos < len then size - atpos else len;
    var frag, fragPos := Locate(f, atpos);
    dest, frag, fragPos := ReadFrom(f, atpos, r, frag, fragPos);
  }

  class KernelFile {
    const file: File
    var pos: nat

    ghost predicate Valid()
      reads this
    {
      WellFormed(file) && pos <= |Content(file)|
    }

    constructor (f: File)
      requires WellFormed(f)
      ensures Valid() && file == f && pos == 0
    {
      file, pos := f, 0;
    }

    /** smemfs_lseek. */
    method Lseek(offset: int, whence: Whence) returns (r: nat)
      requires Valid()
      modifies this
      ensures Valid()
      ensures r == pos == SeekTarget(|Content(file)|, old(pos), offset, whence)
    {
      var size := FileSize(file);
      pos := SeekTarget(size, pos, offset, whence);
      r := pos;
    }

    /** smemfs_read, on a regular file opened for reading. */
    method Read(len: nat) returns (r: int, dest: seq<Byte>)
      requires Valid()
      modifies this
      ensures Valid()
      ensures (r, dest, pos) == KernelRead(Content(file), old(pos), len)
    {
      if len == 0 {
        r, dest := 0, [];
        assert Content(file)[pos..pos] == [];
      } else {
        r, dest := ReadData(file, len, pos);
        if r > 0 {
          pos := pos + r;
        }
      }
    }
  }

  // ---- the two readers agree ---------------------------------------------------------------------

  /** Result, bytes and new position of a read by the bootloader. */
  ghost function BootRead(content: seq<Byte>, pos: nat, len: nat): (int, seq<Byte>, nat) {
    if pos >= |content| then (-1, [], pos) else
    var count := if |content| - pos < len then |content| - pos else len;
    (count, content[pos..pos + count], pos + count)
  }

  /** Result, bytes and new position of a read by the kernel. */
  ghost function KernelRead(content: seq<Byte>, pos: nat, len: nat): (int, seq<Byte>, nat)
    requires pos <= |content|
  {
    var count := if |content| - pos < len then |content| - pos else len;
    (count, content[pos..pos + count], pos + count)
  }

  /** ReadOne is smem_readchar in the bootloader, a read of one byte in the kernel. */
  datatype Command = Seek(offset: int, whence: Whence) | Read(len: nat) | ReadOne

  /** The bytes delivered and the final position of a run of each reader. */
  ghost function BootRun(content: seq<Byte>, pos: nat, cs: seq<Command>): (seq<Byte>, nat)
    decreases |cs|
  {
    if cs == [] then ([], pos) else
    match cs[0]
    case Seek(o, w) => BootRun(content, SeekTarget(|content|, pos, o, w), cs[1..])
    case Read(len) =>
      var r := BootRead(content, pos, len);
      var rest := BootRun(content, r.2, cs[1..]);
      (r.1 + rest.0, rest.1)
    case ReadOne =>
      if pos >= |content| then BootRun(content, pos, cs[1..]) else
      var rest := BootRun(content, pos + 1, cs[1..]);
      ([content[pos]] + rest.0, rest.1)
  }

  ghost function KernelRun(content: seq<Byte>, pos: nat, cs: seq<Command>): (seq<Byte>, nat)
    requires pos <= |content|
    decreases |cs|
  {
    if cs == [] then ([], pos) else
    match cs[0]
    case Seek(o, w) => KernelRun(content, SeekTarget(|content|, pos, o, w), cs[1..])
    case Read(len) =>
      var r := KernelRead(content, pos, len);
      var rest := KernelRun(content, r.2, cs[1..]);
      (r.1 + rest.0, rest.1)
    case ReadOne =>
      var r := KernelRead(content, pos, 1);
      var rest := KernelRun(content, r.2, cs[1..]);
      (r.1 + rest.0, rest.1)
  }

  /** On any mix of seeks and reads the two readers deliver the same bytes and end at the same place. */
  lemma {:induction false} ReadersAgree(content: seq<Byte>, pos: nat, cs: seq<Command>)
    requires pos <= |content|
    ensures BootRun(content, pos, cs) == KernelRun(content, pos, cs)
    decreases |cs|
  {
    if cs != [] {
      match cs[0]
      case Seek(o, w) => ReadersAgree(content, SeekTarget(|content|, pos, o, w), cs[1..]);
      case Read(len) =>
        assert pos == |content| ==> content[pos..pos] == [];
        ReadersAgree(content, BootRead(content, pos, len).2, cs[1..]);
      case ReadOne =>
        if pos < |content| {
          assert content[pos..pos + 1] == [content[pos]];
          ReadersAgree(content, pos + 1, cs[1..]);
        } else {
          assert content[pos..pos] == [];
          ReadersAgree(content, pos, cs[1..]);
          var rest := KernelRun(content, pos, cs[1..]);
          assert [] + rest.0 == rest.0;
        }
    }
  }

  /** Reads without a seek deliver one contiguous stretch of the flat file. */
  lemma {:induction false} ReadsAreContiguous(content: seq<Byte>, pos: nat, cs: seq<Command>)
    requires pos <= |content| && forall i :: 0 <= i < |cs| ==> !cs[i].Seek?
    ensures var r := KernelRun(content, pos, cs);
            pos <= r.1 <= |content| && r.0 == content[pos..r.1]
    decreases |cs|
  {
    if cs != [] {
      var r := KernelRead(content, pos, if cs[0].Read? then cs[0].len else 1);
      ReadsAreContiguous(content, r.2, cs[1..]);
      var last := KernelRun(content, r.2, cs[1..]).1;
      assert content[pos..r.2] + content[r.2..last] == content[pos..last];
    }
  }
}
