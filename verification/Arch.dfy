/** Pages, frames and address arithmetic of the SH3 port
    (arch/sh/include/arch/memory.h and the macros of sys/memory.h). */
module Arch {

  const PAGE_BYTES := 1024       // PM_PAGE_BYTES
  const DIR_PAGES := 32          // MEM_DIRECTORY_PAGES
  const P1_BASE := 0x8000_0000   // cached, not translated
  const PPN_LIMIT := 0x8_0000    // 29-bit physical addresses
  const VPN_LIMIT := 0x40_0000   // 32-bit virtual addresses

  const STACK_TOP := 0x4000_0000 // ARCH_UNEWPROC_DEFAULT_STACK
  const STACK_VPN := STACK_TOP / PAGE_BYTES
  const ARG_MAX_PAGES := 4       // PROCESS_ARG_MAX_PAGES
  const PROC_MAX := 100          // CONFIG_PROC_MAX
  const NULL := 0

  datatype Option<T> = None | Some(value: T)

  type Byte = x: int | 0 <= x < 256

  /** The contents of one page of physical memory. */
  type Frame = s: seq<Byte> | |s| == PAGE_BYTES witness seq(PAGE_BYTES, i => 0)

  // ---- linked lists, as the sequence of their addresses -----------------------

  ghost predicate NoDuplicates(s: seq<nat>) {
    forall i, j :: 0 <= i < j < |s| ==> s[i] != s[j]
  }

  ghost function AddressAt(order: seq<nat>, i: int): nat {
    if 0 <= i < |order| then order[i] else NULL
  }

  // ---- bytes ------------------------------------------------------------------

  function Zeros(n: nat): (s: seq<Byte>)
    ensures |s| == n
    ensures forall i :: 0 <= i < n ==> s[i] == 0
  {
    seq(n, i => 0)
  }

  /** Memory after a copy of data to address at. */
  ghost function Overwritten(mem: seq<Byte>, at: nat, data: seq<Byte>): (r: seq<Byte>)
    requires at + |data| <= |mem|
    ensures |r| == |mem|
    ensures forall i :: 0 <= i < |mem| ==> r[i] == if at <= i < at + |data| then data[i - at] else mem[i]
  {
    mem[..at] + data + mem[at + |data|..]
  }

  lemma SliceOfSlice(s: seq<Byte>, lo: nat, hi: nat, from: nat, to: nat)
    requires from <= to && lo + to <= hi <= |s|
    ensures s[lo..hi][from..to] == s[lo + from..lo + to]
  {
    var a, b := s[lo..hi][from..to], s[lo + from..lo + to];
    assert |a| == |b| && forall i :: 0 <= i < |a| ==> a[i] == s[lo..hi][from + i] == s[lo + from + i] == b[i];
  }

  // ---- 32-bit big-endian words in memory ------------------------------------

  function WordToBytes(w: nat): (s: seq<Byte>)
    requires w < 0x1_0000_0000
    ensures |s| == 4
  {
    [w / 0x100_0000, w / 0x1_0000 % 256, w / 0x100 % 256, w % 256]
  }

  function BytesToWord(s: seq<Byte>): (w: nat)
    requires |s| == 4
    ensures w < 0x1_0000_0000
  {
    var a: int, b: int, c: int, d: int := s[0], s[1], s[2], s[3];
    a * 0x100_0000 + b * 0x1_0000 + c * 0x100 + d
  }

  lemma WordRoundTrip(w: nat)
    requires w < 0x1_0000_0000
    ensures BytesToWord(WordToBytes(w)) == w
  {
    var a, b, c := w / 0x100, w / 0x1_0000, w / 0x100_0000;
    assert w == a * 0x100 + w % 0x100;
    assert a == b * 0x100 + a % 0x100;
    assert b == c * 0x100 + b % 0x100;
  }

  lemma BytesRoundTrip(s: seq<Byte>)
    requires |s| == 4
    ensures WordToBytes(BytesToWord(s)) == s
  {
    var a: int, b: int, c: int, d: int := s[0], s[1], s[2], s[3];
    var w := BytesToWord(s);
    assert w / 0x100 == a * 0x1_0000 + b * 0x100 + c && w % 0x100 == d;
    assert w / 0x1_0000 == a * 0x100 + b && w / 0x100 % 0x100 == c;
    assert w / 0x100_0000 == a && w / 0x1_0000 % 0x100 == b;
    assert WordToBytes(w) == [s[0], s[1], s[2], s[3]];
  }

  // ---- physical addresses ----------------------------------------------------

  /** Address of a physical page in the P1 section. */
  function P1Address(ppn: nat): (a: nat)
    requires ppn < PPN_LIMIT
    ensures P1_BASE <= a < P1_BASE + 0x2000_0000
  {
    P1_BASE + ppn * PAGE_BYTES
  }

  /** PM_PHYSICAL_PAGE: the three top address bits are dropped. */
  function PhysicalPage(address: nat): (ppn: nat)
    ensures ppn < PPN_LIMIT
  {
    address % 0x2000_0000 / PAGE_BYTES
  }

  lemma PhysicalPageOfP1(ppn: nat)
    requires ppn < PPN_LIMIT
    ensures PhysicalPage(P1Address(ppn)) == ppn
  {
    var a := P1Address(ppn);
    assert a == 4 * 0x2000_0000 + ppn * PAGE_BYTES;
    assert a % 0x2000_0000 == ppn * PAGE_BYTES;
  }

  // ---- virtual addresses -------------------------------------------------------

  /** MEM_ADDRESS_DIRECTORY and MEM_ADDRESS_INDEX, on page numbers. */
  function DirOf(vpn: nat): nat { vpn / DIR_PAGES }

  function IndexOf(vpn: nat): (k: nat) ensures k < DIR_PAGES { vpn % DIR_PAGES }

  /** MEM_PAGE_ADDRESS, as a page number. */
  function Vpn(dir: nat, index: nat): nat { dir * DIR_PAGES + index }

  /** Splitting a page number into directory and index and joining them are inverse. */
  lemma SplitJoin(vpn: nat, dir: nat, index: nat)
    ensures Vpn(DirOf(vpn), IndexOf(vpn)) == vpn
    ensures index < DIR_PAGES ==> DirOf(Vpn(dir, index)) == dir && IndexOf(Vpn(dir, index)) == index
  {
  }
}
