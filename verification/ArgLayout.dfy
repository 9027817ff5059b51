/** The argument and environment arrays of execve, copied to the pages at the top of the new
    stack (copy_arg_array in sys/process.c). */
module ArgLayout {
  import opened Arch

  const SPACE := ARG_MAX_PAGES * PAGE_BYTES

  /** A C string with its final NUL, and no other. */
  ghost predicate CString(s: seq<Byte>) {
    0 < |s| && s[|s| - 1] == 0 && forall i :: 0 <= i < |s| - 1 ==> s[i] != 0
  }

  // ---- positions -----------------------------------------------------------------------
  // A stack position counts bytes down from the top of the stack; page 0 is the topmost page.
  // Flat memory is the four pages in address order, so position p is flat index SPACE - p.

  /** Position of the lowest byte of the pointer array: n pointers and a NULL, below begin. */
  function ArrayPos(begin: nat, n: nat): nat { begin + 4 * (n + 1) }

  /** Position of the first byte of string k - 1, where string k ends. */
  ghost function StringPos(begin: nat, args: seq<seq<Byte>>, k: nat): (p: nat)
    requires k <= |args|
    ensures p >= ArrayPos(begin, |args|)
  {
    if k == 0 then ArrayPos(begin, |args|) else StringPos(begin, args, k - 1) + |args[k - 1]|
  }

  function Aligned(p: nat): nat { if p % 4 != 0 then p + (4 - p % 4) else p }

  // ---- the pointer cursor ----------------------------------------------------------------

  /** Page and index of pointer k, as the cursor of copy_arg_array moves: to the next higher page
      index when it leaves a page. */
  ghost function CursorSlot(begin: nat, n: nat, k: nat): (int, int) {
    var p := ArrayPos(begin, n);
    var page := (p - 1) / PAGE_BYTES;
    var at := PAGE_BYTES - (p - page * PAGE_BYTES) + 4 * k;
    (page + at / PAGE_BYTES, at % PAGE_BYTES)
  }

  /** Page and index of pointer k in the process: the array goes up in memory, to lower page indices. */
  ghost function TrueSlot(begin: nat, n: nat, k: nat): (int, int) {
    var p := ArrayPos(begin, n) - 4 * k;
    var page := (p - 1) / PAGE_BYTES;
    (page, PAGE_BYTES - (p - page * PAGE_BYTES))
  }

  /** The whole array lies in one page. */
  predicate InOnePage(begin: nat, n: nat) {
    begin / PAGE_BYTES == (ArrayPos(begin, n) - 1) / PAGE_BYTES
  }

  lemma CursorInPage(begin: nat, n: nat, k: nat)
    requires begin % 4 == 0 && InOnePage(begin, n) && k <= n
    ensures CursorSlot(begin, n, k) == TrueSlot(begin, n, k)
    ensures CursorSlot(begin, n, k).0 == begin / PAGE_BYTES
  {
    var p := ArrayPos(begin, n);
    var page := begin / PAGE_BYTES;
    var at := PAGE_BYTES - (p - page * PAGE_BYTES) + 4 * k;
    assert page * PAGE_BYTES <= begin;
    assert p - 1 < (page + 1) * PAGE_BYTES;
    assert 0 <= at < PAGE_BYTES;
    assert page * PAGE_BYTES <= p - 4 * k - 1 < (page + 1) * PAGE_BYTES;
  }

  lemma CursorOutOfPage(begin: nat, n: nat)
    requires begin % 4 == 0 && !InOnePage(begin, n)
    ensures CursorSlot(begin, n, n).0 > TrueSlot(begin, n, n).0
  {
    var p := ArrayPos(begin, n);
    var b, r := begin / PAGE_BYTES, begin % PAGE_BYTES;
    assert r % 4 == 0 && r <= PAGE_BYTES - 4 by { MultipleOf4(begin); }
    Quotient(begin + 3, b);
    assert p - 4 * n - 1 == begin + 3;
    hide InOnePage;
    assert b <= (p - 1) / PAGE_BYTES by { assert begin <= p - 1; }
  }

  lemma Quotient(x: nat, q: nat)
    requires q * PAGE_BYTES <= x < (q + 1) * PAGE_BYTES
    ensures x / PAGE_BYTES == q
  {
  }

  lemma MultipleOf4(x: nat)
    requires x % 4 == 0
    ensures x % PAGE_BYTES % 4 == 0
  {
    assert x == x / PAGE_BYTES * PAGE_BYTES + x % PAGE_BYTES;
  }

  /** The pointers go where the process will look for them exactly when the array lies in one page. */
  lemma CursorExact(begin: nat, n: nat)
    requires begin % 4 == 0
    ensures (forall k :: 0 <= k <= n ==> CursorSlot(begin, n, k) == TrueSlot(begin, n, k)) <==> InOnePage(begin, n)
  {
    hide CursorSlot, TrueSlot;
    if InOnePage(begin, n) {
      forall k | 0 <= k <= n { CursorInPage(begin, n, k); }
    } else {
      CursorOutOfPage(begin, n);
      assert CursorSlot(begin, n, n) != TrueSlot(begin, n, n);
    }
  }

  /** 256 arguments fill a page with pointers and one more: the second goes two pages too low. */
  lemma CursorLeavesArray()
    ensures CursorSlot(0, 256, 1) == (2, 0) && TrueSlot(0, 256, 1) == (0, 0)
  {
  }

  // ---- flat memory -----------------------------------------------------------------------

  ghost function Flat(frames: seq<Frame>): (r: seq<Byte>)
    requires |frames| == ARG_MAX_PAGES
    ensures |r| == SPACE
  {
    var a: seq<Byte>, b: seq<Byte>, c: seq<Byte>, d: seq<Byte> := frames[3], frames[2], frames[1], frames[0];
    a + b + c + d
  }

  lemma FlatAt(frames: seq<Frame>, page: nat, i: nat)
    requires |frames| == ARG_MAX_PAGES && page < ARG_MAX_PAGES && i < PAGE_BYTES
    ensures Flat(frames)[(3 - page) * PAGE_BYTES + i] == frames[page][i]
  {
  }

  /** A write inside one page, seen in flat memory. */
  lemma FlatPut(frames: seq<Frame>, page: nat, at: nat, data: seq<Byte>, f: Frame)
    requires |frames| == ARG_MAX_PAGES && page < ARG_MAX_PAGES && at + |data| <= PAGE_BYTES
    requires f == frames[page][..at] + data + frames[page][at + |data|..]
    ensures Flat(frames[page := f]) == Overwritten(Flat(frames), (3 - page) * PAGE_BYTES + at, data)
  {
  }

  /** The word at a stack position. */
  ghost function WordAt(flat: seq<Byte>, pos: nat): nat
    requires |flat| == SPACE && 4 <= pos <= SPACE
  {
    BytesToWord(flat[SPACE - pos..SPACE - pos + 4])
  }

  // ---- what is laid out --------------------------------------------------------------------

  /** The first k strings and their pointers are in place, and what was above begin is untouched. */
  ghost predicate Laid(flat0: seq<Byte>, flat: seq<Byte>, begin: nat, args: seq<seq<Byte>>, k: nat)
    requires k <= |args| && |flat0| == |flat| == SPACE && StringPos(begin, args, |args|) <= SPACE
  {
    && (forall j :: 0 <= j < k ==> StringAt(flat, begin, args, j))
    && (forall j :: 0 <= j < k ==> PointerAt(flat, begin, args, j))
    && flat[SPACE - begin..] == flat0[SPACE - begin..]
  }

  /** String j is at its place, final NUL included. */
  ghost predicate StringAt(flat: seq<Byte>, begin: nat, args: seq<seq<Byte>>, j: nat)
    requires j < |args| && |flat| == SPACE && StringPos(begin, args, |args|) <= SPACE
  {
    StringsFit(begin, args, j);
    var p := StringPos(begin, args, j + 1);
    flat[SPACE - p..SPACE - p + |args[j]|] == args[j]
  }

  /** Pointer j holds the address of string j. */
  ghost predicate PointerAt(flat: seq<Byte>, begin: nat, args: seq<seq<Byte>>, j: nat)
    requires j < |args| && |flat| == SPACE && StringPos(begin, args, |args|) <= SPACE
  {
    StringsFit(begin, args, j);
    WordAt(flat, ArrayPos(begin, |args|) - 4 * j) == STACK_TOP - StringPos(begin, args, j + 1)
  }

  lemma {:induction false} StringsFit(begin: nat, args: seq<seq<Byte>>, j: nat)
    requires j <= |args|
    ensures StringPos(begin, args, j) <= StringPos(begin, args, |args|)
    ensures ArrayPos(begin, |args|) <= StringPos(begin, args, j)
    ensures j < |args| ==> StringPos(begin, args, j + 1) <= StringPos(begin, args, |args|)
    decreases |args| - j
  {
    if j < |args| {
      StringsFit(begin, args, j + 1);
    }
  }

  lemma PutElsewhere(flat: seq<Byte>, at: nat, data: seq<Byte>, lo: nat, hi: nat)
    requires at + |data| <= |flat| && lo <= hi <= |flat| && (hi <= at || at + |data| <= lo)
    ensures Overwritten(flat, at, data)[lo..hi] == flat[lo..hi]
  {
  }

  lemma PutHere(flat: seq<Byte>, at: nat, data: seq<Byte>)
    requires at + |data| <= |flat|
    ensures Overwritten(flat, at, data)[at..at + |data|] == data
  {
  }

  lemma {:induction false} StringsApart(begin: nat, args: seq<seq<Byte>>, j: nat, k: nat)
    requires j <= k <= |args|
    ensures StringPos(begin, args, j) <= StringPos(begin, args, k)
    decreases k - j
  {
    if j < k {
      StringsApart(begin, args, j, k - 1);
    }
  }

  /** A write below all earlier strings, or in a later slot of the array, keeps string and pointer j. */
  lemma KeepsString(flat: seq<Byte>, at: nat, data: seq<Byte>, begin: nat, args: seq<seq<Byte>>, j: nat)
    requires j < |args| && |flat| == SPACE && StringPos(begin, args, |args|) <= SPACE && at + |data| <= SPACE
    requires StringAt(flat, begin, args, j)
    requires at + |data| <= SPACE - StringPos(begin, args, j + 1) || SPACE - ArrayPos(begin, |args|) <= at
    ensures StringAt(Overwritten(flat, at, data), begin, args, j)
  {
    StringsFit(begin, args, j);
    var q := StringPos(begin, args, j + 1);
    assert q == StringPos(begin, args, j) + |args[j]|;
    hide Overwritten;
    PutElsewhere(flat, at, data, SPACE - q, SPACE - q + |args[j]|);
  }

  lemma KeepsPointer(flat: seq<Byte>, at: nat, data: seq<Byte>, begin: nat, args: seq<seq<Byte>>, j: nat)
    requires j < |args| && |flat| == SPACE && StringPos(begin, args, |args|) <= SPACE && at + |data| <= SPACE
    requires PointerAt(flat, begin, args, j)
    requires at + |data| <= SPACE - ArrayPos(begin, |args|) || SPACE - ArrayPos(begin, |args|) + 4 * (j + 1) <= at
    ensures PointerAt(Overwritten(flat, at, data), begin, args, j)
  {
    StringsFit(begin, args, j);
    hide Overwritten, BytesToWord;
    var p := ArrayPos(begin, |args|) - 4 * j;
    PutElsewhere(flat, at, data, SPACE - p, SPACE - p + 4);
  }

  /** Copying string k below the others disturbs none of them. */
  lemma LaidString(flat0: seq<Byte>, flat: seq<Byte>, begin: nat, args: seq<seq<Byte>>, k: nat)
    requires k < |args| && |flat0| == |flat| == SPACE && StringPos(begin, args, |args|) <= SPACE
    requires Laid(flat0, flat, begin, args, k)
    ensures StringPos(begin, args, k + 1) <= SPACE
    ensures var flat1 := Overwritten(flat, SPACE - StringPos(begin, args, k + 1), args[k]);
            Laid(flat0, flat1, begin, args, k) && StringAt(flat1, begin, args, k)
  {
    StringsFit(begin, args, k);
    var p := StringPos(begin, args, k + 1);
    assert p == StringPos(begin, args, k) + |args[k]|;
    PutHere(flat, SPACE - p, args[k]);
    PutElsewhere(flat, SPACE - p, args[k], SPACE - begin, SPACE);
    var flat1 := Overwritten(flat, SPACE - p, args[k]);
    assert StringAt(flat1, begin, args, k);
    hide Overwritten, StringAt, PointerAt;
    forall j | 0 <= j < k ensures StringAt(flat1, begin, args, j) && PointerAt(flat1, begin, args, j) {
      StringsApart(begin, args, j + 1, k);
      KeepsString(flat, SPACE - p, args[k], begin, args, j);
      KeepsPointer(flat, SPACE - p, args[k], begin, args, j);
    }
  }

  /** Storing a word in slot k of the array disturbs no string and no earlier pointer. */
  lemma LaidPointer(flat0: seq<Byte>, flat: seq<Byte>, begin: nat, args: seq<seq<Byte>>, k: nat, w: nat)
    requires k <= |args| && |flat0| == |flat| == SPACE && StringPos(begin, args, |args|) <= SPACE
    requires Laid(flat0, flat, begin, args, k) && w < 0x1_0000_0000
    ensures ArrayPos(begin, |args|) - 4 * k <= SPACE
    ensures var flat1 := Overwritten(flat, SPACE - (ArrayPos(begin, |args|) - 4 * k), WordToBytes(w));
      && Laid(flat0, flat1, begin, args, k) && WordAt(flat1, ArrayPos(begin, |args|) - 4 * k) == w
      && (k < |args| && StringAt(flat, begin, args, k) ==> StringAt(flat1, begin, args, k))
  {
    StringsFit(begin, args, k);
    var at := SPACE - (ArrayPos(begin, |args|) - 4 * k);
    WordRoundTrip(w);
    hide BytesToWord, WordToBytes, StringAt, PointerAt;
    var flat1 := Overwritten(flat, at, WordToBytes(w));
    PutHere(flat, at, WordToBytes(w));
    assert flat1[at..at + 4] == WordToBytes(w);
    assert WordAt(flat1, SPACE - at) == w;
    PutElsewhere(flat, at, WordToBytes(w), SPACE - begin, SPACE);
    hide Overwritten;
    forall j | 0 <= j < k ensures StringAt(flat1, begin, args, j) && PointerAt(flat1, begin, args, j) {
      KeepsString(flat, at, WordToBytes(w), begin, args, j);
      KeepsPointer(flat, at, WordToBytes(w), begin, args, j);
    }
    if k < |args| && StringAt(flat, begin, args, k) {
      KeepsString(flat, at, WordToBytes(w), begin, args, k);
    }
  }

  // ---- the copy -----------------------------------------------------------------------------

  class ArgPages {
    var frames: seq<Frame>   // a page that is not present yet: what it will hold when it is taken
    var present: seq<bool>   // pages[i] != NULL

    ghost predicate Valid()
      reads this
    {
      |frames| == ARG_MAX_PAGES && |present| == ARG_MAX_PAGES
    }

    ghost function Memory(): (r: seq<Byte>)
      requires Valid()
      reads this
      ensures |r| == SPACE
    {
      Flat(frames)
    }

    /** The first n pages are there, and no other. */
    ghost predicate PresentUpTo(n: int)
      requires Valid()
      reads this
    {
      forall i :: 0 <= i < ARG_MAX_PAGES ==> (present[i] <==> i < n)
    }

    /** The array of page pointers starts as NULLs. */
    constructor (junk: seq<Frame>)
      requires |junk| == ARG_MAX_PAGES
      ensures Valid() && frames == junk && PresentUpTo(0)
    {
      frames := junk;
      present := [false, false, false, false];
    }

    /** memcpy into one page. */
    method CopyTo(page: nat, at: nat, data: seq<Byte>)
      requires Valid() && page < ARG_MAX_PAGES && present[page] && at + |data| <= PAGE_BYTES
      modifies `frames
      ensures Valid() && Memory() == Overwritten(old(Memory()), (3 - page) * PAGE_BYTES + at, data)
    {
      var f: Frame := frames[page][..at] + data + frames[page][at + |data|..];
      FlatPut(frames, page, at, data, f);
      frames := frames[page := f];
    }

    /** One string, with its NUL, page by page from its end. */
    method CopyString(page0: nat, at0: nat, s: seq<Byte>) returns (page: nat, at: nat)
      requires Valid() && page0 < ARG_MAX_PAGES && PresentUpTo(page0 + 1) && 0 < at0 <= PAGE_BYTES
      requires page0 * PAGE_BYTES + (PAGE_BYTES - at0) + |s| < SPACE
      modifies this
      ensures Valid() && page < ARG_MAX_PAGES && PresentUpTo(page + 1) && 0 < at <= PAGE_BYTES
      ensures page * PAGE_BYTES + (PAGE_BYTES - at) == page0 * PAGE_BYTES + (PAGE_BYTES - at0) + |s|
      ensures var p := page0 * PAGE_BYTES + (PAGE_BYTES - at0) + |s|;
              Memory() == Overwritten(old(Memory()), SPACE - p, s)
    {
      hide Overwritten, Flat;
      page, at := page0, at0;
      ghost var flat0, pos0 := Memory(), page0 * PAGE_BYTES + (PAGE_BYTES - at0);
      var done := 0;
      PutNothing(flat0, SPACE - pos0, s[|s|..]);
      while done < |s|
        invariant done <= |s| && Valid() && page < ARG_MAX_PAGES && PresentUpTo(page + 1) && 0 < at <= PAGE_BYTES
        invariant page * PAGE_BYTES + (PAGE_BYTES - at) == pos0 + done
        invariant Memory() == Overwritten(flat0, SPACE - pos0 - done, s[|s| - done..])
      {
        var frag := |s| - done;
        if frag > at {
          frag := at;
        }
        at := at - frag;
        done := done + frag;
        CopyTo(page, at, s[|s| - done..|s| - done + frag]);
        PutBelow(flat0, SPACE - pos0 - done, s[|s| - done..|s| - done + frag], s[|s| - done + frag..]);
        assert s[|s| - done..|s| - done + frag] + s[|s| - done + frag..] == s[|s| - done..];
        if at <= 0 {
          at := PAGE_BYTES;
          page := page + 1;
          if !present[page] {
            present := present[page := true];
          }
        }
      }
      assert s[0..] == s;
    }

    /** The loop that takes the first pages: those of the array and of the first character. */
    method Provide(from: nat, to: nat)
      requires Valid() && from <= to < ARG_MAX_PAGES
      modifies `present
      ensures Valid() && forall i :: 0 <= i < ARG_MAX_PAGES ==> present[i] == (old(present)[i] || from <= i <= to)
    {
      var i := from;
      while i <= to
        invariant from <= i <= to + 1 && Valid()
        invariant forall j :: 0 <= j < ARG_MAX_PAGES ==> present[j] == (old(present)[j] || from <= j < i)
      {
        if !present[i] {
          present := present[i := true];
        }
        i := i + 1;
      }
    }

    /** Where the copy stands after k strings: position, page and index of the strings, page and
        index of the next pointer. */
    ghost predicate Standing(flat0: seq<Byte>, begin: nat, args: seq<seq<Byte>>, k: nat,
                             page: int, at: int, arrayPage: int, arrayAt: int)
      requires k <= |args| && |flat0| == SPACE && StringPos(begin, args, |args|) < SPACE
      reads this
    {
      && Valid()
      && 0 <= page < ARG_MAX_PAGES && PresentUpTo(page + 1) && 0 < at <= PAGE_BYTES
      && page * PAGE_BYTES + (PAGE_BYTES - at) == StringPos(begin, args, k)
      && begin / PAGE_BYTES <= page
      && (arrayPage, arrayAt) == CursorSlot(begin, |args|, k)
      && Laid(flat0, Memory(), begin, args, k)
    }

    /** The body of the argument loop. */
    method CopyOne(ghost flat0: seq<Byte>, begin: nat, args: seq<seq<Byte>>, k: nat, vmaddr0: nat,
                   page0: int, at0: int, arrayPage0: int, arrayAt0: int)
      returns (vmaddr: nat, page: int, at: int, arrayPage: int, arrayAt: int)
      requires begin % 4 == 0 && InOnePage(begin, |args|) && k < |args|
      requires |flat0| == SPACE && StringPos(begin, args, |args|) < SPACE
      requires vmaddr0 == STACK_TOP - StringPos(begin, args, k)
      requires Standing(flat0, begin, args, k, page0, at0, arrayPage0, arrayAt0)
      modifies this
      ensures vmaddr == STACK_TOP - StringPos(begin, args, k + 1)
      ensures Standing(flat0, begin, args, k + 1, page, at, arrayPage, arrayAt)
    {
      hide Overwritten, Flat, WordAt, CursorSlot, StringAt, InOnePage;
      ghost var p := StringPos(begin, args, k + 1);
      StringsFit(begin, args, k);
      LaidString(flat0, Memory(), begin, args, k);
      page, at := CopyString(page0, at0, args[k]);
      vmaddr := vmaddr0 - |args[k]|;
      SlotIndex(begin, |args|, k);
      LaidPointer(flat0, Memory(), begin, args, k, vmaddr);
      CopyTo(arrayPage0, arrayAt0, WordToBytes(vmaddr));
      LaidOneMore(flat0, Memory(), begin, args, k, vmaddr);
      CursorStep(begin, |args|, k);
      arrayPage, arrayAt := arrayPage0, arrayAt0 + 4;
      if arrayAt >= PAGE_BYTES {
        arrayAt := 0;
        arrayPage := arrayPage + 1;
      }
    }

    /** copy_arg_array: the strings, the array of their addresses in the new process and its NULL.
        Returns the next free position, the number of strings and the address of the array. */
    method CopyArgArray(begin: nat, args: seq<seq<Byte>>, ghost there: nat)
      returns (end: nat, argc: nat, argv: nat, ghost pages: nat)
      requires Valid() && begin % 4 == 0 && InOnePage(begin, |args|)
      requires StringPos(begin, args, |args|) < SPACE
      requires PresentUpTo(there) && begin / PAGE_BYTES <= there <= begin / PAGE_BYTES + 1
      requires forall k :: 0 <= k < |args| ==> CString(args[k])
      modifies this
      ensures Valid() && argc == |args| && argv == STACK_TOP - ArrayPos(begin, |args|)
      ensures end == Aligned(StringPos(begin, args, |args|))
      ensures Laid(old(Memory()), Memory(), begin, args, |args|)
      ensures WordAt(Memory(), begin + 4) == 0
      ensures pages == StringPos(begin, args, |args|) / PAGE_BYTES + 1 <= ARG_MAX_PAGES && PresentUpTo(pages)
    {
      hide Overwritten, Flat, Laid, WordAt, Standing, PresentUpTo;
      var n := |args|;
      var pos := ArrayPos(begin, n);
      var vmaddr := STACK_TOP - pos;
      argc, argv := n, vmaddr;
      ghost var flat0 := Memory();
      var page, at, arrayPage, arrayAt := Start(begin, args, there);
      StringsFit(begin, args, 0);
      var k := 0;
      while k < n
        invariant 0 <= k <= n && vmaddr == STACK_TOP - pos
        invariant pos == StringPos(begin, args, k)
        invariant Standing(flat0, begin, args, k, page, at, arrayPage, arrayAt)
      {
        StringsFit(begin, args, k);
        vmaddr, page, at, arrayPage, arrayAt := CopyOne(flat0, begin, args, k, vmaddr, page, at, arrayPage, arrayAt);
        pos := pos + |args[k]|;
        k := k + 1;
      }
      Finish(flat0, begin, args, page, at, arrayPage, arrayAt);
      end, pages := Aligned(pos), page + 1;
    }

    /** The computation of the first positions, and the first pages. */
    method Start(begin: nat, args: seq<seq<Byte>>, ghost there: nat)
      returns (page: int, at: int, arrayPage: int, arrayAt: int)
      requires Valid() && begin % 4 == 0 && InOnePage(begin, |args|) && StringPos(begin, args, |args|) < SPACE
      requires PresentUpTo(there) && begin / PAGE_BYTES <= there <= begin / PAGE_BYTES + 1
      modifies `present
      ensures Valid() && Memory() == old(Memory())
      ensures Standing(old(Memory()), begin, args, 0, page, at, arrayPage, arrayAt)
    {
      var n := |args|;
      var pos := ArrayPos(begin, n);
      StringsFit(begin, args, 0);
      FirstPositions(begin, n);
      arrayPage := (pos - 1) / PAGE_BYTES;
      arrayAt := PAGE_BYTES - (pos - arrayPage * PAGE_BYTES);
      page := pos / PAGE_BYTES;
      at := if arrayAt > 0 then arrayAt else PAGE_BYTES;
      hide Flat, Laid, CursorSlot, InOnePage;
      Provide(begin / PAGE_BYTES, page);
      LaidNothing(Memory(), begin, args);
    }

    /** The final NULL. */
    method Finish(ghost flat0: seq<Byte>, begin: nat, args: seq<seq<Byte>>,
                  page: int, at: int, arrayPage: int, arrayAt: int)
      requires begin % 4 == 0 && InOnePage(begin, |args|) && |flat0| == SPACE && StringPos(begin, args, |args|) < SPACE
      requires Standing(flat0, begin, args, |args|, page, at, arrayPage, arrayAt)
      modifies `frames
      ensures Valid() && Laid(flat0, Memory(), begin, args, |args|) && WordAt(Memory(), begin + 4) == 0
      ensures PresentUpTo(page + 1) && page == StringPos(begin, args, |args|) / PAGE_BYTES < ARG_MAX_PAGES
    {
      hide Overwritten, Flat, Laid, WordAt, CursorSlot, InOnePage;
      Quotient(StringPos(begin, args, |args|), page);
      StringsFit(begin, args, 0);
      SlotIndex(begin, |args|, |args|);
      LaidPointer(flat0, Memory(), begin, args, |args|, 0);
      CopyTo(arrayPage, arrayAt, WordToBytes(0));
    }

    /** The two calls of sys_execve: the environment goes below the arguments and leaves them intact.
        Either list may be NULL, and then its address is. */
    method CopyArgsAndEnv(args: Option<seq<seq<Byte>>>, env: Option<seq<seq<Byte>>>)
      returns (end: nat, argc: nat, argv: nat, envp: nat, ghost pages: nat)
      requires Valid() && PresentUpTo(0) && Fits(0, args) && Fits(EndOf(0, args), env)
      modifies this
      ensures Valid() && pages <= ARG_MAX_PAGES && PresentUpTo(pages)
      ensures InPlace(Memory(), 0, args, pages) && InPlace(Memory(), EndOf(0, args), env, pages)
      ensures argc == (if args.Some? then |args.value| else 0) && argv == AddressOf(0, args)
      ensures envp == AddressOf(EndOf(0, args), env) && end == EndOf(EndOf(0, args), env) <= pages * PAGE_BYTES
    {
      hide Laid, WordAt, Flat, PresentUpTo;
      end, argc, argv, envp, pages := 0, 0, 0, 0, 0;
      if args.Some? {
        end, argc, argv, pages := CopyArgArray(0, args.value, 0);
        LaidAlone(old(Memory()), Memory(), 0, args.value);
        EndPosition(0, args.value);
      }
      if env.Some? {
        var mid := end;
        ghost var flat, there := Memory(), pages;
        var count;
        end, count, envp, pages := CopyArgArray(mid, env.value, there);
        EndPosition(mid, env.value);
        if args.Some? { InPlaceStays(flat, Memory(), mid, args.value, env.value); }
        LaidAlone(flat, Memory(), mid, env.value);
      }
    }
  }

  /** Where the next list starts. */
  ghost function EndOf(begin: nat, list: Option<seq<seq<Byte>>>): nat {
    if list.None? then begin else Aligned(StringPos(begin, list.value, |list.value|))
  }

  /** The list fits the pages, its array in one of them, and is made of C strings. */
  ghost predicate Fits(begin: nat, list: Option<seq<seq<Byte>>>) {
    list.Some? ==>
      && InOnePage(begin, |list.value|) && StringPos(begin, list.value, |list.value|) < SPACE
      && forall k :: 0 <= k < |list.value| ==> CString(list.value[k])
  }

  /** The list is laid out from begin on, NULL included, in the first pages. */
  ghost predicate InPlace(flat: seq<Byte>, begin: nat, list: Option<seq<seq<Byte>>>, pages: nat)
    requires |flat| == SPACE
  {
    list.Some? ==>
      var l := list.value;
      && StringPos(begin, l, |l|) < SPACE && StringPos(begin, l, |l|) < pages * PAGE_BYTES
      && Laid(flat, flat, begin, l, |l|) && WordAt(flat, begin + 4) == 0
  }

  function AddressOf(begin: nat, list: Option<seq<seq<Byte>>>): int {
    if list.None? then NULL else STACK_TOP - ArrayPos(begin, |list.value|)
  }

  lemma EndPosition(begin: nat, args: seq<seq<Byte>>)
    requires StringPos(begin, args, |args|) < SPACE
    ensures var p, e := StringPos(begin, args, |args|), EndOf(begin, Some(args));
      && p <= e <= SPACE && e % 4 == 0 && begin + 4 <= p < (p / PAGE_BYTES + 1) * PAGE_BYTES
      && e <= (p / PAGE_BYTES + 1) * PAGE_BYTES
      && e / PAGE_BYTES <= p / PAGE_BYTES + 1 <= e / PAGE_BYTES + 1
  {
    hide StringPos;
    var p := StringPos(begin, args, |args|);
    var q := p / PAGE_BYTES;
    assert q * PAGE_BYTES <= p < (q + 1) * PAGE_BYTES;
    assert ((q + 1) * PAGE_BYTES) % 4 == 0;
    var e := Aligned(p);
    if e < (q + 1) * PAGE_BYTES { Quotient(e, q); } else { Quotient(e, q + 1); }
  }

  lemma LaidAlone(flat0: seq<Byte>, flat: seq<Byte>, begin: nat, args: seq<seq<Byte>>)
    requires |flat0| == |flat| == SPACE && StringPos(begin, args, |args|) <= SPACE
             && Laid(flat0, flat, begin, args, |args|)
    ensures Laid(flat, flat, begin, args, |args|) && flat[SPACE - begin..] == flat0[SPACE - begin..]
  {
    hide StringAt, PointerAt;
  }

  /** Laying out the environment below leaves the arguments in place. */
  lemma InPlaceStays(flat: seq<Byte>, flat': seq<Byte>, mid: nat, args: seq<seq<Byte>>, env: seq<seq<Byte>>)
    requires |flat| == |flat'| == SPACE && StringPos(0, args, |args|) <= mid && StringPos(mid, env, |env|) <= SPACE
    requires Laid(flat, flat, 0, args, |args|) && Laid(flat, flat', mid, env, |env|)
    ensures Laid(flat', flat', 0, args, |args|) && WordAt(flat', 4) == WordAt(flat, 4)
  {
    hide Laid, WordAt;
    StringsFit(0, args, 0);
    StringsFit(mid, env, 0);
    LaidAlone(flat, flat', mid, env);
    AboveUntouched(flat, flat', mid, args);
  }

  /** An array laid out above position mid is still there when nothing above mid changed. */
  lemma AboveUntouched(flat: seq<Byte>, flat': seq<Byte>, mid: nat, args: seq<seq<Byte>>)
    requires |flat| == |flat'| == SPACE && StringPos(0, args, |args|) <= mid <= SPACE
    requires flat'[SPACE - mid..] == flat[SPACE - mid..]
    requires Laid(flat, flat, 0, args, |args|)
    ensures Laid(flat', flat', 0, args, |args|)
    ensures WordAt(flat', 4) == WordAt(flat, 4)
  {
    StringsFit(0, args, 0);
    SameAbove(flat, flat', SPACE - mid, SPACE - 4, SPACE);
    hide BytesToWord, StringAt, PointerAt;
    forall j | 0 <= j < |args| ensures StringAt(flat', 0, args, j) && PointerAt(flat', 0, args, j) {
      StringUntouched(flat, flat', mid, args, j);
      PointerUntouched(flat, flat', mid, args, j);
    }
  }

  lemma StringUntouched(flat: seq<Byte>, flat': seq<Byte>, mid: nat, args: seq<seq<Byte>>, j: nat)
    requires |flat| == |flat'| == SPACE && StringPos(0, args, |args|) <= mid <= SPACE && j < |args|
    requires flat'[SPACE - mid..] == flat[SPACE - mid..] && StringAt(flat, 0, args, j)
    ensures StringAt(flat', 0, args, j)
  {
    StringsFit(0, args, j);
    var q := StringPos(0, args, j + 1);
    assert q == StringPos(0, args, j) + |args[j]|;
    hide StringPos;
    SameAbove(flat, flat', SPACE - mid, SPACE - q, SPACE - q + |args[j]|);
  }

  lemma PointerUntouched(flat: seq<Byte>, flat': seq<Byte>, mid: nat, args: seq<seq<Byte>>, j: nat)
    requires |flat| == |flat'| == SPACE && StringPos(0, args, |args|) <= mid <= SPACE && j < |args|
    requires flat'[SPACE - mid..] == flat[SPACE - mid..] && PointerAt(flat, 0, args, j)
    ensures PointerAt(flat', 0, args, j)
  {
    hide BytesToWord, StringPos;
    StringsFit(0, args, j);
    var a := ArrayPos(0, |args|) - 4 * j;
    SameAbove(flat, flat', SPACE - mid, SPACE - a, SPACE - a + 4);
  }

  lemma SameAbove(flat: seq<Byte>, flat': seq<Byte>, base: nat, lo: nat, hi: nat)
    requires |flat| == |flat'| && base <= lo <= hi <= |flat| && flat'[base..] == flat[base..]
    ensures flat'[lo..hi] == flat[lo..hi]
  {
    SliceOfSlice(flat, base, |flat|, lo - base, hi - base);
    SliceOfSlice(flat', base, |flat|, lo - base, hi - base);
  }

  // ---- reading it back --------------------------------------------------------------------------

  /** The characters before the first NUL, from flat index i on. */
  ghost function ReadString(flat: seq<Byte>, i: nat): (s: seq<Byte>)
    requires i <= |flat|
    decreases |flat| - i
  {
    if i == |flat| || flat[i] == 0 then [] else [flat[i]] + ReadString(flat, i + 1)
  }

  lemma {:induction false} ReadsCString(flat: seq<Byte>, i: nat, s: seq<Byte>)
    requires CString(s) && i + |s| <= |flat| && flat[i..i + |s|] == s
    ensures ReadString(flat, i) + [0] == s
    decreases |s|
  {
    assert flat[i] == flat[i..i + |s|][0] == s[0];
    if |s| == 1 {
      assert s == [0];
    } else {
      assert flat[i + 1..i + |s|] == flat[i..i + |s|][1..] == s[1..];
      ReadsCString(flat, i + 1, s[1..]);
      assert [s[0]] + s[1..] == s;
    }
  }

  /** What the new process finds: following pointer k of the array gives string k. */
  lemma ArgumentReads(flat: seq<Byte>, begin: nat, args: seq<seq<Byte>>, k: nat)
    requires |flat| == SPACE && StringPos(begin, args, |args|) <= SPACE && Laid(flat, flat, begin, args, |args|)
    requires k < |args| && CString(args[k])
    ensures 4 <= ArrayPos(begin, |args|) - 4 * k <= SPACE
    ensures var address := WordAt(flat, ArrayPos(begin, |args|) - 4 * k);
            0 < STACK_TOP - address <= SPACE && ReadString(flat, SPACE - (STACK_TOP - address)) + [0] == args[k]
  {
    StringsFit(begin, args, k);
    assert StringAt(flat, begin, args, k) && PointerAt(flat, begin, args, k);
    hide BytesToWord, WordAt;
    ReadsCString(flat, SPACE - StringPos(begin, args, k + 1), args[k]);
  }

  /** Page i is mapped i + 1 pages below the top of the stack: the byte the process reads at an
      address is the byte at that position. */
  lemma ThroughMapping(frames: seq<Frame>, pos: nat)
    requires |frames| == ARG_MAX_PAGES && 0 < pos <= SPACE
    ensures var page := (pos - 1) / PAGE_BYTES;
      && 0 <= page < ARG_MAX_PAGES && (STACK_TOP - pos) / PAGE_BYTES == STACK_TOP / PAGE_BYTES - (page + 1)
      && frames[page][(STACK_TOP - pos) % PAGE_BYTES] == Flat(frames)[SPACE - pos]
  {
    var page := (pos - 1) / PAGE_BYTES;
    var i := PAGE_BYTES - (pos - page * PAGE_BYTES);
    var q := STACK_TOP / PAGE_BYTES - (page + 1);
    assert STACK_TOP - pos == q * PAGE_BYTES + i && 0 <= i < PAGE_BYTES;
    Quotient(STACK_TOP - pos, q);
    FlatAt(frames, page, i);
  }

  /** Where the copy starts. */
  lemma FirstPositions(begin: nat, n: nat)
    requires begin % 4 == 0 && ArrayPos(begin, n) < SPACE && InOnePage(begin, n)
    ensures var p := ArrayPos(begin, n);
      var arrayPage := (p - 1) / PAGE_BYTES;
      var arrayAt := PAGE_BYTES - (p - arrayPage * PAGE_BYTES);
      var at := if arrayAt > 0 then arrayAt else PAGE_BYTES;
      && 0 <= arrayAt && (arrayPage, arrayAt) == CursorSlot(begin, n, 0)
      && begin / PAGE_BYTES <= p / PAGE_BYTES < ARG_MAX_PAGES
      && p / PAGE_BYTES * PAGE_BYTES + (PAGE_BYTES - at) == p && 0 < at <= PAGE_BYTES
  {
    var p := ArrayPos(begin, n);
    CursorInPage(begin, n, 0);
    var q := (p - 1) / PAGE_BYTES;
    assert q * PAGE_BYTES <= p - 1 < (q + 1) * PAGE_BYTES;
    if p == (q + 1) * PAGE_BYTES {
      Quotient(p, q + 1);
    } else {
      Quotient(p, q);
    }
  }

  /** The slot of pointer k, as a flat index. */
  lemma SlotIndex(begin: nat, n: nat, k: nat)
    requires begin % 4 == 0 && InOnePage(begin, n) && k <= n && ArrayPos(begin, n) <= SPACE
    ensures var (page, at) := CursorSlot(begin, n, k);
      && page == begin / PAGE_BYTES < ARG_MAX_PAGES && 0 <= at <= PAGE_BYTES - 4
      && (3 - page) * PAGE_BYTES + at == SPACE - (ArrayPos(begin, n) - 4 * k)
  {
    CursorInPage(begin, n, k);
    CursorInPage(begin, n, n);
    var b := begin / PAGE_BYTES;
    assert b * PAGE_BYTES <= begin < SPACE;
  }

  /** The update of the pointer cursor. */
  lemma CursorStep(begin: nat, n: nat, k: nat)
    requires begin % 4 == 0
    ensures var (page, at) := CursorSlot(begin, n, k);
            CursorSlot(begin, n, k + 1) == if at + 4 >= PAGE_BYTES then (page + 1, 0) else (page, at + 4)
  {
    var p := ArrayPos(begin, n);
    var page := (p - 1) / PAGE_BYTES;
    var x := PAGE_BYTES - (p - page * PAGE_BYTES) + 4 * k;
    assert p <= (page + 1) * PAGE_BYTES;
    assert x % 4 == 0;
    MultipleOf4(x);
    var q, r := x / PAGE_BYTES, x % PAGE_BYTES;
    assert x == q * PAGE_BYTES + r && r % 4 == 0;
    if r + 4 < PAGE_BYTES {
      Quotient(x + 4, q);
    } else {
      Quotient(x + 4, q + 1);
    }
  }

  lemma LaidOneMore(flat0: seq<Byte>, flat: seq<Byte>, begin: nat, args: seq<seq<Byte>>, k: nat, vmaddr: nat)
    requires k < |args| && |flat0| == |flat| == SPACE && StringPos(begin, args, |args|) <= SPACE
    requires Laid(flat0, flat, begin, args, k) && StringAt(flat, begin, args, k)
    requires StringPos(begin, args, k + 1) <= SPACE && vmaddr == STACK_TOP - StringPos(begin, args, k + 1)
    requires 4 <= ArrayPos(begin, |args|) - 4 * k <= SPACE && WordAt(flat, ArrayPos(begin, |args|) - 4 * k) == vmaddr
    ensures Laid(flat0, flat, begin, args, k + 1)
  {
    hide WordAt;
  }

  lemma LaidNothing(flat: seq<Byte>, begin: nat, args: seq<seq<Byte>>)
    requires |flat| == SPACE && StringPos(begin, args, |args|) <= SPACE
    ensures Laid(flat, flat, begin, args, 0)
  {
  }

  lemma PutNothing(flat: seq<Byte>, at: nat, data: seq<Byte>)
    requires at <= |flat| && data == []
    ensures Overwritten(flat, at, data) == flat
  {
  }

  /** Two copies end to end are one. */
  lemma PutBelow(flat: seq<Byte>, at: nat, d: seq<Byte>, e: seq<Byte>)
    requires at + |d| + |e| <= |flat|
    ensures Overwritten(Overwritten(flat, at + |d|, e), at, d) == Overwritten(flat, at, d + e)
  {
  }
}
