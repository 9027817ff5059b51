/** The free-page list threaded through physical memory (arch/sh/physical_memory.c). */
module PhysicalMemory {
  import opened Arch

  /** Value view of physical memory: the free pages in list order, and every frame. */
  datatype Pm = Pm(free: seq<nat>, ram: map<nat, Frame>)

  /** The word stored in the head of free page number i - 1: address of free page i, or NULL. */
  ghost function LinkTo(free: seq<nat>, i: nat): (w: nat)
    ensures w < 0x1_0000_0000
  {
    if i < |free| && free[i] < PPN_LIMIT then P1Address(free[i]) else 0
  }

  /** The link of page p when all pages up to end are chained in order. */
  ghost function LinkAfter(p: nat, end: nat): nat {
    if p + 1 < end <= PPN_LIMIT then P1Address(p + 1) else 0
  }

  /** The free list holds distinct managed pages. */
  ghost predicate Managed(pm: Pm) {
    && (forall i :: 0 <= i < |pm.free| ==> pm.free[i] in pm.ram)
    && NoDuplicates(pm.free)
  }

  /** The free list is a chain of distinct managed pages, linked through their first word. */
  ghost predicate Chained(pm: Pm) {
    && (forall p :: p in pm.ram ==> 0 < p < PPN_LIMIT)
    && Managed(pm)
    && (forall i :: 0 <= i < |pm.free| ==> BytesToWord(pm.ram[pm.free[i]][..4]) == LinkTo(pm.free, i + 1))
  }

  /** What releasing a page does to its frame: the link overwrites the first word. */
  ghost function Linked(f: Frame, free: seq<nat>): Frame {
    WordToBytes(LinkTo(free, 0)) + f[4..]
  }

  ghost function Take(pm: Pm): (r: Pm)
    requires pm.free != []
  {
    pm.(free := pm.free[1..])
  }

  ghost function GiveBack(pm: Pm, ppn: nat): (r: Pm)
    requires ppn in pm.ram
  {
    Pm([ppn] + pm.free, pm.ram[ppn := Linked(pm.ram[ppn], pm.free)])
  }

  lemma TakeKeepsChain(pm: Pm)
    requires Chained(pm) && pm.free != []
    ensures Chained(Take(pm))
    ensures pm.free[0] !in Take(pm).free
  {
    hide BytesToWord;
    var pm' := Take(pm);
    forall i | 0 <= i < |pm'.free|
      ensures BytesToWord(pm'.ram[pm'.free[i]][..4]) == LinkTo(pm'.free, i + 1)
    {
      assert pm'.free[i] == pm.free[i + 1];
    }
  }

  lemma GiveBackKeepsChain(pm: Pm, ppn: nat)
    requires Chained(pm) && ppn in pm.ram && ppn !in pm.free
    ensures Chained(GiveBack(pm, ppn))
  {
    hide BytesToWord, WordToBytes;
    var pm' := GiveBack(pm, ppn);
    WordRoundTrip(LinkTo(pm.free, 0));
    assert pm'.ram[ppn][..4] == WordToBytes(LinkTo(pm.free, 0));
    forall i | 0 <= i < |pm'.free|
      ensures BytesToWord(pm'.ram[pm'.free[i]][..4]) == LinkTo(pm'.free, i + 1)
    {
      if i > 0 { assert pm'.free[i] == pm.free[i - 1]; }
    }
  }

  /** Pages linked one after the other are a chain. */
  lemma ChainBuilt(first: nat, nbPages: nat, pm: Pm)
    requires 0 < first && first + nbPages <= PPN_LIMIT
    requires pm.free == seq(nbPages, i requires 0 <= i < nbPages => first + i)
    requires forall p :: p in pm.ram <==> first <= p < first + nbPages
    requires forall p {:trigger pm.ram[p]} :: first <= p < first + nbPages ==>
               BytesToWord(pm.ram[p][..4]) == LinkAfter(p, first + nbPages)
    ensures Chained(pm)
  {
    hide BytesToWord;
    assert forall k :: 0 <= k < |pm.free| ==> LinkTo(pm.free, k + 1) == LinkAfter(pm.free[k], first + nbPages);
  }

  /** A store into a page that is not free never damages the chain. */
  lemma StoreKeepsChain(pm: Pm, ppn: nat, f: Frame)
    requires Chained(pm) && ppn in pm.ram && ppn !in pm.free
    ensures Chained(pm.(ram := pm.ram[ppn := f]))
  {
  }

  class Allocator {
    var ram: map<nat, Frame>
    var firstFree: nat        // pm_first_free
    var nbFree: int           // pm_nbfree
    ghost var free: seq<nat>

    ghost function View(): Pm
      reads this
    {
      Pm(free, ram)
    }

    ghost predicate Valid()
      reads this
    {
      && Chained(View())
      && firstFree == LinkTo(free, 0)
      && nbFree == |free|
    }

    /** pm_init_pages: chain nbPages pages starting at page number first. */
    constructor (first: nat, nbPages: nat, contents: map<nat, Frame>)
      requires 0 < first && first + nbPages <= PPN_LIMIT
      requires forall p :: p in contents <==> first <= p < first + nbPages
      ensures Valid()
      ensures free == seq(nbPages, i requires 0 <= i < nbPages => first + i)
      ensures ram.Keys == contents.Keys
    {
      ram := contents;
      firstFree := 0;
      nbFree := 0;
      free := [];
      new;
      BuildChain(first, nbPages);
    }

    /** The loop of pm_init_pages. */
    method BuildChain(first: nat, nbPages: nat)
      requires 0 < first && first + nbPages <= PPN_LIMIT && firstFree == 0
      requires forall p :: p in ram <==> first <= p < first + nbPages
      modifies this
      ensures Valid()
      ensures free == seq(nbPages, i requires 0 <= i < nbPages => first + i)
      ensures ram.Keys == old(ram.Keys)
    {
      hide BytesToWord, WordToBytes, Chained;
      ghost var end := first + nbPages;
      var i := 0;
      var page := first;
      while i < nbPages
        invariant 0 <= i <= nbPages && page == first + i
        invariant ram.Keys == old(ram.Keys)
        invariant firstFree == if i == 0 then 0 else P1Address(first)
        invariant forall p {:trigger ram[p]} :: first <= p < page ==> BytesToWord(ram[p][..4]) == LinkAfter(p, end)
      {
        var link := if i + 1 == nbPages then 0 else P1Address(page + 1);
        WordRoundTrip(link);
        ram := ram[page := WordToBytes(link) + ram[page][4..]];
        assert ram[page][..4] == WordToBytes(link);
        if i == 0 {
          firstFree := P1Address(page);
        }
        page := page + 1;
        i := i + 1;
      }
      nbFree := nbPages;
      free := seq(nbPages, i requires 0 <= i < nbPages => first + i);
      ChainBuilt(first, nbPages, View());
    }

    /** pm_get_free_page. The source spins forever when the list is empty. */
    method GetFreePage() returns (ppn: nat)
      requires Valid() && free != []
      modifies this
      ensures Valid() && ppn in ram && ppn !in free
      ensures ppn == old(free)[0]
      ensures View() == Take(old(View()))
    {
      hide BytesToWord;
      TakeKeepsChain(View());
      PhysicalPageOfP1(free[0]);
      ppn := PhysicalPage(firstFree);
      firstFree := BytesToWord(ram[ppn][..4]);
      free := free[1..];
      nbFree := nbFree - 1;
    }

    /** A write into a page that is in use (memcpy or memset by its owner). */
    method StoreFrame(ppn: nat, f: Frame)
      requires Valid() && ppn in ram && ppn !in free
      modifies `ram
      ensures Valid()
      ensures View() == old(View()).(ram := old(ram)[ppn := f])
    {
      StoreKeepsChain(View(), ppn, f);
      ram := ram[ppn := f];
    }

    /** pm_free_page. The source does no check: the page must be a managed one that is not free. */
    method FreePage(ppn: nat)
      requires Valid() && ppn in ram && ppn !in free
      modifies this
      ensures Valid()
      ensures View() == GiveBack(old(View()), ppn)
    {
      hide BytesToWord, WordToBytes;
      GiveBackKeepsChain(View(), ppn);
      ram := ram[ppn := WordToBytes(firstFree) + ram[ppn][4..]];
      firstFree := P1Address(ppn);
      free := [ppn] + free;
      nbFree := nbFree + 1;
    }
  }
}
