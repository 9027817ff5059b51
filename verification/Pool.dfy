/** The pool allocator: fixed-size objects in physical pages, free objects chained through their
    own memory (utils/pool_alloc.c). */
module Pool {
  import opened Arch

  const HEAD_BYTES := 12   // sizeof(struct pool_page)

  /** struct pool_page, at the start of each page. */
  datatype Head = Head(next: nat, firstEmpty: nat, nbEmpty: nat)

  /** A pool: its page heads by address, the first word of each object by address, its two page
      pointers; and, for the proof, the page list, the free objects of each page in chain order and
      the objects handed out. */
  datatype State = State(heads: map<nat, Head>, mem: map<nat, nat>, firstPage: nat, firstNonfull: nat,
                         order: seq<nat>, chains: map<nat, seq<nat>>, live: set<nat>)

  // ---- where objects are ---------------------------------------------------------------

  /** The number of objects in a page computed by POOL_INIT. */
  function PerPage(objsz: nat): nat
    requires objsz > 0
  {
    (PAGE_BYTES - HEAD_BYTES) / objsz
  }

  function SlotAddress(objsz: nat, page: nat, k: nat): nat { page + HEAD_BYTES + k * objsz }

  ghost predicate IsSlot(objsz: nat, page: nat, a: nat)
    requires objsz > 0
  {
    exists k: nat :: k < PerPage(objsz) && a == SlotAddress(objsz, page, k)
  }

  /** The page an object belongs to, by rounding its address. */
  function PageOf(a: nat): nat { a - a % PAGE_BYTES }

  /** Rounding the address of an object gives its page. */
  lemma SlotRounds(objsz: nat, page: nat, a: nat)
    requires objsz > 0 && page % PAGE_BYTES == 0 && IsSlot(objsz, page, a)
    ensures PageOf(a) == page && a != NULL
    ensures page + HEAD_BYTES <= a && a + objsz <= page + PAGE_BYTES
  {
    var k: nat :| k < PerPage(objsz) && a == SlotAddress(objsz, page, k);
    SlotFits(objsz, k);
    OffsetInPage(page, a - page);
  }

  lemma SlotFits(objsz: nat, k: nat)
    requires objsz > 0 && k < PerPage(objsz)
    ensures k * objsz + objsz <= PAGE_BYTES - HEAD_BYTES
  {
    var q := PerPage(objsz);
    assert q * objsz <= PAGE_BYTES - HEAD_BYTES;
    MulMonotone(k + 1, q, objsz);
    assert (k + 1) * objsz == k * objsz + objsz;
  }

  lemma MulMonotone(i: nat, j: nat, c: nat)
    requires i <= j
    ensures i * c <= j * c
  {
  }

  lemma OffsetInPage(page: nat, offset: nat)
    requires page % PAGE_BYTES == 0 && offset < PAGE_BYTES
    ensures (page + offset) % PAGE_BYTES == offset
  {
    var q := page / PAGE_BYTES;
    assert page + offset == q * PAGE_BYTES + offset;
  }

  /** Distinct objects of a page do not overlap. */
  lemma SlotsApart(objsz: nat, page: nat, j: nat, k: nat)
    requires objsz > 0 && j < k
    ensures SlotAddress(objsz, page, j) + objsz <= SlotAddress(objsz, page, k)
  {
    MulMonotone(j + 1, k, objsz);
    assert (j + 1) * objsz == j * objsz + objsz;
  }

  /** The loop of get_new_pool_page ends with a NULL one object behind the last: it stays in the page
      exactly when the objects leave room for one more word. */
  predicate HasRoom(objsz: nat)
    requires objsz > 0
  {
    HEAD_BYTES + PerPage(objsz) * objsz + 4 <= PAGE_BYTES
  }

  lemma TerminatorExact(objsz: nat, page: nat)
    requires objsz > 0 && page % PAGE_BYTES == 0
    ensures SlotAddress(objsz, page, PerPage(objsz)) + 4 <= page + PAGE_BYTES <==> HasRoom(objsz)
    ensures HasRoom(objsz) <==> (PAGE_BYTES - HEAD_BYTES) % objsz >= 4
  {
    var q, r := PerPage(objsz), (PAGE_BYTES - HEAD_BYTES) % objsz;
    assert PAGE_BYTES - HEAD_BYTES == q * objsz + r;
  }

  /** Objects of 4 bytes fill the page: the NULL goes into the next page. */
  lemma TerminatorLeavesPage()
    ensures SlotAddress(4, 1024, PerPage(4)) == 2048
  {
  }

  // ---- the invariant ---------------------------------------------------------------------

  /** What pool_alloc.h asks of an object size. */
  predicate Sized(objsz: nat) { 4 <= objsz <= PAGE_BYTES / 2 }

  /** And room for the terminating NULL. */
  predicate SizeOk(objsz: nat) { Sized(objsz) && HasRoom(objsz) }

  /** The words at these addresses lie in the page. */
  ghost predicate Inside(page: nat, words: set<nat>) {
    forall a :: a in words ==> page <= a && a + 4 <= page + PAGE_BYTES
  }

  function Load(mem: map<nat, nat>, a: nat): nat { if a in mem then mem[a] else NULL }

  /** The page list. */
  ghost predicate Listed(heads: map<nat, Head>, firstPage: nat, order: seq<nat>) {
    && firstPage == AddressAt(order, 0) && NoDuplicates(order)
    && (forall p :: p in heads <==> p in order)
    && (forall i :: 0 <= i < |order| ==> order[i] in heads && order[i] != NULL && order[i] % PAGE_BYTES == 0)
    && (forall i, j :: 0 <= i < j < |order| && j == i + 1 ==> heads[order[i]].next == order[j])
    && (order != [] ==> heads[order[|order| - 1]].next == NULL)
  }

  /** The chain of a page: its free objects, each once, linked through their memory; every other
      object of the page is handed out. What the last link holds does not matter. */
  ghost predicate ChainSound(objsz: nat, p: nat, h: Head, chain: seq<nat>, mem: map<nat, nat>, live: set<nat>)
    requires objsz > 0
  {
    && |chain| == h.nbEmpty && NoDuplicates(chain)
    && (chain != [] ==> h.firstEmpty == chain[0])
    && (forall i :: 0 <= i < |chain| ==> IsSlot(objsz, p, chain[i]) && chain[i] !in live)
    && (forall i, j :: 0 <= i < j < |chain| && j == i + 1 ==> Load(mem, chain[i]) == chain[j])
    && (forall a :: IsSlot(objsz, p, a) ==> a in live || a in chain)
  }

  ghost predicate ChainsSound(objsz: nat, s: State)
    requires objsz > 0
  {
    forall p :: p in s.heads ==> p in s.chains && ChainSound(objsz, p, s.heads[p], s.chains[p], s.mem, s.live)
  }

  /** Every object handed out is an object of one of the pages. */
  ghost predicate LiveSound(objsz: nat, s: State)
    requires objsz > 0
  {
    forall a :: a in s.live ==> PageOf(a) in s.heads && IsSlot(objsz, PageOf(a), a)
  }

  ghost function FreeCount(heads: map<nat, Head>, order: seq<nat>): nat
    requires forall i :: 0 <= i < |order| ==> order[i] in heads
  {
    if order == [] then 0 else heads[order[0]].nbEmpty + FreeCount(heads, order[1..])
  }

  ghost predicate Inv(objsz: nat, s: State) {
    && SizeOk(objsz)
    && Listed(s.heads, s.firstPage, s.order) && ChainsSound(objsz, s) && LiveSound(objsz, s)
    && NonfullSound(s) && Counted(objsz, s)
  }

  ghost predicate NonfullSound(s: State) {
    s.firstNonfull == NULL || (s.firstNonfull in s.heads && s.heads[s.firstNonfull].nbEmpty > 0)
  }

  /** No object is lost: the free ones and those handed out are all the objects of the pages. */
  ghost predicate Counted(objsz: nat, s: State)
    requires objsz > 0
  {
    && (forall i :: 0 <= i < |s.order| ==> s.order[i] in s.heads)
    && |s.live| + FreeCount(s.heads, s.order) == |s.order| * PerPage(objsz)
  }

  lemma {:induction false} FreeCountUpdate(heads: map<nat, Head>, order: seq<nat>, p: nat, h: Head)
    requires forall i :: 0 <= i < |order| ==> order[i] in heads
    requires NoDuplicates(order) && p in heads
    ensures FreeCount(heads[p := h], order) ==
            FreeCount(heads, order) + (if p in order then h.nbEmpty - heads[p].nbEmpty else 0)
  {
    if order != [] {
      FreeCountUpdate(heads, order[1..], p, h);
      assert order == [order[0]] + order[1..];
    }
  }

  lemma {:induction false} FreeCountMore(heads: map<nat, Head>, order: seq<nat>, p: nat, h: Head)
    requires (forall i :: 0 <= i < |order| ==> order[i] in heads) && p !in order
    ensures FreeCount(heads[p := h], order) == FreeCount(heads, order)
  {
    if order != [] {
      assert p !in order[1..];
      FreeCountMore(heads, order[1..], p, h);
    }
  }

  // ---- taking an object -----------------------------------------------------------------------

  /** The first page with a free object, or NULL. */
  ghost function FirstNonfull(heads: map<nat, Head>, order: seq<nat>): (r: nat)
    requires forall i :: 0 <= i < |order| ==> order[i] in heads
    ensures r == NULL || (r in order && heads[r].nbEmpty > 0)
    ensures r == NULL && (forall i :: 0 <= i < |order| ==> order[i] != NULL) ==>
              forall i :: 0 <= i < |order| ==> heads[order[i]].nbEmpty == 0
  {
    if order == [] then NULL
    else if heads[order[0]].nbEmpty > 0 then order[0]
    else FirstNonfull(heads, order[1..])
  }

  ghost predicate CanPop(s: State, p: nat) {
    && p in s.heads && p in s.chains && s.chains[p] != [] && s.heads[p].nbEmpty > 0
    && forall i :: 0 <= i < |s.order| ==> s.order[i] in s.heads
  }

  /** The first free object of page p is handed out. */
  ghost function Popped(s: State, p: nat): State
    requires CanPop(s, p)
  {
    var a := s.heads[p].firstEmpty;
    var h := Head(s.heads[p].next, Load(s.mem, a), s.heads[p].nbEmpty - 1);
    var heads := s.heads[p := h];
    s.(heads := heads, chains := s.chains[p := s.chains[p][1..]], live := s.live + {a},
       firstNonfull := if h.nbEmpty == 0 then FirstNonfull(heads, s.order) else s.firstNonfull)
  }

  lemma PoppedKeeps(objsz: nat, s: State, p: nat)
    requires Inv(objsz, s) && p in s.heads && s.heads[p].nbEmpty > 0
    ensures CanPop(s, p) && Inv(objsz, Popped(s, p))
    ensures var a := s.heads[p].firstEmpty;
            a !in s.live && IsSlot(objsz, p, a) && PageOf(a) == p
  {
    hide HasRoom, IsSlot, PageOf, Listed, ChainsSound, LiveSound, NonfullSound, Counted, NoDuplicates, Popped;
    PoppedFirst(objsz, s, p);
    PoppedChains(objsz, s, p);
    PoppedLists(objsz, s, p);
    PoppedCounted(objsz, s, p);
  }

  lemma PoppedLists(objsz: nat, s: State, p: nat)
    requires Inv(objsz, s) && CanPop(s, p)
    requires IsSlot(objsz, p, s.heads[p].firstEmpty) && PageOf(s.heads[p].firstEmpty) == p
    ensures var s' := Popped(s, p);
            Listed(s'.heads, s'.firstPage, s'.order) && LiveSound(objsz, s') && NonfullSound(s')
  {
    hide HasRoom, IsSlot, PageOf, Listed, ChainsSound, Counted, NoDuplicates, Load;
    HeadChanged(s.heads, s.firstPage, s.order, p, Popped(s, p).heads[p]);
  }

  lemma PoppedCounted(objsz: nat, s: State, p: nat)
    requires objsz > 0 && Counted(objsz, s) && NoDuplicates(s.order) && p in s.heads && p in s.order
    requires CanPop(s, p) && s.heads[p].firstEmpty !in s.live
    ensures Counted(objsz, Popped(s, p))
  {
    hide FreeCount, FirstNonfull, Load, PerPage;
    HeadCounted(objsz, s, Popped(s, p), p);
  }

  lemma PoppedFirst(objsz: nat, s: State, p: nat)
    requires objsz > 0 && Listed(s.heads, s.firstPage, s.order) && ChainsSound(objsz, s)
    requires p in s.heads && s.heads[p].nbEmpty > 0
    ensures CanPop(s, p)
    ensures var a := s.heads[p].firstEmpty;
            a !in s.live && IsSlot(objsz, p, a) && PageOf(a) == p && p in s.order && NoDuplicates(s.order)
  {
    ListedFacts(s.heads, s.firstPage, s.order, p);
    hide IsSlot, PageOf, ChainSound, Listed, NoDuplicates;
    FrontOfChain(objsz, p, s.heads[p], s.chains[p], s.mem, s.live);
    SlotRounds(objsz, p, s.heads[p].firstEmpty);
  }

  lemma PoppedChains(objsz: nat, s: State, p: nat)
    requires objsz > 0 && Listed(s.heads, s.firstPage, s.order) && ChainsSound(objsz, s)
    requires CanPop(s, p)
    ensures ChainsSound(objsz, Popped(s, p))
  {
    ListedFacts(s.heads, s.firstPage, s.order, p);
    PoppedOthers(objsz, s, p);
    hide IsSlot, Load, ChainSound, Listed, FirstNonfull, NoDuplicates;
    FrontOfChain(objsz, p, s.heads[p], s.chains[p], s.mem, s.live);
    PoppedChain(objsz, p, s.heads[p], s.chains[p], s.mem, s.live, Popped(s, p).heads[p]);
  }

  /** Moving objects of one page between free and handed out keeps the count. */
  lemma HeadCounted(objsz: nat, s: State, s': State, p: nat)
    requires objsz > 0 && Counted(objsz, s) && NoDuplicates(s.order) && p in s.heads && p in s.order
    requires s'.heads.Keys == s.heads.Keys && p in s'.heads && s'.heads == s.heads[p := s'.heads[p]]
    requires s'.order == s.order
    requires |s'.live| + s'.heads[p].nbEmpty == |s.live| + s.heads[p].nbEmpty
    ensures Counted(objsz, s')
  {
    hide PerPage, FreeCount, NoDuplicates;
    FreeCountUpdate(s.heads, s.order, p, s'.heads[p]);
  }

  lemma ListedFacts(heads: map<nat, Head>, firstPage: nat, order: seq<nat>, p: nat)
    requires Listed(heads, firstPage, order) && p in heads
    ensures p % PAGE_BYTES == 0 && p != NULL && p in order && NoDuplicates(order)
    ensures forall i :: 0 <= i < |order| ==> order[i] in heads && order[i] != NULL
  {
  }

  lemma PoppedOthers(objsz: nat, s: State, p: nat)
    requires objsz > 0 && Listed(s.heads, s.firstPage, s.order) && ChainsSound(objsz, s)
    requires p in s.heads && s.heads[p].nbEmpty > 0
    ensures forall q :: q in s.heads && q != p ==>
              ChainSound(objsz, q, s.heads[q], s.chains[q], s.mem, s.live + {s.heads[p].firstEmpty})
  {
    hide IsSlot, ChainSound;
    FrontOfChain(objsz, p, s.heads[p], s.chains[p], s.mem, s.live);
    forall q | q in s.heads && q != p
      ensures ChainSound(objsz, q, s.heads[q], s.chains[q], s.mem, s.live + {s.heads[p].firstEmpty})
    {
      OtherChain(objsz, p, q, s.heads[p].firstEmpty, s.heads[q], s.chains[q], s.mem, s.live, 0);
    }
  }

  /** Counting objects does not change the page list. */
  lemma HeadChanged(heads: map<nat, Head>, firstPage: nat, order: seq<nat>, p: nat, h: Head)
    requires Listed(heads, firstPage, order) && p in heads && h.next == heads[p].next
    ensures Listed(heads[p := h], firstPage, order)
  {
  }

  lemma FrontOfChain(objsz: nat, p: nat, h: Head, chain: seq<nat>, mem: map<nat, nat>, live: set<nat>)
    requires objsz > 0 && ChainSound(objsz, p, h, chain, mem, live) && h.nbEmpty > 0
    ensures chain != [] && h.firstEmpty == chain[0] && chain[0] !in live && IsSlot(objsz, p, chain[0])
  {
    hide IsSlot;
  }

  lemma PoppedChain(objsz: nat, p: nat, h: Head, chain: seq<nat>, mem: map<nat, nat>, live: set<nat>, h': Head)
    requires objsz > 0 && ChainSound(objsz, p, h, chain, mem, live) && chain != []
    requires h'.nbEmpty == h.nbEmpty - 1 && h'.firstEmpty == Load(mem, chain[0])
    ensures ChainSound(objsz, p, h', chain[1..], mem, live + {chain[0]})
  {
    hide IsSlot, Load;
    assert chain == [chain[0]] + chain[1..];
    assert |chain| > 1 ==> Load(mem, chain[0]) == chain[1];
  }

  /** A change at an object of page p does not matter for page q. */
  lemma OtherChain(objsz: nat, p: nat, q: nat, a: nat, h: Head, chain: seq<nat>,
                   mem: map<nat, nat>, live: set<nat>, v: nat)
    requires objsz > 0 && p != q && p % PAGE_BYTES == 0 && q % PAGE_BYTES == 0 && IsSlot(objsz, p, a)
    requires ChainSound(objsz, q, h, chain, mem, live)
    ensures ChainSound(objsz, q, h, chain, mem, live + {a})
    ensures ChainSound(objsz, q, h, chain, mem, live - {a})
    ensures ChainSound(objsz, q, h, chain, mem[a := v], live - {a})
  {
    forall b | IsSlot(objsz, q, b) ensures b != a {
      SlotRounds(objsz, q, b);
      SlotRounds(objsz, p, a);
    }
    hide IsSlot;
  }

  // ---- a new page ---------------------------------------------------------------------------------

  /** The objects of a page from number k on. */
  ghost function Slots(objsz: nat, page: nat, k: nat): (r: seq<nat>)
    requires objsz > 0 && k <= PerPage(objsz)
    ensures |r| == PerPage(objsz) - k
    ensures forall i :: 0 <= i < |r| ==> r[i] == SlotAddress(objsz, page, k + i)
    decreases PerPage(objsz) - k
  {
    if k == PerPage(objsz) then [] else [SlotAddress(objsz, page, k)] + Slots(objsz, page, k + 1)
  }

  /** Memory once the first n objects of a page are linked, each to the next one. */
  ghost predicate Threaded(objsz: nat, page: nat, mem: map<nat, nat>, n: nat)
    requires objsz > 0
  {
    forall k :: 0 <= k < n ==> Load(mem, SlotAddress(objsz, page, k)) == SlotAddress(objsz, page, k + 1)
  }

  /** All the objects of a page in one chain. */
  ghost predicate Linked(objsz: nat, page: nat, mem: map<nat, nat>)
    requires objsz > 0
  {
    PerPage(objsz) > 0 && Threaded(objsz, page, mem, PerPage(objsz) - 1)
  }

  /** The pool with one more page, all of whose objects are free. */
  ghost function WithPage(objsz: nat, s: State, page: nat, mem: map<nat, nat>): State
    requires objsz > 0
  {
    State(s.heads[page := Head(s.firstPage, SlotAddress(objsz, page, 0), PerPage(objsz))], mem, page, page,
          [page] + s.order, s.chains[page := Slots(objsz, page, 0)], s.live)
  }

  /** mem' is mem with changes only at the objects of the page and at the word behind them. */
  ghost predicate OnlyPage(objsz: nat, page: nat, mem: map<nat, nat>, mem': map<nat, nat>) {
    forall a: nat :: a < page || a >= page + PAGE_BYTES ==> Load(mem', a) == Load(mem, a)
  }

  lemma NewChain(objsz: nat, page: nat, mem: map<nat, nat>, live: set<nat>, next: nat)
    requires SizeOk(objsz) && Linked(objsz, page, mem)
    requires forall a :: IsSlot(objsz, page, a) ==> a !in live
    ensures ChainSound(objsz, page, Head(next, SlotAddress(objsz, page, 0), PerPage(objsz)),
                       Slots(objsz, page, 0), mem, live)
  {
    var chain := Slots(objsz, page, 0);
    hide SlotAddress, PerPage, HasRoom, Load;
    forall i, j | 0 <= i < j < |chain| ensures chain[i] != chain[j] {
      SlotsApart(objsz, page, i, j);
    }
    forall i | 0 <= i < |chain| ensures IsSlot(objsz, page, chain[i]) {
      assert chain[i] == SlotAddress(objsz, page, i);
    }
    forall a | IsSlot(objsz, page, a) ensures a in chain {
      var k: nat :| k < PerPage(objsz) && a == SlotAddress(objsz, page, k);
      assert chain[k] == a;
    }
    forall i, j | 0 <= i < j < |chain| && j == i + 1 ensures Load(mem, chain[i]) == chain[j] {
      assert chain[i] == SlotAddress(objsz, page, i) && chain[j] == SlotAddress(objsz, page, i + 1);
    }
  }

  lemma ElsewhereChain(objsz: nat, page: nat, q: nat, h: Head, chain: seq<nat>,
                       mem: map<nat, nat>, mem': map<nat, nat>, live: set<nat>)
    requires objsz > 0 && page != q && page % PAGE_BYTES == 0 && q % PAGE_BYTES == 0
    requires OnlyPage(objsz, page, mem, mem') && ChainSound(objsz, q, h, chain, mem, live)
    ensures ChainSound(objsz, q, h, chain, mem', live)
  {
    forall i | 0 <= i < |chain| ensures Load(mem', chain[i]) == Load(mem, chain[i]) {
      SlotRounds(objsz, q, chain[i]);
      OutsidePage(page, q, chain[i]);
    }
    hide IsSlot, Load;
  }

  lemma OutsidePage(page: nat, q: nat, a: nat)
    requires page % PAGE_BYTES == 0 && q % PAGE_BYTES == 0 && page != q && q <= a < q + PAGE_BYTES
    ensures !(page <= a < page + PAGE_BYTES)
  {
    var i, j := page / PAGE_BYTES, q / PAGE_BYTES;
    assert page == i * PAGE_BYTES && q == j * PAGE_BYTES;
  }

  lemma WithPageKeeps(objsz: nat, s: State, page: nat, mem: map<nat, nat>)
    requires Inv(objsz, s) && page !in s.heads && page != NULL && page % PAGE_BYTES == 0
    requires Linked(objsz, page, mem) && OnlyPage(objsz, page, s.mem, mem)
    ensures Inv(objsz, WithPage(objsz, s, page, mem))
  {
    var s' := WithPage(objsz, s, page, mem);
    assert NonfullSound(s');
    hide HasRoom, IsSlot, PerPage, SlotAddress, PageOf, Load, ChainSound, Linked, OnlyPage, Listed, FreeCount, Counted;
    NewPageChains(objsz, s, page, mem);
    ListedMore(s.heads, s.firstPage, s.order, page, s'.heads[page]);
    NewPageCounted(objsz, s, page, mem);
  }

  lemma NewPageChains(objsz: nat, s: State, page: nat, mem: map<nat, nat>)
    requires Inv(objsz, s) && page !in s.heads && page % PAGE_BYTES == 0
    requires Linked(objsz, page, mem) && OnlyPage(objsz, page, s.mem, mem)
    ensures ChainsSound(objsz, WithPage(objsz, s, page, mem))
  {
    hide HasRoom, PerPage, SlotAddress, Load, ChainSound, Linked, OnlyPage, FreeCount, Counted, NoDuplicates;
    forall a | IsSlot(objsz, page, a) ensures a !in s.live {
      SlotRounds(objsz, page, a);
    }
    NewChain(objsz, page, mem, s.live, s.firstPage);
    hide IsSlot, PageOf;
    forall q | q in s.heads ensures ChainSound(objsz, q, s.heads[q], s.chains[q], mem, s.live) {
      ElsewhereChain(objsz, page, q, s.heads[q], s.chains[q], s.mem, mem, s.live);
    }
  }

  lemma NewPageCounted(objsz: nat, s: State, page: nat, mem: map<nat, nat>)
    requires objsz > 0 && Counted(objsz, s) && page !in s.heads
    ensures Counted(objsz, WithPage(objsz, s, page, mem))
  {
    hide PerPage, SlotAddress, Slots;
    var s' := WithPage(objsz, s, page, mem);
    FreeCountMore(s.heads, s.order, page, s'.heads[page]);
    assert s'.order[1..] == s.order;
    MoreObjects(|s.order|, PerPage(objsz));
  }

  lemma MoreObjects(n: nat, per: nat)
    ensures (n + 1) * per == n * per + per
  {
  }

  lemma ListedMore(heads: map<nat, Head>, firstPage: nat, order: seq<nat>, page: nat, h: Head)
    requires Listed(heads, firstPage, order) && page !in heads && page != NULL && page % PAGE_BYTES == 0
    requires h.next == firstPage
    ensures Listed(heads[page := h], page, [page] + order)
  {
    var order', heads' := [page] + order, heads[page := h];
    forall i, j | 0 <= i < j < |order'| && j == i + 1 ensures heads'[order'[i]].next == order'[j] {
      if i > 0 { assert order'[i] == order[i - 1] && order'[j] == order[j - 1]; }
    }
  }

  // ---- giving an object back ---------------------------------------------------------------------

  /** The object goes to the front of the chain of its page; first_nonfull is not refreshed. */
  ghost function Pushed(s: State, a: nat): State
    requires PageOf(a) in s.heads && PageOf(a) in s.chains
  {
    var p := PageOf(a);
    var h := s.heads[p];
    s.(heads := s.heads[p := Head(h.next, a, h.nbEmpty + 1)], mem := s.mem[a := h.firstEmpty],
       chains := s.chains[p := [a] + s.chains[p]], live := s.live - {a})
  }

  lemma PushedKeeps(objsz: nat, s: State, a: nat)
    requires Inv(objsz, s) && a in s.live
    ensures PageOf(a) in s.heads && PageOf(a) in s.chains && Inv(objsz, Pushed(s, a))
  {
    hide HasRoom, IsSlot, PageOf, Listed, ChainsSound, LiveSound, NonfullSound, Counted, NoDuplicates, Pushed;
    PushedChains(objsz, s, a);
    ListedFacts(s.heads, s.firstPage, s.order, PageOf(a));
    PushedLists(objsz, s, a);
    PushedCounted(objsz, s, a);
  }

  lemma PushedLists(objsz: nat, s: State, a: nat)
    requires Inv(objsz, s) && PageOf(a) in s.heads && PageOf(a) in s.chains
    ensures var s' := Pushed(s, a);
            Listed(s'.heads, s'.firstPage, s'.order) && LiveSound(objsz, s') && NonfullSound(s')
  {
    hide HasRoom, IsSlot, PageOf, Listed, ChainsSound, Counted, NoDuplicates, Load;
    HeadChanged(s.heads, s.firstPage, s.order, PageOf(a), Pushed(s, a).heads[PageOf(a)]);
  }

  lemma PushedCounted(objsz: nat, s: State, a: nat)
    requires objsz > 0 && Counted(objsz, s) && NoDuplicates(s.order) && a in s.live
    requires PageOf(a) in s.heads && PageOf(a) in s.chains && PageOf(a) in s.order
    ensures Counted(objsz, Pushed(s, a))
  {
    hide FreeCount, PageOf, PerPage;
    HeadCounted(objsz, s, Pushed(s, a), PageOf(a));
  }

  lemma PushedChains(objsz: nat, s: State, a: nat)
    requires objsz > 0 && Listed(s.heads, s.firstPage, s.order) && ChainsSound(objsz, s) && LiveSound(objsz, s)
    requires a in s.live
    ensures PageOf(a) in s.heads && PageOf(a) in s.chains && ChainsSound(objsz, Pushed(s, a))
  {
    var p := PageOf(a);
    hide IsSlot, PageOf, Load, ChainSound, Listed;
    PushedOthers(objsz, s, p, a);
    PushedChain(objsz, p, s.heads[p], s.chains[p], s.mem, s.live, a);
  }

  lemma PushedOthers(objsz: nat, s: State, p: nat, a: nat)
    requires objsz > 0 && Listed(s.heads, s.firstPage, s.order) && ChainsSound(objsz, s)
    requires p in s.heads && IsSlot(objsz, p, a)
    ensures forall q :: q in s.heads && q != p ==>
              ChainSound(objsz, q, s.heads[q], s.chains[q], s.mem[a := s.heads[p].firstEmpty], s.live - {a})
  {
    hide HasRoom, IsSlot, ChainSound;
    forall q | q in s.heads && q != p
      ensures ChainSound(objsz, q, s.heads[q], s.chains[q], s.mem[a := s.heads[p].firstEmpty], s.live - {a})
    {
      OtherChain(objsz, p, q, a, s.heads[q], s.chains[q], s.mem, s.live, s.heads[p].firstEmpty);
    }
  }

  lemma PushedChain(objsz: nat, p: nat, h: Head, chain: seq<nat>, mem: map<nat, nat>, live: set<nat>, a: nat)
    requires objsz > 0 && ChainSound(objsz, p, h, chain, mem, live) && a in live && IsSlot(objsz, p, a)
    ensures ChainSound(objsz, p, Head(h.next, a, h.nbEmpty + 1), [a] + chain, mem[a := h.firstEmpty], live - {a})
  {
    hide IsSlot;
    var chain', mem' := [a] + chain, mem[a := h.firstEmpty];
    forall i, j | 0 <= i < j < |chain'| && j == i + 1 ensures Load(mem', chain'[i]) == chain'[j] {
      if i > 0 { assert chain'[i] == chain[i - 1] && chain'[j] == chain[j - 1]; }
    }
  }

  // ---- objects in use ------------------------------------------------------------------------------

  /** Objects handed out do not overlap, wherever their pages are. */
  lemma LiveApart(objsz: nat, s: State, a: nat, b: nat)
    requires Inv(objsz, s) && a in s.live && b in s.live && a < b
    ensures a + objsz <= b
  {
    hide HasRoom, SlotAddress, ChainsSound, Counted, PerPage, NonfullSound;
    SlotsOfPages(objsz, PageOf(a), a, PageOf(b), b);
  }

  lemma SlotsOfPages(objsz: nat, p: nat, a: nat, q: nat, b: nat)
    requires objsz > 0 && p % PAGE_BYTES == 0 && q % PAGE_BYTES == 0
    requires IsSlot(objsz, p, a) && IsSlot(objsz, q, b) && a < b
    ensures a + objsz <= b
  {
    SlotRounds(objsz, p, a);
    SlotRounds(objsz, q, b);
    if p == q {
      var j: nat :| j < PerPage(objsz) && a == SlotAddress(objsz, p, j);
      var k: nat :| k < PerPage(objsz) && b == SlotAddress(objsz, p, k);
      hide PerPage, SlotAddress, IsSlot, PageOf;
      if k < j { SlotsApart(objsz, p, k, j); } else if j < k { SlotsApart(objsz, p, j, k); }
    } else {
      hide PerPage, SlotAddress, IsSlot, PageOf;
      OutsidePage(p, q, b);
    }
  }

  /** A free object and an object in use do not overlap. */
  lemma FreeApart(objsz: nat, p: nat, h: Head, chain: seq<nat>, mem: map<nat, nat>,
                  live: set<nat>, a: nat, q: nat, i: nat)
    requires objsz > 0 && ChainSound(objsz, p, h, chain, mem, live) && i < |chain|
    requires a in live && IsSlot(objsz, q, a) && p % PAGE_BYTES == 0 && q % PAGE_BYTES == 0
    ensures !(a <= chain[i] < a + objsz)
  {
    hide IsSlot;
    assert IsSlot(objsz, p, chain[i]) && chain[i] !in live;
    if a < chain[i] { SlotsOfPages(objsz, q, a, p, chain[i]); }
  }

  /** The owner of an object may store any word anywhere in it. */
  lemma WriteKeeps(objsz: nat, s: State, a: nat, x: nat, v: nat)
    requires Inv(objsz, s) && a in s.live && a <= x && x + 4 <= a + objsz
    ensures Inv(objsz, s.(mem := s.mem[x := v]))
  {
    WriteKeepsChains(objsz, s, a, x, v);
    hide HasRoom, ChainsSound, Listed, FreeCount, PerPage, IsSlot, PageOf;
    var s' := s.(mem := s.mem[x := v]);
    assert LiveSound(objsz, s') && NonfullSound(s') && Counted(objsz, s');
  }

  lemma WriteKeepsChains(objsz: nat, s: State, a: nat, x: nat, v: nat)
    requires objsz > 0 && Listed(s.heads, s.firstPage, s.order) && ChainsSound(objsz, s) && LiveSound(objsz, s)
    requires a in s.live && a <= x < a + objsz
    ensures ChainsSound(objsz, s.(mem := s.mem[x := v]))
  {
    ListedFacts(s.heads, s.firstPage, s.order, PageOf(a));
    hide HasRoom, IsSlot, PageOf, NoDuplicates;
    forall p | p in s.heads ensures ChainSound(objsz, p, s.heads[p], s.chains[p], s.mem[x := v], s.live) {
      ListedFacts(s.heads, s.firstPage, s.order, p);
      hide Listed;
      forall i | 0 <= i < |s.chains[p]| ensures s.chains[p][i] != x {
        FreeApart(objsz, p, s.heads[p], s.chains[p], s.mem, s.live, a, PageOf(a), i);
      }
      assert forall i :: 0 <= i < |s.chains[p]| ==> Load(s.mem[x := v], s.chains[p][i]) == Load(s.mem, s.chains[p][i]);
      hide Load;
    }
  }

  /** An object in use keeps its contents when other objects are taken and given back. */
  lemma PushedKeepsContents(objsz: nat, s: State, a: nat, b: nat, x: nat)
    requires Inv(objsz, s) && a in s.live && b in s.live && a != b && b <= x && x + 4 <= b + objsz
    requires PageOf(a) in s.heads && PageOf(a) in s.chains
    ensures Load(Pushed(s, a).mem, x) == Load(s.mem, x)
  {
    hide Inv, PageOf;
    if a < b { LiveApart(objsz, s, a, b); } else { LiveApart(objsz, s, b, a); }
  }

  // ---- runs ------------------------------------------------------------------------------------------

  /** Take: pool_alloc, with the page the system would give and memory once that page is linked.
      Give: pool_free. Store: an owner writes a word in its object. */
  datatype Op = Take(page: nat, mem: map<nat, nat>) | Give(a: nat) | Store(a: nat, x: nat, v: nat)

  ghost predicate Enabled(objsz: nat, s: State, op: Op)
    requires objsz > 0
  {
    match op
    case Take(page, mem) =>
      page == NULL || (page !in s.heads && page % PAGE_BYTES == 0 && Linked(objsz, page, mem)
                       && OnlyPage(objsz, page, s.mem, mem))
    case Give(a) => a in s.live
    case Store(a, x, _) => a in s.live && a <= x && x + 4 <= a + objsz
  }

  /** The page pool_alloc takes from, after it was added if need be; none when memory is out. */
  ghost function Source(objsz: nat, s: State, page: nat, mem: map<nat, nat>): State
    requires objsz > 0
  {
    if s.firstNonfull == NULL && page != NULL then WithPage(objsz, s, page, mem) else s
  }

  lemma SourceKeeps(objsz: nat, s: State, page: nat, mem: map<nat, nat>)
    requires Inv(objsz, s) && Enabled(objsz, s, Take(page, mem))
    ensures var s' := Source(objsz, s, page, mem);
            Inv(objsz, s') && (s'.firstNonfull == NULL <==> s.firstNonfull == NULL && page == NULL) && s'.live == s.live
  {
    hide Inv, Linked, OnlyPage, Slots;
    if s.firstNonfull == NULL && page != NULL { WithPageKeeps(objsz, s, page, mem); }
  }

  ghost function Next(objsz: nat, s: State, op: Op): State
    requires Inv(objsz, s) && Enabled(objsz, s, op)
    ensures Inv(objsz, Next(objsz, s, op))
  {
    hide Inv, Linked, OnlyPage, Popped, Pushed, PageOf;
    match op
    case Take(page, mem) =>
      SourceKeeps(objsz, s, page, mem);
      var s' := Source(objsz, s, page, mem);
      if s'.firstNonfull == NULL then s
      else
        InvFacts(objsz, s');
        PoppedKeeps(objsz, s', s'.firstNonfull);
        Popped(s', s'.firstNonfull)
    case Give(a) =>
      PushedKeeps(objsz, s, a);
      Pushed(s, a)
    case Store(a, x, v) =>
      WriteKeeps(objsz, s, a, x, v);
      s.(mem := s.mem[x := v])
  }

  /** pool_alloc hands out an object that overlaps no object in use, unless memory is out. */
  lemma TakeIsFresh(objsz: nat, s: State, page: nat, mem: map<nat, nat>, b: nat)
    requires Inv(objsz, s) && Enabled(objsz, s, Take(page, mem)) && b in s.live
    requires !(s.firstNonfull == NULL && page == NULL)
    ensures exists a: nat :: a !in s.live && Next(objsz, s, Take(page, mem)).live == s.live + {a}
                             && (a + objsz <= b || b + objsz <= a)
  {
    hide Inv, Linked, OnlyPage, IsSlot, PageOf, WithPage;
    InvFacts(objsz, s);
    SourceKeeps(objsz, s, page, mem);
    var s' := Source(objsz, s, page, mem);
    InvFacts(objsz, s');
    PoppedKeeps(objsz, s', s'.firstNonfull);
    var t := Popped(s', s'.firstNonfull);
    var a := s'.heads[s'.firstNonfull].firstEmpty;
    if a < b { LiveApart(objsz, t, a, b); } else { LiveApart(objsz, t, b, a); }
  }

  ghost predicate CanRun(objsz: nat, s: State, ops: seq<Op>)
    requires Inv(objsz, s)
    decreases |ops|
  {
    ops == [] || (Enabled(objsz, s, ops[0]) && CanRun(objsz, Next(objsz, s, ops[0]), ops[1..]))
  }

  ghost function Run(objsz: nat, s: State, ops: seq<Op>): State
    requires Inv(objsz, s) && CanRun(objsz, s, ops)
    ensures Inv(objsz, Run(objsz, s, ops))
    decreases |ops|
  {
    if ops == [] then s else Run(objsz, Next(objsz, s, ops[0]), ops[1..])
  }

  /** After every run from an empty pool: what is in use plus what is free is every object of every
      page, each object in use is one of its page, and the two pages are found by rounding. */
  lemma RunConserves(objsz: nat, ops: seq<Op>, a: nat)
    requires SizeOk(objsz) && Inv(objsz, EMPTY) && CanRun(objsz, EMPTY, ops)
    ensures var s := Run(objsz, EMPTY, ops);
            && (forall i :: 0 <= i < |s.order| ==> s.order[i] in s.heads)
            && |s.live| + FreeCount(s.heads, s.order) == |s.order| * PerPage(objsz)
            && (a in s.live ==> PageOf(a) in s.heads && IsSlot(objsz, PageOf(a), a))
  {
    hide Run, CanRun, HasRoom, PerPage, FreeCount, IsSlot, PageOf, Listed, ChainsSound;
    var s := Run(objsz, EMPTY, ops);
    assert Counted(objsz, s) && LiveSound(objsz, s);
  }

  // ---- pages taken although an object is free --------------------------------------------------------

  /** pool_alloc would ask for a page although an object is free. */
  ghost predicate Wasteful(s: State) {
    && s.firstNonfull == NULL && (forall i :: 0 <= i < |s.order| ==> s.order[i] in s.heads)
    && FreeCount(s.heads, s.order) > 0
  }

  /** pool_free does not refresh first_nonfull. stranded says whether an object was given back while it
      was NULL, and no page was added since. */
  ghost function StillStranded(s: State, op: Op, stranded: bool): bool {
    match op
    case Take(page, _) => stranded && !(s.firstNonfull == NULL && page != NULL)
    case Give(_) => stranded || s.firstNonfull == NULL
    case Store(_, _, _) => stranded
  }

  ghost predicate Stranded(objsz: nat, s: State, ops: seq<Op>, stranded: bool)
    requires Inv(objsz, s) && CanRun(objsz, s, ops)
    decreases |ops|
  {
    if ops == [] then stranded
    else Stranded(objsz, Next(objsz, s, ops[0]), ops[1..], StillStranded(s, ops[0], stranded))
  }

  lemma {:induction false} NoneFree(heads: map<nat, Head>, order: seq<nat>)
    requires forall i :: 0 <= i < |order| ==> order[i] in heads && heads[order[i]].nbEmpty == 0
    ensures FreeCount(heads, order) == 0
  {
    if order != [] { NoneFree(heads, order[1..]); }
  }

  /** Taking an object from the first page with room leaves first_nonfull right. */
  lemma PoppedNotWasteful(objsz: nat, s: State)
    requires Inv(objsz, s) && s.firstNonfull != NULL && CanPop(s, s.firstNonfull)
    ensures !Wasteful(Popped(s, s.firstNonfull))
  {
    hide Inv, FreeCount, FirstNonfull, Load;
    var p := s.firstNonfull;
    InvFacts(objsz, s);
    ListedFacts(s.heads, s.firstPage, s.order, p);
    var t := Popped(s, p);
    if t.firstNonfull == NULL { NoneFree(t.heads, t.order); }
  }

  lemma StrandedStep(objsz: nat, s: State, op: Op)
    requires Inv(objsz, s) && Enabled(objsz, s, op)
    ensures Wasteful(Next(objsz, s, op)) <==> StillStranded(s, op, Wasteful(s))
  {
    hide Inv, Linked, OnlyPage, Popped, WithPage, PageOf, FreeCount;
    match op
    case Take(page, mem) =>
      InvFacts(objsz, s);
      SourceKeeps(objsz, s, page, mem);
      var s' := Source(objsz, s, page, mem);
      if s'.firstNonfull != NULL {
        InvFacts(objsz, s');
        PoppedKeeps(objsz, s', s'.firstNonfull);
        PoppedNotWasteful(objsz, s');
      }
    case Give(a) => GivenIsFree(objsz, s, a);
    case Store(_, _, _) =>
  }

  lemma GivenIsFree(objsz: nat, s: State, a: nat)
    requires Inv(objsz, s) && a in s.live
    ensures PageOf(a) in s.heads && PageOf(a) in s.chains
    ensures Wasteful(Pushed(s, a)) <==> s.firstNonfull == NULL
  {
    hide Inv, PageOf, FreeCount;
    PushedKeeps(objsz, s, a);
    InvFacts(objsz, s);
    ListedFacts(s.heads, s.firstPage, s.order, PageOf(a));
    FreeCountAtLeast(Pushed(s, a).heads, s.order, PageOf(a));
  }

  lemma {:induction false} FreeCountAtLeast(heads: map<nat, Head>, order: seq<nat>, p: nat)
    requires (forall i :: 0 <= i < |order| ==> order[i] in heads) && p in order
    ensures FreeCount(heads, order) >= heads[p].nbEmpty
  {
    if p != order[0] {
      assert p in order[1..];
      FreeCountAtLeast(heads, order[1..], p);
    }
  }

  lemma {:induction false} StrandedRun(objsz: nat, s: State, ops: seq<Op>)
    requires Inv(objsz, s) && CanRun(objsz, s, ops)
    ensures Wasteful(Run(objsz, s, ops)) <==> Stranded(objsz, s, ops, Wasteful(s))
    decreases |ops|
  {
    hide Inv, Next, Enabled, Wasteful, StillStranded;
    if ops != [] {
      StrandedStep(objsz, s, ops[0]);
      StrandedRun(objsz, Next(objsz, s, ops[0]), ops[1..]);
    }
  }

  /** Over every run from an empty pool: pool_alloc takes a page although an object is free exactly when
      an object was given back while first_nonfull was NULL and no page was added since. */
  lemma NeedlessPageExact(objsz: nat, ops: seq<Op>, page: nat, mem: map<nat, nat>)
    requires SizeOk(objsz) && Inv(objsz, EMPTY) && CanRun(objsz, EMPTY, ops) && page != NULL
    requires Enabled(objsz, Run(objsz, EMPTY, ops), Take(page, mem))
    ensures var s := Run(objsz, EMPTY, ops);
            && (forall i :: 0 <= i < |s.order| ==> s.order[i] in s.heads)
            && (FreeCount(s.heads, s.order) > 0 && Next(objsz, s, Take(page, mem)).order == [page] + s.order
                <==> Stranded(objsz, EMPTY, ops, false))
  {
    hide Run, CanRun, Inv, Stranded, Linked, OnlyPage, Popped, Slots, FreeCount, HasRoom;
    StrandedRun(objsz, EMPTY, ops);
    var s := Run(objsz, EMPTY, ops);
    AllListed(objsz, s);
    SourceKeeps(objsz, s, page, mem);
    var s' := Source(objsz, s, page, mem);
    InvFacts(objsz, s');
    PoppedKeeps(objsz, s', s'.firstNonfull);
    SameOrder(s', s'.firstNonfull);
    assert |[page] + s.order| != |s.order|;
    NothingFree();
  }

  lemma NothingFree()
    ensures !Wasteful(EMPTY)
  {
  }

  lemma SameOrder(s: State, p: nat)
    requires CanPop(s, p)
    ensures Popped(s, p).order == s.order
  {
    hide FirstNonfull, Load;
  }

  lemma AllListed(objsz: nat, s: State)
    requires Inv(objsz, s)
    ensures forall i :: 0 <= i < |s.order| ==> s.order[i] in s.heads
  {
    hide Counted, ChainsSound, LiveSound, HasRoom, NonfullSound;
  }

  const ONE_TAKEN: State := State(map[1024 := Head(0, 0, 0)], map[], 1024, 0, [1024], map[1024 := []], {1036})
  const ONE_BACK: State :=
    State(map[1024 := Head(0, 1036, 1)], map[1036 := 0], 1024, 0, [1024], map[1024 := [1036]], {})

  /** Objects of 512 bytes, one to a page: taken, given back and taken again, one object costs two pages. */
  lemma TwoPagesForOne()
    ensures SizeOk(512) && PerPage(512) == 1 && Inv(512, EMPTY)
    ensures var ops := [Take(1024, map[]), Give(1036), Take(2048, map[1036 := 0])];
            CanRun(512, EMPTY, ops) && Run(512, EMPTY, ops).order == [2048, 1024] && |Run(512, EMPTY, ops).live| == 1
  {
    hide Next, Inv, Enabled;
    EmptyInv(512);
    var ops := [Take(1024, map[]), Give(1036), Take(2048, map[1036 := 0])];
    FirstTake();
    GiveBackOne();
    SecondTake();
    assert ops[1..] == [Give(1036), Take(2048, map[1036 := 0])];
    assert ops[1..][1..] == [Take(2048, map[1036 := 0])];
    assert ops[1..][1..][1..] == [];
  }

  lemma FirstTake()
    requires Inv(512, EMPTY)
    ensures Enabled(512, EMPTY, Take(1024, map[])) && Next(512, EMPTY, Take(1024, map[])) == ONE_TAKEN
  {
    hide Inv;
    assert Slots(512, 1024, 0) == [1036];
    var s := WithPage(512, EMPTY, 1024, map[]);
    assert s == Source(512, EMPTY, 1024, map[]);
    SourceKeeps(512, EMPTY, 1024, map[]);
    InvFacts(512, s);
    PoppedKeeps(512, s, 1024);
    assert Popped(s, 1024) == ONE_TAKEN;
  }

  lemma GiveBackOne()
    requires Inv(512, ONE_TAKEN)
    ensures Enabled(512, ONE_TAKEN, Give(1036)) && Next(512, ONE_TAKEN, Give(1036)) == ONE_BACK
  {
    hide Inv;
    PushedKeeps(512, ONE_TAKEN, 1036);
    assert PageOf(1036) == 1024 && {1036} - {1036} == {};
    var s := Pushed(ONE_TAKEN, 1036);
    assert s.heads == ONE_BACK.heads && s.mem == ONE_BACK.mem && s.live == ONE_BACK.live;
    assert [1036] + ONE_TAKEN.chains[1024] == [1036];
    assert s.chains == ONE_BACK.chains;
  }

  lemma SecondTake()
    requires Inv(512, ONE_BACK)
    ensures var op := Take(2048, map[1036 := 0]);
            Enabled(512, ONE_BACK, op) &&
            var s := Next(512, ONE_BACK, op); s.order == [2048, 1024] && |s.live| == 1
  {
    hide Inv;
    var s := WithPage(512, ONE_BACK, 2048, map[1036 := 0]);
    SourceKeeps(512, ONE_BACK, 2048, map[1036 := 0]);
    InvFacts(512, s);
    PoppedKeeps(512, s, 2048);
    assert Popped(s, 2048).live == {s.heads[2048].firstEmpty};
  }

  // ---- the allocator ------------------------------------------------------------------------------------

  const EMPTY: State := State(map[], map[], NULL, NULL, [], map[], {})

  lemma EmptyInv(objsz: nat)
    requires SizeOk(objsz)
    ensures Inv(objsz, EMPTY)
  {
    hide HasRoom;
    var s := EMPTY;
    assert Counted(objsz, s) by {
      assert 0 * PerPage(objsz) == 0;
    }
  }

  lemma InvFacts(objsz: nat, s: State)
    requires Inv(objsz, s)
    ensures SizeOk(objsz) && Listed(s.heads, s.firstPage, s.order) && NonfullSound(s)
  {
    hide HasRoom, Listed, ChainsSound, LiveSound, NonfullSound, Counted;
  }

  /** struct pool_alloc, with the memory of its pages; view is the same with the proof's additions. */
  class Allocator {
    const objsz: nat
    const perpage: nat
    var heads: map<nat, Head>
    var mem: map<nat, nat>
    var firstPage: nat
    var firstNonfull: nat
    ghost var view: State

    ghost predicate Viewed()
      requires objsz > 0
      reads this
    {
      && heads == view.heads && mem == view.mem && firstPage == view.firstPage
      && firstNonfull == view.firstNonfull && perpage == PerPage(objsz)
    }

    ghost predicate Valid()
      reads this
    {
      objsz > 0 && Inv(objsz, view) && Viewed()
    }

    constructor (objsz: nat)
      requires SizeOk(objsz)
      ensures Valid() && this.objsz == objsz && view.live == {} && view.order == []
    {
      this.objsz, perpage := objsz, PerPage(objsz);
      heads, mem, firstPage, firstNonfull := map[], map[], NULL, NULL;
      view := EMPTY;
      new;
      EmptyInv(objsz);
    }

    /** get_new_pool_page, and its caller's linking of the page: the objects of the page are linked
        one after the other. All words it writes lie in the page exactly when the objects leave four
        bytes of it. */
    method NewPage(page: nat) returns (ghost written: set<nat>)
      requires Sized(objsz) && perpage == PerPage(objsz) && page % PAGE_BYTES == 0
      modifies `heads, `mem
      ensures heads == old(heads)[page := Head(firstPage, SlotAddress(objsz, page, 0), PerPage(objsz))]
      ensures Linked(objsz, page, mem)
      ensures forall a: nat :: a !in written ==> Load(mem, a) == Load(old(mem), a)
      ensures Inside(page, written) <==> (PAGE_BYTES - HEAD_BYTES) % objsz >= 4
      ensures SizeOk(objsz) ==> OnlyPage(objsz, page, old(mem), mem)
    {
      hide HasRoom;
      var cur: nat := SlotAddress(objsz, page, 0);
      heads := heads[page := Head(firstPage, cur, perpage)];
      var prev: nat := NULL;
      var i: nat := 0;
      written := {};
      while i < perpage
        invariant i <= perpage && cur == SlotAddress(objsz, page, i)
        invariant i == 0 ==> prev == NULL
        invariant i > 0 ==> prev != NULL && prev == SlotAddress(objsz, page, i - 1)
        invariant i > 0 ==> Threaded(objsz, page, mem, i - 1)
        invariant Inside(page, written) && forall a: nat :: a !in written ==> Load(mem, a) == Load(old(mem), a)
        modifies `mem
      {
        if prev != NULL {
          ThreadOne(objsz, page, mem, i - 1);
          mem := mem[prev := cur];
          written := written + {prev};
        }
        prev := cur;
        cur, i := NextSlot(objsz, page, cur, i), i + 1;
      }
      EndOfPage(objsz, page, mem);
      mem := mem[cur := NULL];
      written := written + {cur};
      TerminatorExact(objsz, page);
    }

    /** get_first_nonfull. */
    method GetFirstNonfull(ghost order: seq<nat>) returns (r: nat)
      requires Listed(heads, firstPage, order)
      ensures r == FirstNonfull(heads, order)
    {
      r := firstPage;
      ghost var i: nat := 0;
      while r != NULL && heads[r].nbEmpty == 0
        invariant i <= |order| && r == AddressAt(order, i)
        invariant FirstNonfull(heads, order[i..]) == FirstNonfull(heads, order)
        decreases |order| - i
      {
        assert i + 1 < |order| ==> heads[order[i]].next == order[i + 1];
        r := heads[r].next;
        assert order[i..][1..] == order[i + 1..];
        i := i + 1;
      }
    }

    /** check_page_owned. */
    method CheckPageOwned(page: nat, ghost order: seq<nat>) returns (owned: bool)
      requires Listed(heads, firstPage, order)
      ensures owned <==> page in heads
    {
      var cur := firstPage;
      ghost var i: nat := 0;
      while cur != NULL && cur != page
        invariant i <= |order| && cur == AddressAt(order, i)
        invariant page !in order[..i]
        decreases |order| - i
      {
        assert i + 1 < |order| ==> heads[order[i]].next == order[i + 1];
        assert order[..i + 1] == order[..i] + [order[i]];
        cur := heads[cur].next;
        i := i + 1;
      }
      owned := cur != NULL;
      assert order[..|order|] == order;
    }

    /** pool_alloc; page is what arch_pm_get_free_page would give, NULL when memory is out. */
    method Alloc(page: nat) returns (r: nat)
      requires Valid() && page !in heads && page % PAGE_BYTES == 0
      modifies this
      ensures Valid()
      ensures r == NULL <==> old(firstNonfull) == NULL && page == NULL
      ensures r == NULL ==> view == old(view)
      ensures r != NULL ==> r !in old(view).live && view.live == old(view).live + {r}
      ensures r != NULL ==> IsSlot(objsz, PageOf(r), r)
                            && PageOf(r) == if old(firstNonfull) != NULL then old(firstNonfull) else page
      ensures view.order ==
              if old(firstNonfull) == NULL && page != NULL then [page] + old(view).order else old(view).order
      ensures old(firstNonfull) != NULL ==> mem == old(mem)
      ensures OnlyPage(objsz, page, old(mem), mem)
    {
      hide Inv, SizeOk, Listed, IsSlot, PageOf, Popped, CanPop, PerPage;
      InvFacts(objsz, view);
      r := NULL;
      var curpage := firstNonfull;
      if curpage == NULL {
        curpage := page;
        if curpage != NULL {
          AddPage(page);
        }
      }
      if curpage != NULL {
        PoppedObject(objsz, view, curpage);
        r := Pop(curpage);
      }
    }

    method AddPage(page: nat)
      requires Valid() && page !in heads && page % PAGE_BYTES == 0 && page != NULL
      modifies this
      ensures Valid() && view == WithPage(objsz, old(view), page, mem)
      ensures OnlyPage(objsz, page, old(mem), mem)
      ensures page in heads && heads[page].nbEmpty > 0
    {
      hide Inv, Listed, HasRoom, OnlyPage, PerPage, SlotAddress, NonfullSound, Threaded, Inside, Load;
      InvFacts(objsz, view);
      ghost var written := NewPage(page);
      firstPage, firstNonfull := page, page;
      WithPageKeeps(objsz, view, page, mem);
      view := WithPage(objsz, view, page, mem);
    }

    method Pop(page: nat) returns (r: nat)
      requires Valid() && page in heads && heads[page].nbEmpty > 0
      modifies `heads, `firstNonfull, `view
      ensures Valid() && CanPop(old(view), page) && view == Popped(old(view), page)
      ensures r == old(heads)[page].firstEmpty
    {
      hide Inv, Listed, FirstNonfull, Load, SizeOk, NonfullSound, PerPage, IsSlot, PageOf, Popped;
      InvFacts(objsz, view);
      PoppedKeeps(objsz, view, page);
      PoppedFields(view, heads, mem, page);
      r := heads[page].firstEmpty;
      var h := Head(heads[page].next, Load(mem, r), heads[page].nbEmpty - 1);
      HeadChanged(heads, firstPage, view.order, page, h);
      heads := heads[page := h];
      if h.nbEmpty == 0 {
        firstNonfull := GetFirstNonfull(view.order);
      }
      view := Popped(view, page);
    }

    /** pool_free: an address outside the pages of the pool is ignored. */
    method Free(obj: nat)
      requires Valid() && (PageOf(obj) in heads ==> obj in view.live)
      modifies `heads, `mem, `view
      ensures Valid()
      ensures obj in old(view).live ==> PageOf(obj) in old(view).heads && PageOf(obj) in old(view).chains
      ensures view == if obj in old(view).live then Pushed(old(view), obj) else old(view)
    {
      hide Inv, Listed, SizeOk, NonfullSound, PageOf, PerPage, Pushed;
      InvFacts(objsz, view);
      var page := PageOf(obj);
      var owned := CheckPageOwned(page, view.order);
      if obj in view.live { PushedKeeps(objsz, view, obj); }
      if owned {
        PushedFields(view, heads, mem, obj);
        var h := heads[page];
        mem := mem[obj := h.firstEmpty];
        heads := heads[page := Head(h.next, obj, h.nbEmpty + 1)];
        view := Pushed(view, obj);
      }
    }
  }

  lemma PushedFields(s: State, heads: map<nat, Head>, mem: map<nat, nat>, a: nat)
    requires PageOf(a) in s.heads && PageOf(a) in s.chains && heads == s.heads && mem == s.mem
    ensures var s', h := Pushed(s, a), heads[PageOf(a)];
            && heads[PageOf(a) := Head(h.next, a, h.nbEmpty + 1)] == s'.heads
            && mem[a := h.firstEmpty] == s'.mem && s'.firstPage == s.firstPage && s'.firstNonfull == s.firstNonfull
  {
    hide PageOf;
  }

  lemma PoppedFields(s: State, heads: map<nat, Head>, mem: map<nat, nat>, p: nat)
    requires CanPop(s, p) && heads == s.heads && mem == s.mem
    ensures var s' := Popped(s, p);
            var h := Head(heads[p].next, Load(mem, heads[p].firstEmpty), heads[p].nbEmpty - 1);
            && heads[p := h] == s'.heads && mem == s'.mem && s'.firstPage == s.firstPage
            && s'.firstNonfull == if h.nbEmpty == 0 then FirstNonfull(heads[p := h], s.order) else s.firstNonfull
  {
    hide FirstNonfull, Load;
  }

  lemma PoppedObject(objsz: nat, s: State, p: nat)
    requires Inv(objsz, s) && p in s.heads && s.heads[p].nbEmpty > 0
    ensures CanPop(s, p)
    ensures var a := s.heads[p].firstEmpty;
            a != NULL && a !in s.live && IsSlot(objsz, p, a) && PageOf(a) == p && Popped(s, p).live == s.live + {a}
    ensures Popped(s, p).mem == s.mem && Popped(s, p).order == s.order
  {
    PoppedKeeps(objsz, s, p);
    InvFacts(objsz, s);
    ListedFacts(s.heads, s.firstPage, s.order, p);
    hide Inv, Listed, FirstNonfull, IsSlot, PageOf, HasRoom;
    SlotRounds(objsz, p, s.heads[p].firstEmpty);
  }

  function NextSlot(objsz: nat, page: nat, cur: nat, i: nat): (next: nat)
    requires cur == SlotAddress(objsz, page, i)
    ensures next == SlotAddress(objsz, page, i + 1)
  {
    assert (i + 1) * objsz == i * objsz + objsz;
    cur + objsz
  }

  /** One more link inside the page. */
  lemma ThreadOne(objsz: nat, page: nat, mem: map<nat, nat>, k: nat)
    requires Sized(objsz) && k + 1 < PerPage(objsz) && Threaded(objsz, page, mem, k)
    ensures Threaded(objsz, page, mem[SlotAddress(objsz, page, k) := SlotAddress(objsz, page, k + 1)], k + 1)
    ensures page <= SlotAddress(objsz, page, k) && SlotAddress(objsz, page, k) + 4 <= page + PAGE_BYTES
  {
    SlotFits(objsz, k);
    assert page <= SlotAddress(objsz, page, k) && SlotAddress(objsz, page, k) + 4 <= page + PAGE_BYTES;
    hide SlotAddress, PerPage;
    forall j | 0 <= j < k ensures SlotAddress(objsz, page, j) != SlotAddress(objsz, page, k) {
      SlotsApart(objsz, page, j, k);
    }
  }

  /** The final NULL leaves the chain alone. */
  lemma EndOfPage(objsz: nat, page: nat, mem: map<nat, nat>)
    requires Sized(objsz) && (PerPage(objsz) > 0 ==> Threaded(objsz, page, mem, PerPage(objsz) - 1))
    ensures Linked(objsz, page, mem[SlotAddress(objsz, page, PerPage(objsz)) := NULL])
  {
    var n := PerPage(objsz);
    assert n > 0;
    hide SlotAddress, PerPage;
    forall j | 0 <= j < n ensures SlotAddress(objsz, page, j) != SlotAddress(objsz, page, n) {
      SlotsApart(objsz, page, j, n);
    }
  }
}
