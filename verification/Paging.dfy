/** The demand-fault path (arch/sh/exception.c), the page copy of fork and the page release of
    exit and exec (sys/memory.c, sys/process.c). */
module Paging {
  import opened Arch
  import opened PhysicalMemory
  import opened PageDirs
  import opened Areas

  // ---- demand fault ------------------------------------------------------------------

  /** What the frame taken for a missing page holds after the fault. Anonymous pages are not cleared. */
  ghost function FaultFrame(a: Area, vpn: nat, junk: Frame): Frame
    requires Sound(a) && Contains(a, vpn * PAGE_BYTES)
  {
    if a.Mapped? then SegmentPage(a, vpn * PAGE_BYTES - a.addr) else junk
  }

  /** A major fault: the first free frame is filled and mapped. */
  ghost function FaultPm(pm: Pm, a: Area, vpn: nat): Pm
    requires pm.free != [] && pm.free[0] in pm.ram && Sound(a) && Contains(a, vpn * PAGE_BYTES)
  {
    var ppn := pm.free[0];
    Pm(pm.free[1..], pm.ram[ppn := FaultFrame(a, vpn, pm.ram[ppn])])
  }

  ghost function FaultPages(pages: PageMap, pm: Pm, vpn: nat): PageMap
    requires pm.free != []
  {
    pages[vpn := PmPage(pm.free[0], true, false)]
  }

  /** tlbmiss_handler, up to the TLB load: ok says whether the access is allowed. */
  method TlbMiss(dirs: DirList, areas: AreaList, pm: Allocator, vpn: nat, junk: seq<PmPage>)
    returns (ok: bool, ppn: nat)
    requires dirs.Valid() && pm.Valid() && Blank(junk)
    requires forall i :: 0 <= i < |areas.areas| ==> Sound(areas.areas[i])
    requires vpn !in dirs.Present() && Covered(areas.areas, vpn * PAGE_BYTES) ==> pm.free != []
    modifies dirs, pm
    ensures dirs.Valid() && pm.Valid()
    ensures ok <==> vpn in old(dirs.Present()) || Covered(areas.areas, vpn * PAGE_BYTES)
    ensures ok ==> vpn in dirs.Present() && ppn == dirs.Present()[vpn].ppn
    ensures !ok || vpn in old(dirs.Present()) ==> dirs.Present() == old(dirs.Present()) && pm.View() == old(pm.View())
    ensures ok && vpn !in old(dirs.Present()) ==>
              && dirs.Present() == FaultPages(old(dirs.Present()), old(pm.View()), vpn)
              && pm.View() == FaultPm(old(pm.View()), AreaAt(areas.areas, vpn * PAGE_BYTES), vpn)
  {
    hide Chained, Indexed, PageDirs.Linked, ByVpn, SegmentPage, Sound;
    ok, ppn := false, 0;
    var dir, index := dirs.Find(vpn);
    if dir == NULL || !dirs.mem[dir].pages[index].valid {
      var found, area := areas.Find(vpn * PAGE_BYTES);
      if found {
        var page := AreaFault(area, vpn, pm);
        var r := dirs.Insert(vpn, page, junk, true);
        dir, index := dirs.Find(vpn);
      }
    }
    if dir != NULL && dirs.mem[dir].pages[index].valid {
      ok, ppn := true, dirs.mem[dir].pages[index].ppn;
    }
  }

  lemma SameFrame(ram: map<nat, Frame>, ppn: nat)
    requires ppn in ram
    ensures ram[ppn := ram[ppn]] == ram
  {
  }

  /** mem_area_pagefault: smemfs_area_pagefault or anon_area_pagefault. */
  method AreaFault(area: Area, vpn: nat, pm: Allocator) returns (page: PmPage)
    requires pm.Valid() && pm.free != [] && Sound(area) && Contains(area, vpn * PAGE_BYTES)
    modifies pm
    ensures pm.Valid()
    ensures page == PmPage(old(pm.free)[0], true, false)
    ensures pm.View() == FaultPm(old(pm.View()), area, vpn)
  {
    hide Chained, SegmentPage, Sound, LinkTo;
    FirstIsManaged(pm.View());
    var ppn := pm.GetFreePage();
    if area.Mapped? {
      var frame := FillFilePage(area, vpn * PAGE_BYTES - area.addr, pm.ram[ppn]);
      pm.StoreFrame(ppn, frame);
    } else {
      SameFrame(pm.ram, ppn);
    }
    page := PmPage(ppn, true, false);
  }

  lemma FirstIsManaged(pm: Pm)
    requires Chained(pm) && pm.free != []
    ensures pm.free[0] in pm.ram
  {
  }

  // ---- fork -----------------------------------------------------------------------------

  /** Child pages and physical memory after copying the pages listed in order, one frame each. */
  ghost function ForkCopy(pages: PageMap, order: seq<nat>, pm: Pm): (r: (PageMap, Pm))
    requires |order| <= |pm.free|
    requires forall k :: 0 <= k < |order| ==> order[k] in pages && pages[order[k]].ppn in pm.ram
    requires Managed(pm)
    ensures r.1.free == pm.free[|order|..]
    ensures r.1.ram.Keys == pm.ram.Keys
  {
    if order == [] then (map[], pm) else
    var n := |order| - 1;
    var (child, mid) := ForkCopy(pages, order[..n], pm);
    var v, f := order[n], mid.free[0];
    (child[v := pages[v].(ppn := f)], Pm(mid.free[1..], mid.ram[f := mid.ram[pages[v].ppn]]))
  }

  /** The frames of the present pages, none of them free. */
  ghost predicate Backed(pages: PageMap, pm: Pm) {
    forall v :: v in pages ==> pages[v].ppn in pm.ram && pages[v].ppn !in pm.free && pages[v].valid
  }

  /** order lists page numbers of the map, each once. */
  ghost predicate Lists(order: seq<nat>, pages: PageMap) {
    && (forall k :: 0 <= k < |order| ==> order[k] in pages)
    && NoDuplicates(order)
  }

  /** The child has the listed entries, each on the next free frame. */
  ghost predicate EntriesCopied(pages: PageMap, order: seq<nat>, free: seq<nat>, child: PageMap) {
    && |order| <= |free|
    && (forall v :: v in child <==> v in order)
    && (forall k :: 0 <= k < |order| ==> order[k] in pages && child[order[k]] == pages[order[k]].(ppn := free[k]))
  }

  /** These frames hold what the listed pages hold; no other frame changed. */
  ghost predicate FramesCopied(pages: PageMap, order: seq<nat>, pm: Pm, pm': Pm) {
    && |order| <= |pm.free| && pm'.free == pm.free[|order|..] && pm'.ram.Keys == pm.ram.Keys
    && (forall k :: 0 <= k < |order| ==>
          && order[k] in pages && pages[order[k]].ppn in pm.ram && pm.free[k] in pm.ram
          && pm'.ram[pm.free[k]] == pm.ram[pages[order[k]].ppn])
    && (forall p :: p in pm.ram && (forall k :: 0 <= k < |order| ==> pm.free[k] != p) ==> pm'.ram[p] == pm.ram[p])
  }

  lemma {:induction false} ForkCopyIsCopy(pages: PageMap, order: seq<nat>, pm: Pm)
    requires Managed(pm) && Chained(pm) && Backed(pages, pm) && Lists(order, pages) && |order| <= |pm.free|
    ensures var (child, pm') := ForkCopy(pages, order, pm);
            EntriesCopied(pages, order, pm.free, child) && FramesCopied(pages, order, pm, pm') && Chained(pm')
  {
    if order != [] {
      hide Chained, FramesCopied, EntriesCopied;
      var n := |order| - 1;
      ForkCopyIsCopy(pages, order[..n], pm);
      var (child, mid) := ForkCopy(pages, order[..n], pm);
      EntryCopied(pages, order, pm.free, child);
      FrameCopied(pages, order, pm, mid);
      TakeKeepsChain(mid);
      StoreKeepsChain(Take(mid), mid.free[0], mid.ram[pages[order[n]].ppn]);
    }
  }

  lemma EntryCopied(pages: PageMap, order: seq<nat>, free: seq<nat>, child: PageMap)
    requires Lists(order, pages) && 0 < |order| <= |free|
    requires EntriesCopied(pages, order[..|order| - 1], free, child)
    ensures var n := |order| - 1;
            EntriesCopied(pages, order, free, child[order[n] := pages[order[n]].(ppn := free[n])])
  {
    var n := |order| - 1;
    var init := order[..n];
    assert order == init + [order[n]];
    assert order[n] !in init;
    assert forall k :: 0 <= k < n ==> init[k] == order[k];
  }

  lemma FrameCopied(pages: PageMap, order: seq<nat>, pm: Pm, mid: Pm)
    requires Managed(pm) && Backed(pages, pm) && Lists(order, pages) && 0 < |order| <= |pm.free|
    requires FramesCopied(pages, order[..|order| - 1], pm, mid)
    ensures var v, f := order[|order| - 1], mid.free[0];
            FramesCopied(pages, order, pm, Pm(mid.free[1..], mid.ram[f := mid.ram[pages[v].ppn]]))
  {
    var n := |order| - 1;
    var init, v, f := order[..n], order[n], mid.free[0];
    assert f == pm.free[n];
    var pm' := Pm(mid.free[1..], mid.ram[f := mid.ram[pages[v].ppn]]);
    assert mid.ram[pages[v].ppn] == pm.ram[pages[v].ppn];
    forall k | 0 <= k < |order| ensures pm'.ram[pm.free[k]] == pm.ram[pages[order[k]].ppn] {
      if k < n {
        assert order[k] == init[k] && pm.free[k] != f;
      }
    }
  }

  /** mem_copy_page, on a valid private page. */
  method CopyPage(orig: PmPage, dirs: DirList, vpn: nat, pm: Allocator, junk: seq<PmPage>)
    requires dirs.Valid() && pm.Valid() && pm.free != [] && Blank(junk)
    requires orig.valid && orig.ppn in pm.ram && orig.ppn !in pm.free
    modifies dirs, pm
    ensures dirs.Valid() && pm.Valid()
    ensures dirs.Present() == old(dirs.Present())[vpn := orig.(ppn := old(pm.free)[0])]
    ensures pm.View() == Pm(old(pm.free)[1..], old(pm.ram)[old(pm.free)[0] := old(pm.ram)[orig.ppn]])
  {
    hide Chained, Indexed, PageDirs.Linked, ByVpn, LinkTo;
    var dest := pm.GetFreePage();
    pm.StoreFrame(dest, pm.ram[orig.ppn]);
    var r := dirs.Insert(vpn, orig.(ppn := dest), junk, true);
  }

  ghost predicate Ascending(s: seq<nat>) {
    forall i, j :: 0 <= i < j < |s| ==> s[i] < s[j]
  }

  /** order is the list of all present page numbers below limit, in ascending order. */
  ghost predicate ListsBelow(order: seq<nat>, pages: PageMap, limit: nat) {
    && Ascending(order)
    && (forall k :: 0 <= k < |order| ==> order[k] in pages && order[k] < limit)
    && (forall v :: v in pages && v < limit ==> v in order)
  }

  lemma ListNext(order: seq<nat>, pages: PageMap, limit: nat)
    requires ListsBelow(order, pages, limit)
    ensures ListsBelow(if limit in pages then order + [limit] else order, pages, limit + 1)
  {
  }

  lemma ListSkip(order: seq<nat>, pages: PageMap, limit: nat, limit': nat)
    requires ListsBelow(order, pages, limit) && limit <= limit'
    requires forall v :: v in pages && v >= limit ==> v >= limit'
    ensures ListsBelow(order, pages, limit')
  {
  }

  lemma {:induction false} ListFits(order: seq<nat>, pages: PageMap)
    requires Ascending(order) && forall k :: 0 <= k < |order| ==> order[k] in pages
    ensures |order| <= |pages|
    decreases |order|
  {
    if order != [] {
      var n := |order| - 1;
      var v := order[n];
      var less := pages - {v};
      assert less.Keys == pages.Keys - {v};
      ListFits(order[..n], less);
    }
  }

  /** How far a fork has come: the pages below limit are copied. */
  ghost predicate CopiedBelow(pages: PageMap, pm0: Pm, limit: nat, order: seq<nat>, child: PageMap, pm: Pm) {
    && Managed(pm0) && Chained(pm0) && Backed(pages, pm0) && |pages| <= |pm0.free|
    && ListsBelow(order, pages, limit) && |order| <= |pm0.free|
    && (child, pm) == ForkCopy(pages, order, pm0)
  }

  lemma CopyNext(pages: PageMap, pm0: Pm, v: nat, order: seq<nat>, child: PageMap, pm: Pm)
    requires CopiedBelow(pages, pm0, v, order, child, pm)
    ensures v !in pages ==> CopiedBelow(pages, pm0, v + 1, order, child, pm)
    ensures v in pages ==>
      && pm.free != [] && pages[v].ppn in pm.ram && pages[v].ppn !in pm.free && pages[v].valid
      && CopiedBelow(pages, pm0, v + 1, order + [v], child[v := pages[v].(ppn := pm.free[0])],
                     Pm(pm.free[1..], pm.ram[pm.free[0] := pm.ram[pages[v].ppn]]))
  {
    hide Chained, Managed;
    ListNext(order, pages, v);
    if v in pages {
      var next := order + [v];
      ListFits(next, pages);
      assert next[..|order|] == order;
    }
  }

  lemma CopyStart(pages: PageMap, pm: Pm)
    requires Chained(pm) && Backed(pages, pm) && |pages| <= |pm.free|
    ensures CopiedBelow(pages, pm, 0, [], map[], pm)
  {
    hide BytesToWord;
  }

  lemma CopyEnd(pages: PageMap, pm0: Pm, limit: nat, order: seq<nat>, child: PageMap, pm: Pm)
    requires CopiedBelow(pages, pm0, limit, order, child, pm) && forall v :: v in pages ==> v < limit
    ensures Managed(pm0) && Ascending(order) && forall v :: v in order <==> v in pages
    ensures |order| <= |pm0.free| && (child, pm) == ForkCopy(pages, order, pm0)
  {
  }

  lemma CopySkip(pages: PageMap, pm0: Pm, limit: nat, limit': nat, order: seq<nat>, child: PageMap, pm: Pm)
    requires CopiedBelow(pages, pm0, limit, order, child, pm) && limit <= limit'
    requires forall v :: v in pages && v >= limit ==> v >= limit'
    ensures CopiedBelow(pages, pm0, limit', order, child, pm)
  {
    ListSkip(order, pages, limit, limit');
  }

  /** The page loop of sys_fork. */
  method ForkPages(parent: DirList, child: DirList, pm: Allocator, junk: seq<PmPage>) returns (ghost order: seq<nat>)
    requires parent != child && parent.Valid() && child.Valid() && pm.Valid() && Blank(junk)
    requires child.Present() == map[] && Backed(parent.Present(), pm.View())
    requires |parent.Present()| <= |pm.free|
    modifies child, pm
    ensures child.Valid() && pm.Valid()
    ensures Ascending(order) && forall v :: v in order <==> v in parent.Present()
    ensures Managed(old(pm.View())) && |order| <= |old(pm.free)|
            && (child.Present(), pm.View()) == ForkCopy(parent.Present(), order, old(pm.View()))
  {
    hide Chained, Indexed, ByVpn, CopiedBelow, Ascending, Managed;
    ghost var pages, pm0 := parent.Present(), pm.View();
    CopyStart(pages, pm0);
    order := [];
    var dir := parent.head;
    ghost var g, limit := 0, 0;
    while dir != NULL
      invariant child.Valid() && pm.Valid()
      invariant g <= |parent.order| && dir == AddressAt(parent.order, g)
      invariant limit == if g == 0 then 0 else Vpn(parent.mem[parent.order[g - 1]].id, DIR_PAGES)
      invariant CopiedBelow(pages, pm0, limit, order, child.Present(), pm.View())
      decreases |parent.order| - g
    {
      forall v | v in pages && v >= limit ensures v >= Vpn(parent.mem[dir].id, 0) { parent.NoPageBetween(g, v); }
      CopySkip(pages, pm0, limit, Vpn(parent.mem[dir].id, 0), order, child.Present(), pm.View());
      order := ForkDir(parent, child, pm, junk, dir, g, pages, pm0, order);
      Neighbours(parent.mem, parent.head, parent.order, g);
      limit := Vpn(parent.mem[dir].id, DIR_PAGES);
      dir := parent.mem[dir].next;
      g := g + 1;
    }
    forall v | v in pages ensures v < limit {
      if v >= limit { parent.NoPageBetween(g, v); }
    }
    CopyEnd(pages, pm0, limit, order, child.Present(), pm.View());
  }

  /** The inner loop, over the entries of one directory. */
  method ForkDir(parent: DirList, child: DirList, pm: Allocator, junk: seq<PmPage>,
                 dir: nat, ghost g: nat, ghost pages: PageMap, ghost pm0: Pm, ghost order0: seq<nat>)
    returns (ghost order: seq<nat>)
    requires parent != child && parent.Valid() && child.Valid() && pm.Valid() && Blank(junk)
    requires pages == parent.Present() && g < |parent.order| && dir == parent.order[g]
    requires CopiedBelow(pages, pm0, Vpn(parent.mem[dir].id, 0), order0, child.Present(), pm.View())
    modifies child, pm
    ensures child.Valid() && pm.Valid()
    ensures CopiedBelow(pages, pm0, Vpn(parent.mem[dir].id, DIR_PAGES), order, child.Present(), pm.View())
  {
    hide CopiedBelow, Chained, Indexed, ByVpn;
    order := order0;
    var id := parent.mem[dir].id;
    var i := 0;
    while i < DIR_PAGES
      invariant i <= DIR_PAGES
      invariant child.Valid() && pm.Valid()
      invariant CopiedBelow(pages, pm0, Vpn(id, i), order, child.Present(), pm.View())
    {
      order := ForkEntry(parent, child, pm, junk, dir, i, g, pages, pm0, order);
      i := i + 1;
    }
  }

  /** One entry of one directory: copied if it is valid. */
  method ForkEntry(parent: DirList, child: DirList, pm: Allocator, junk: seq<PmPage>, dir: nat, i: nat,
                   ghost g: nat, ghost pages: PageMap, ghost pm0: Pm, ghost order0: seq<nat>)
    returns (ghost order: seq<nat>)
    requires parent != child && parent.Valid() && child.Valid() && pm.Valid() && Blank(junk)
    requires pages == parent.Present() && g < |parent.order| && dir == parent.order[g] && i < DIR_PAGES
    requires CopiedBelow(pages, pm0, Vpn(parent.mem[dir].id, i), order0, child.Present(), pm.View())
    modifies child, pm
    ensures child.Valid() && pm.Valid()
    ensures CopiedBelow(pages, pm0, Vpn(parent.mem[dir].id, i + 1), order, child.Present(), pm.View())
  {
    hide CopiedBelow, Chained, Indexed, ByVpn;
    ghost var v, child0, pm1 := Vpn(parent.mem[dir].id, i), child.Present(), pm.View();
    order := order0;
    parent.EntryIsPresent(g, i);
    CopyNext(pages, pm0, v, order, child0, pm1);
    if parent.mem[dir].pages[i].valid {
      CopyPage(parent.mem[dir].pages[i], child, Vpn(parent.mem[dir].id, i), pm, junk);
      order := order + [v];
      assert child.Present() == child0[v := pages[v].(ppn := pm1.free[0])];
      assert pm.View() == Pm(pm1.free[1..], pm1.ram[pm1.free[0] := pm1.ram[pages[v].ppn]]);
    }
    assert Vpn(parent.mem[dir].id, i + 1) == v + 1;
  }

  // ---- exit and exec --------------------------------------------------------------------------

  /** Physical memory after the pages listed in order were given back. */
  ghost function Teardown(pages: PageMap, order: seq<nat>, pm: Pm): (r: Pm)
    requires forall k :: 0 <= k < |order| ==> order[k] in pages && pages[order[k]].ppn in pm.ram
    ensures r.ram.Keys == pm.ram.Keys
    ensures |r.free| == |order| + |pm.free|
  {
    if order == [] then pm else
    var n := |order| - 1;
    GiveBack(Teardown(pages, order[..n], pm), pages[order[n]].ppn)
  }

  ghost predicate Injective(pages: PageMap) {
    forall u, v :: u in pages && v in pages && u != v ==> pages[u].ppn != pages[v].ppn
  }

  /** The released frames are at the head of the free list, last one first; other frames are kept. */
  ghost predicate IsReleased(pages: PageMap, order: seq<nat>, pm: Pm, pm': Pm) {
    && (forall k :: 0 <= k < |order| ==> order[k] in pages)
    && pm'.ram.Keys == pm.ram.Keys && |pm'.free| == |order| + |pm.free|
    && (forall i {:trigger pm'.free[i]} :: 0 <= i < |order| ==> pm'.free[i] == pages[order[|order| - 1 - i]].ppn)
    && (forall i {:trigger pm'.free[i]} :: |order| <= i < |pm'.free| ==> pm'.free[i] == pm.free[i - |order|])
    && (forall p :: p in pm.ram && (forall k :: 0 <= k < |order| ==> pages[order[k]].ppn != p) ==>
          pm'.ram[p] == pm.ram[p])
  }

  lemma {:induction false} TeardownReleases(pages: PageMap, order: seq<nat>, pm: Pm)
    requires Chained(pm) && Backed(pages, pm) && Lists(order, pages) && Injective(pages)
    ensures IsReleased(pages, order, pm, Teardown(pages, order, pm))
    ensures Chained(Teardown(pages, order, pm))
  {
    if order != [] {
      hide Chained, IsReleased;
      var n := |order| - 1;
      TeardownReleases(pages, order[..n], pm);
      var mid := Teardown(pages, order[..n], pm);
      ReleaseOneMore(pages, order, pm, mid);
      GiveBackKeepsChain(mid, pages[order[n]].ppn);
    }
  }

  lemma ReleaseOneMore(pages: PageMap, order: seq<nat>, pm: Pm, mid: Pm)
    requires Backed(pages, pm) && Lists(order, pages) && Injective(pages) && order != []
    requires IsReleased(pages, order[..|order| - 1], pm, mid)
    ensures pages[order[|order| - 1]].ppn !in mid.free
    ensures IsReleased(pages, order, pm, GiveBack(mid, pages[order[|order| - 1]].ppn))
  {
    NotYetFree(pages, order, pm, mid);
    hide Backed, Injective, Lists;
    var n := |order| - 1;
    var init, pm' := order[..n], GiveBack(mid, pages[order[n]].ppn);
    FreeGrows(pages, order, pm, mid);
    forall p | p in pm.ram && (forall k :: 0 <= k < |order| ==> pages[order[k]].ppn != p)
      ensures pm'.ram[p] == pm.ram[p]
    {
      assert forall k :: 0 <= k < n ==> pages[init[k]].ppn != p;
      assert pages[order[n]].ppn != p && mid.ram[p] == pm.ram[p];
    }
  }

  lemma FreeGrows(pages: PageMap, order: seq<nat>, pm: Pm, mid: Pm)
    requires order != [] && (forall k :: 0 <= k < |order| ==> order[k] in pages)
    requires IsReleased(pages, order[..|order| - 1], pm, mid) && pages[order[|order| - 1]].ppn in mid.ram
    ensures var pm' := GiveBack(mid, pages[order[|order| - 1]].ppn);
            && |pm'.free| == |order| + |pm.free|
            && (forall i {:trigger pm'.free[i]} :: 0 <= i < |order| ==>
                  pm'.free[i] == pages[order[|order| - 1 - i]].ppn)
            && (forall i {:trigger pm'.free[i]} :: |order| <= i < |pm'.free| ==> pm'.free[i] == pm.free[i - |order|])
  {
    var n := |order| - 1;
    var init, pm' := order[..n], GiveBack(mid, pages[order[n]].ppn);
    assert forall i {:trigger pm'.free[i]} :: 0 < i < |pm'.free| ==> pm'.free[i] == mid.free[i - 1];
    forall i | 0 <= i < |order| ensures pm'.free[i] == pages[order[n - i]].ppn {
      if i > 0 { assert mid.free[i - 1] == pages[init[n - i]].ppn; }
    }
  }

  lemma NotYetFree(pages: PageMap, order: seq<nat>, pm: Pm, mid: Pm)
    requires Backed(pages, pm) && Lists(order, pages) && Injective(pages) && order != []
    requires IsReleased(pages, order[..|order| - 1], pm, mid)
    ensures pages[order[|order| - 1]].ppn in mid.ram && pages[order[|order| - 1]].ppn !in mid.free
  {
    var n := |order| - 1;
    var init := order[..n];
    assert forall k :: 0 <= k < n ==> init[k] == order[k];
    forall i | 0 <= i < |mid.free| ensures mid.free[i] != pages[order[n]].ppn {
      if i < n {
        assert mid.free[i] == pages[order[n - 1 - i]].ppn;
      }
    }
  }

  /** The pages from limit on. */
  ghost function FromOn(pages: PageMap, limit: nat): PageMap {
    map v | v in pages && v >= limit :: pages[v]
  }

  lemma FromNext(pages: PageMap, v: nat)
    ensures FromOn(pages, v + 1) == FromOn(pages, v) - {v}
    ensures v in FromOn(pages, v) <==> v in pages
    ensures v in pages ==> FromOn(pages, v)[v] == pages[v]
  {
  }

  /** How far a teardown has come: the pages below limit are released, the others still present. */
  ghost predicate ReleasedBelow(pages: PageMap, pm0: Pm, limit: nat, order: seq<nat>, now: PageMap, pm: Pm) {
    && Chained(pm0) && Backed(pages, pm0) && Injective(pages)
    && ListsBelow(order, pages, limit)
    && now == FromOn(pages, limit)
    && pm == Teardown(pages, order, pm0)
  }

  lemma ReleaseNext(pages: PageMap, pm0: Pm, v: nat, order: seq<nat>, now: PageMap, pm: Pm)
    requires ReleasedBelow(pages, pm0, v, order, now, pm)
    ensures v in now <==> v in pages
    ensures v !in now ==> ReleasedBelow(pages, pm0, v + 1, order, now, pm)
    ensures v in now ==>
      && now[v] == pages[v] && now[v].ppn in pm.ram && now[v].ppn !in pm.free
      && ReleasedBelow(pages, pm0, v + 1, order + [v], now - {v}, GiveBack(pm, now[v].ppn))
  {
    hide Chained, GiveBack, FromOn;
    FromNext(pages, v);
    ListNext(order, pages, v);
    if v in pages {
      var next := order + [v];
      assert next[..|order|] == order;
      TeardownReleases(pages, order, pm0);
      NotReleasedYet(pages, order, pm0, pm, v);
    } else {
      assert now - {v} == now;
    }
  }

  lemma NotReleasedYet(pages: PageMap, order: seq<nat>, pm0: Pm, pm: Pm, v: nat)
    requires Backed(pages, pm0) && Injective(pages) && IsReleased(pages, order, pm0, pm)
    requires v in pages && v !in order
    ensures pages[v].ppn !in pm.free
  {
    forall i | 0 <= i < |pm.free| ensures pm.free[i] != pages[v].ppn {
      if i < |order| {
        assert pm.free[i] == pages[order[|order| - 1 - i]].ppn;
      }
    }
  }

  lemma ReleaseSkip(pages: PageMap, pm0: Pm, limit: nat, limit': nat, order: seq<nat>, now: PageMap, pm: Pm)
    requires ReleasedBelow(pages, pm0, limit, order, now, pm) && limit <= limit'
    requires forall v :: v in now ==> v >= limit'
    ensures ReleasedBelow(pages, pm0, limit', order, now, pm)
  {
    hide Chained, Teardown, Backed, Injective;
    assert forall v :: v in pages && v >= limit ==> v in now;
    assert now == FromOn(pages, limit');
    ListSkip(order, pages, limit, limit');
  }

  lemma ReleaseStart(pages: PageMap, pm: Pm)
    requires Chained(pm) && Backed(pages, pm) && Injective(pages)
    ensures ReleasedBelow(pages, pm, 0, [], pages, pm)
  {
  }

  lemma ReleaseEnd(pages: PageMap, pm0: Pm, limit: nat, order: seq<nat>, now: PageMap, pm: Pm)
    requires ReleasedBelow(pages, pm0, limit, order, now, pm) && forall v :: v in now ==> v < limit
    ensures AllReleased(pages, pm0, order, pm)
  {
    assert forall v :: v in pages && v >= limit <==> v in now;
  }

  /** Every page was released once, from the lowest to the highest. */
  ghost predicate AllReleased(pages: PageMap, pm0: Pm, order: seq<nat>, pm: Pm) {
    && Ascending(order) && (forall v :: v in order <==> v in pages)
    && Backed(pages, pm0) && pm == Teardown(pages, order, pm0)
  }

  /** The directory loop of process_terminate and sys_execve, with mem_release_dir and mem_release_page. */
  method ReleasePages(dirs: DirList, pm: Allocator) returns (ghost order: seq<nat>)
    requires dirs.Valid() && pm.Valid() && Backed(dirs.Present(), pm.View()) && Injective(dirs.Present())
    modifies dirs, pm
    ensures dirs.Valid() && pm.Valid() && dirs.Present() == map[]
    ensures AllReleased(old(dirs.Present()), old(pm.View()), order, pm.View())
  {
    hide Chained, Indexed, ByVpn, ReleasedBelow, Ascending, Managed, Backed, Injective, AllReleased;
    ghost var pages, pm0, nodes := dirs.Present(), pm.View(), dirs.order;
    ReleaseStart(pages, pm0);
    order := [];
    var dir := dirs.head;
    ghost var g, limit := 0, 0;
    while dir != NULL
      invariant dirs.Valid() && pm.Valid() && dirs.order == nodes
      invariant g <= |nodes| && dir == AddressAt(nodes, g)
      invariant limit == if g == 0 then 0 else Vpn(dirs.mem[nodes[g - 1]].id, DIR_PAGES)
      invariant ReleasedBelow(pages, pm0, limit, order, dirs.Present(), pm.View())
      decreases |nodes| - g
    {
      Neighbours(dirs.mem, dirs.head, dirs.order, g);
      var next := dirs.mem[dir].next;
      forall v | v in dirs.Present() && v >= limit ensures v >= Vpn(dirs.mem[dir].id, 0) { dirs.NoPageBetween(g, v); }
      order := ReleaseDir(dirs, pm, dir, g, limit, pages, pm0, order);
      limit := Vpn(dirs.mem[dir].id, DIR_PAGES);
      dir := next;
      g := g + 1;
    }
    forall v | v in dirs.Present() ensures v < limit {
      if v >= limit { dirs.NoPageBetween(g, v); }
    }
    ReleaseEnd(pages, pm0, limit, order, dirs.Present(), pm.View());
    dirs.Clear();
  }

  lemma NothingBelow(pages: PageMap, pm0: Pm, limit: nat, order: seq<nat>, now: PageMap, pm: Pm)
    requires ReleasedBelow(pages, pm0, limit, order, now, pm)
    ensures forall v :: v in now ==> v >= limit
  {
  }

  /** mem_release_dir. */
  method ReleaseDir(dirs: DirList, pm: Allocator, dir: nat, ghost g: nat, ghost limit: nat,
                    ghost pages: PageMap, ghost pm0: Pm, ghost order0: seq<nat>)
    returns (ghost order: seq<nat>)
    requires dirs.Valid() && pm.Valid() && g < |dirs.order| && dir == dirs.order[g]
    requires limit <= Vpn(dirs.mem[dir].id, 0)
    requires forall v :: v in dirs.Present() && v >= limit ==> v >= Vpn(dirs.mem[dir].id, 0)
    requires ReleasedBelow(pages, pm0, limit, order0, dirs.Present(), pm.View())
    modifies dirs`mem, dirs`slots, pm
    ensures dirs.Valid() && pm.Valid()
    ensures dirs.mem.Keys == old(dirs.mem.Keys)
    ensures forall a :: a in dirs.mem ==>
              dirs.mem[a].id == old(dirs.mem)[a].id && dirs.mem[a].next == old(dirs.mem)[a].next
    ensures ReleasedBelow(pages, pm0, Vpn(dirs.mem[dir].id, DIR_PAGES), order, dirs.Present(), pm.View())
  {
    hide Chained, Indexed, ByVpn, ReleasedBelow;
    order := order0;
    ghost var id := dirs.mem[dir].id;
    NothingBelow(pages, pm0, limit, order, dirs.Present(), pm.View());
    ReleaseSkip(pages, pm0, limit, Vpn(id, 0), order, dirs.Present(), pm.View());
    var i := 0;
    while i < DIR_PAGES
      invariant i <= DIR_PAGES
      invariant dirs.Valid() && pm.Valid()
      invariant dirs.mem.Keys == old(dirs.mem.Keys)
      invariant forall a :: a in dirs.mem ==>
                  dirs.mem[a].id == old(dirs.mem)[a].id && dirs.mem[a].next == old(dirs.mem)[a].next
      invariant ReleasedBelow(pages, pm0, Vpn(id, i), order, dirs.Present(), pm.View())
    {
      order := ReleaseEntry(dirs, pm, dir, i, g, pages, pm0, order);
      i := i + 1;
    }
  }

  /** mem_release_page, on entry i of a directory. */
  method ReleaseEntry(dirs: DirList, pm: Allocator, dir: nat, i: nat, ghost g: nat,
                      ghost pages: PageMap, ghost pm0: Pm, ghost order0: seq<nat>)
    returns (ghost order: seq<nat>)
    requires dirs.Valid() && pm.Valid() && g < |dirs.order| && dir == dirs.order[g] && i < DIR_PAGES
    requires ReleasedBelow(pages, pm0, Vpn(dirs.mem[dir].id, i), order0, dirs.Present(), pm.View())
    modifies dirs`mem, dirs`slots, pm
    ensures dirs.Valid() && pm.Valid()
    ensures dirs.mem.Keys == old(dirs.mem.Keys)
    ensures forall a :: a in dirs.mem ==>
              dirs.mem[a].id == old(dirs.mem)[a].id && dirs.mem[a].next == old(dirs.mem)[a].next
    ensures ReleasedBelow(pages, pm0, Vpn(dirs.mem[dir].id, i + 1), order, dirs.Present(), pm.View())
  {
    hide Chained, Indexed, ByVpn, ReleasedBelow;
    ghost var v, now, pm1 := Vpn(dirs.mem[dir].id, i), dirs.Present(), pm.View();
    order := order0;
    dirs.EntryIsPresent(g, i);
    ReleaseNext(pages, pm0, v, order, now, pm1);
    var page := dirs.mem[dir].pages[i];
    if page.valid {
      pm.FreePage(page.ppn);
      dirs.Invalidate(dir, g, i);
      order := order + [v];
    }
    assert Vpn(dirs.mem[dir].id, i + 1) == v + 1;
  }
}
