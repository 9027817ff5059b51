/** The ordered, doubly linked list of page directories of a process (sys/memory.c). */
module PageDirs {
  import opened Arch

  /** union pm_page: a private page and its flags. */
  datatype PmPage = PmPage(ppn: nat, valid: bool, cached: bool)

  /** The present pages of an address space, by virtual page number. */
  type PageMap = map<nat, PmPage>

  /** A directory number and an index in that directory. */
  datatype Slot = Slot(dir: nat, index: nat)

  type SlotMap = map<Slot, PmPage>

  function SlotOf(vpn: nat): Slot { Slot(DirOf(vpn), IndexOf(vpn)) }

  /** The same pages, by page number. */
  ghost function ByVpn(m: SlotMap): (r: PageMap)
    requires forall s :: s in m ==> s.index < DIR_PAGES
  {
    var vs := set s | s in m :: Vpn(s.dir, s.index);
    ByVpnDomain(m);
    map v | v in vs :: m[SlotOf(v)]
  }

  lemma ByVpnDomain(m: SlotMap)
    requires forall s :: s in m ==> s.index < DIR_PAGES
    ensures forall v: nat :: v in (set s | s in m :: Vpn(s.dir, s.index)) <==> SlotOf(v) in m
  {
    var vs := set s | s in m :: Vpn(s.dir, s.index);
    forall v | v in vs ensures SlotOf(v) in m {
      var s :| s in m && v == Vpn(s.dir, s.index);
      SplitJoin(v, s.dir, s.index);
    }
    forall v: nat | SlotOf(v) in m ensures v in vs {
      SplitJoin(v, 0, 0);
      var s := SlotOf(v);
      assert v == Vpn(s.dir, s.index);
    }
  }

  lemma ByVpnAt(m: SlotMap, v: nat)
    requires forall s :: s in m ==> s.index < DIR_PAGES
    ensures v in ByVpn(m) <==> SlotOf(v) in m
    ensures v in ByVpn(m) ==> ByVpn(m)[v] == m[SlotOf(v)]
  {
    ByVpnDomain(m);
  }

  /** What storing an entry means for the present pages. */
  ghost function Stored(m: PageMap, vpn: nat, page: PmPage): (r: PageMap) {
    if page.valid then m[vpn := page] else m - {vpn}
  }

  ghost function StoredSlot(m: SlotMap, s: Slot, page: PmPage): (r: SlotMap) {
    if page.valid then m[s := page] else m - {s}
  }

  lemma StoredAgrees(m: SlotMap, vpn: nat, page: PmPage)
    requires forall s :: s in m ==> s.index < DIR_PAGES
    ensures ByVpn(StoredSlot(m, SlotOf(vpn), page)) == Stored(ByVpn(m), vpn, page)
  {
    var a, b := ByVpn(StoredSlot(m, SlotOf(vpn), page)), Stored(ByVpn(m), vpn, page);
    forall v: nat ensures v in a <==> v in b
                  ensures v in a ==> a[v] == b[v] {
      SplitJoin(v, 0, 0);
      SplitJoin(vpn, 0, 0);
      ByVpnAt(m, v);
      ByVpnAt(StoredSlot(m, SlotOf(vpn), page), v);
      assert v != vpn ==> SlotOf(v) != SlotOf(vpn);
    }
  }

  /** struct page_dir; next and prev are addresses of other directories, or NULL. */
  datatype PageDir = PageDir(id: nat, next: nat, prev: nat, pages: seq<PmPage>)

  /** The directories of one list, by address. */
  type DirMemory = map<nat, PageDir>

  /** The valid entries of one directory are the ones listed for its number. */
  ghost predicate DirAgrees(m: SlotMap, id: nat, pages: seq<PmPage>) {
    && |pages| == DIR_PAGES
    && forall k :: 0 <= k < DIR_PAGES ==>
         if pages[k].valid then Slot(id, k) in m && m[Slot(id, k)] == pages[k] else Slot(id, k) !in m
  }

  /** order lists the directories by strictly increasing dir_id. */
  ghost predicate Ordered(mem: DirMemory, order: seq<nat>) {
    && (forall i :: 0 <= i < |order| ==> order[i] in mem && order[i] != NULL)
    && (forall i, j :: 0 <= i < j < |order| ==> mem[order[i]].id < mem[order[j]].id)
  }

  /** next and prev agree with order. */
  ghost predicate Threaded(mem: DirMemory, head: nat, order: seq<nat>)
    requires Ordered(mem, order)
  {
    && head == AddressAt(order, 0)
    && (order != [] ==> mem[order[0]].prev == NULL && mem[order[|order| - 1]].next == NULL)
    && (forall i, j :: 0 <= i < j < |order| && j == i + 1 ==>
          mem[order[i]].next == order[j] && mem[order[j]].prev == order[i])
  }

  ghost predicate Linked(mem: DirMemory, head: nat, order: seq<nat>) {
    Ordered(mem, order) && Threaded(mem, head, order)
  }

  lemma Neighbours(mem: DirMemory, head: nat, order: seq<nat>, i: nat)
    requires Linked(mem, head, order) && i < |order|
    ensures mem[order[i]].next == AddressAt(order, i + 1)
    ensures mem[order[i]].prev == AddressAt(order, i - 1)
    ensures mem[order[i]].next == NULL <==> i == |order| - 1
    ensures mem[order[i]].prev == NULL <==> i == 0
    ensures forall j :: 0 <= j < |order| && j != i ==> order[j] != order[i]
  {
    assert i + 1 < |order| ==> order[i + 1] != NULL;
    assert i > 0 ==> order[i - 1] != NULL;
  }

  ghost predicate HasDir(mem: DirMemory, order: seq<nat>, id: nat)
    requires Ordered(mem, order)
  {
    exists i :: 0 <= i < |order| && mem[order[i]].id == id
  }

  /** slots is exactly the set of valid entries. */
  ghost predicate Indexed(mem: DirMemory, order: seq<nat>, slots: SlotMap)
    requires Ordered(mem, order)
  {
    && (forall i :: 0 <= i < |order| ==> DirAgrees(slots, mem[order[i]].id, mem[order[i]].pages))
    && (forall s :: s in slots ==> s.index < DIR_PAGES && HasDir(mem, order, s.dir))
  }

  /** Entries of a directory that was just created. */
  ghost predicate Blank(junk: seq<PmPage>) {
    |junk| == DIR_PAGES && forall k :: 0 <= k < DIR_PAGES ==> !junk[k].valid
  }

  /** now is order with x put in at index i. */
  ghost predicate InsertedAt(order: seq<nat>, i: nat, x: nat, now: seq<nat>) {
    && i <= |order| && |now| == |order| + 1 && now[i] == x
    && (forall j {:trigger now[j]} :: 0 <= j < i ==> now[j] == order[j])
    && (forall j {:trigger now[j]} :: i < j < |now| ==> now[j] == order[j - 1])
  }

  // ---- what one new directory or one entry update does to the list ------------------

  /** A blank directory put in at index i, in dir_id order; the others keep number and entries. */
  ghost predicate Grown(mem: DirMemory, order: seq<nat>, i: nat, newDir: nat, mem': DirMemory, now: seq<nat>)
    requires Ordered(mem, order)
  {
    && InsertedAt(order, i, newDir, now)
    && newDir != NULL && newDir in mem' && Blank(mem'[newDir].pages)
    && (forall j :: 0 <= j < |order| ==>
          && order[j] in mem' && mem'[order[j]].id == mem[order[j]].id && mem'[order[j]].pages == mem[order[j]].pages)
    && (forall j :: 0 <= j < i ==> mem[order[j]].id < mem'[newDir].id)
    && (forall j :: i <= j < |order| ==> mem'[newDir].id < mem[order[j]].id)
  }

  lemma GrownKeepsOrder(mem: DirMemory, order: seq<nat>, i: nat, newDir: nat, mem': DirMemory, now: seq<nat>)
    requires Ordered(mem, order) && Grown(mem, order, i, newDir, mem', now)
    ensures Ordered(mem', now)
  {
  }

  lemma GrownKeepsIndex(mem: DirMemory, order: seq<nat>, i: nat, newDir: nat,
                        mem': DirMemory, now: seq<nat>, slots: SlotMap)
    requires Ordered(mem, order) && Grown(mem, order, i, newDir, mem', now) && Ordered(mem', now)
    requires Indexed(mem, order, slots)
    ensures Indexed(mem', now, slots)
  {
    forall s | s in slots ensures HasDir(mem', now, s.dir) {
      var j :| 0 <= j < |order| && mem[order[j]].id == s.dir;
      assert now[if j < i then j else j + 1] == order[j];
    }
    forall k ensures Slot(mem'[newDir].id, k) !in slots {
      assert !HasDir(mem, order, mem'[newDir].id);
    }
  }

  /** Linking newDir before order[i]. */
  lemma LinkedBefore(mem: DirMemory, head: nat, order: seq<nat>, i: nat, newDir: nat, mem': DirMemory, now: seq<nat>)
    requires Linked(mem, head, order) && i < |order| && Ordered(mem', now)
    requires Grown(mem, order, i, newDir, mem', now)
    requires mem'[newDir].next == order[i] && mem'[newDir].prev == mem[order[i]].prev
    requires mem'[order[i]].next == mem[order[i]].next && mem'[order[i]].prev == newDir
    requires i > 0 ==> mem'[order[i - 1]].next == newDir && mem'[order[i - 1]].prev == mem[order[i - 1]].prev
    requires forall j :: 0 <= j < |order| && j != i && j != i - 1 ==> mem'[order[j]] == mem[order[j]]
    ensures Threaded(mem', if i == 0 then newDir else head, now)
  {
    forall j, k | 0 <= j < k < |now| && k == j + 1
      ensures mem'[now[j]].next == now[k] && mem'[now[k]].prev == now[j]
    {
      if k < i {
        assert now[j] == order[j] && now[k] == order[k];
      } else if j > i {
        assert now[j] == order[j - 1] && now[k] == order[k - 1];
      }
    }
  }

  /** The store sequence that links newDir before order[i]. */
  lemma PutBefore(mem: DirMemory, head: nat, order: seq<nat>, i: nat, newDir: nat, mem': DirMemory, slots: SlotMap)
    returns (now: seq<nat>)
    requires Linked(mem, head, order) && Indexed(mem, order, slots) && i < |order|
    requires newDir != NULL && newDir !in order && newDir in mem' && Blank(mem'[newDir].pages)
    requires mem'[newDir].next == order[i] && mem'[newDir].prev == mem[order[i]].prev
    requires forall j :: 0 <= j < |order| ==> order[j] in mem'
    requires mem'[order[i]] == mem[order[i]].(prev := newDir)
    requires i > 0 ==> mem'[order[i - 1]] == mem[order[i - 1]].(next := newDir)
    requires forall j :: 0 <= j < |order| && j != i && j != i - 1 ==> mem'[order[j]] == mem[order[j]]
    requires forall j :: 0 <= j < i ==> mem[order[j]].id < mem'[newDir].id
    requires mem'[newDir].id < mem[order[i]].id
    ensures Linked(mem', if i == 0 then newDir else head, now) && Indexed(mem', now, slots)
    ensures InsertedAt(order, i, newDir, now)
  {
    now := order[..i] + [newDir] + order[i..];
    assert Grown(mem, order, i, newDir, mem', now);
    GrownKeepsOrder(mem, order, i, newDir, mem', now);
    GrownKeepsIndex(mem, order, i, newDir, mem', now, slots);
    LinkedBefore(mem, head, order, i, newDir, mem', now);
  }

  /** Memory after the stores that link newDir before cur. */
  ghost function LinkBefore(mem: DirMemory, cur: nat, newDir: nat, id: nat, junk: seq<PmPage>): DirMemory
    requires cur in mem && (mem[cur].prev != NULL ==> mem[cur].prev in mem)
  {
    var made := mem[newDir := PageDir(id, cur, mem[cur].prev, junk)];
    var p := mem[cur].prev;
    var linked := if p == NULL then made else made[p := made[p].(next := newDir)];
    linked[cur := linked[cur].(prev := newDir)]
  }

  lemma LinkBeforeKeeps(mem: DirMemory, head: nat, order: seq<nat>, i: nat,
                        newDir: nat, id: nat, junk: seq<PmPage>, slots: SlotMap)
    returns (now: seq<nat>)
    requires Linked(mem, head, order) && Indexed(mem, order, slots) && i < |order| && Blank(junk)
    requires newDir != NULL && newDir !in order && mem[order[i]].id > id
    requires forall j :: 0 <= j < i ==> mem[order[j]].id < id
    ensures order[i] in mem && newDir != order[i] && mem[order[i]].prev != newDir
    ensures mem[order[i]].prev != NULL ==> mem[order[i]].prev in mem && mem[order[i]].prev != order[i]
    ensures var mem' := LinkBefore(mem, order[i], newDir, id, junk);
            && Linked(mem', if mem[order[i]].prev == NULL then newDir else head, now) && Indexed(mem', now, slots)
            && newDir in mem' && mem'[newDir].id == id
    ensures InsertedAt(order, i, newDir, now)
  {
    Neighbours(mem, head, order, i);
    assert i > 0 ==> mem[order[i]].prev == order[i - 1];
    var mem' := LinkBefore(mem, order[i], newDir, id, junk);
    StoresBefore(mem, order, i, newDir, id, junk);
    hide LinkBefore, Indexed, Threaded;
    now := PutBefore(mem, head, order, i, newDir, mem', slots);
  }

  lemma StoresBefore(mem: DirMemory, order: seq<nat>, i: nat, newDir: nat, id: nat, junk: seq<PmPage>)
    requires i < |order| && NoDuplicates(order) && newDir !in order
    requires forall j :: 0 <= j < |order| ==> order[j] in mem && order[j] != NULL
    requires mem[order[i]].prev == AddressAt(order, i - 1)
    ensures var mem' := LinkBefore(mem, order[i], newDir, id, junk);
      && newDir in mem' && mem'[newDir] == PageDir(id, order[i], mem[order[i]].prev, junk)
      && (forall j :: 0 <= j < |order| ==> order[j] in mem')
      && mem'[order[i]] == mem[order[i]].(prev := newDir)
      && (i > 0 ==> mem'[order[i - 1]] == mem[order[i - 1]].(next := newDir))
      && (forall j :: 0 <= j < |order| && j != i && j != i - 1 ==> mem'[order[j]] == mem[order[j]])
  {
  }

  /** Where the search for a directory ends: at it if it is in the list. */
  lemma SearchEnds(mem: DirMemory, head: nat, order: seq<nat>, i: nat, id: nat)
    requires Linked(mem, head, order) && i <= |order| && (i == |order| ==> order == [])
    requires forall j :: 0 <= j < i ==> mem[order[j]].id < id
    requires i < |order| && mem[order[i]].id < id ==> mem[order[i]].next == NULL
    ensures HasDir(mem, order, id) <==> i < |order| && mem[order[i]].id == id
  {
    if i < |order| { Neighbours(mem, head, order, i); }
  }

  /** The store sequence that links newDir after the last directory. */
  lemma PutAfter(mem: DirMemory, head: nat, order: seq<nat>, newDir: nat, mem': DirMemory, slots: SlotMap)
    returns (now: seq<nat>)
    requires Linked(mem, head, order) && Indexed(mem, order, slots) && order != []
    requires newDir != NULL && newDir !in order && newDir in mem' && Blank(mem'[newDir].pages)
    requires mem'[newDir].next == NULL && mem'[newDir].prev == order[|order| - 1]
    requires forall j :: 0 <= j < |order| ==> order[j] in mem'
    requires forall j :: 0 <= j < |order| - 1 ==> mem'[order[j]] == mem[order[j]]
    requires mem'[order[|order| - 1]] == mem[order[|order| - 1]].(next := newDir)
    requires mem[order[|order| - 1]].id < mem'[newDir].id
    ensures Linked(mem', head, now) && Indexed(mem', now, slots)
    ensures InsertedAt(order, |order|, newDir, now)
  {
    now := order + [newDir];
    var i := |order|;
    assert Grown(mem, order, i, newDir, mem', now);
    GrownKeepsOrder(mem, order, i, newDir, mem', now);
    GrownKeepsIndex(mem, order, i, newDir, mem', now, slots);
  }

  lemma EntryKeepsLinks(mem: DirMemory, head: nat, order: seq<nat>, g: nat, pages: seq<PmPage>)
    requires Linked(mem, head, order) && g < |order|
    ensures Linked(mem[order[g] := mem[order[g]].(pages := pages)], head, order)
  {
  }

  lemma StoreAgrees(m: SlotMap, id: nat, pages: seq<PmPage>, s: Slot, page: PmPage)
    requires DirAgrees(m, id, pages) && s.index < DIR_PAGES
    ensures DirAgrees(StoredSlot(m, s, page), id, if s.dir == id then pages[s.index := page] else pages)
  {
  }

  lemma EntryKeepsIndex(mem: DirMemory, order: seq<nat>, slots: SlotMap, g: nat, index: nat, page: PmPage)
    requires Ordered(mem, order) && Indexed(mem, order, slots) && g < |order| && index < DIR_PAGES
    ensures var mem' := mem[order[g] := mem[order[g]].(pages := mem[order[g]].pages[index := page])];
            Ordered(mem', order) && Indexed(mem', order, StoredSlot(slots, Slot(mem[order[g]].id, index), page))
  {
    var mem' := mem[order[g] := mem[order[g]].(pages := mem[order[g]].pages[index := page])];
    var slots' := StoredSlot(slots, Slot(mem[order[g]].id, index), page);
    forall i | 0 <= i < |order| ensures DirAgrees(slots', mem'[order[i]].id, mem'[order[i]].pages) {
      StoreAgrees(slots, mem[order[i]].id, mem[order[i]].pages, Slot(mem[order[g]].id, index), page);
    }
    forall s | s in slots' ensures s.index < DIR_PAGES && HasDir(mem', order, s.dir) {
      if s in slots {
        var i :| 0 <= i < |order| && mem[order[i]].id == s.dir;
        assert mem'[order[i]].id == s.dir;
      } else {
        assert mem'[order[g]].id == s.dir;
      }
    }
  }

  class DirList {
    var mem: DirMemory
    var head: nat
    var brk: nat              // where the pool puts the next directory; only its newness matters
    ghost var order: seq<nat>
    ghost var slots: SlotMap

    ghost predicate Valid()
      reads this
    {
      && Linked(mem, head, order) && Indexed(mem, order, slots)
      && brk > 0 && forall i :: 0 <= i < |order| ==> order[i] < brk
    }

    /** The map from page number to entry that the list stands for. */
    ghost function Present(): PageMap
      reads this
      requires Valid()
    {
      ByVpn(slots)
    }

    constructor ()
      ensures Valid() && Present() == map[]
    {
      mem, head, brk, order, slots := map[], NULL, 1, [], map[];
    }

    /** mem_find_page: the address of the directory and the index of the entry, or NULL. */
    method Find(vpn: nat) returns (dir: nat, index: nat)
      requires Valid()
      ensures index == IndexOf(vpn)
      ensures dir != NULL ==> dir in mem && dir in order && mem[dir].id == DirOf(vpn) && |mem[dir].pages| == DIR_PAGES
      ensures vpn in Present() <==> dir != NULL && mem[dir].pages[index].valid
      ensures vpn in Present() ==> mem[dir].pages[index] == Present()[vpn]
    {
      hide ByVpn;
      var id := DirOf(vpn);
      index := IndexOf(vpn);
      ByVpnAt(slots, vpn);
      var cur := head;
      ghost var i := 0;
      while cur != NULL && mem[cur].id < id
        invariant 0 <= i <= |order| && cur == AddressAt(order, i)
        invariant forall j :: 0 <= j < i ==> mem[order[j]].id < id
        decreases |order| - i
      {
        cur := mem[cur].next;
        i := i + 1;
      }
      if cur != NULL && mem[cur].id == id {
        dir := cur;
      } else {
        dir := NULL;
        assert !HasDir(mem, order, id);
      }
    }

    /** mem_insert_page. junk is what the entries of a new directory hold before the page is stored, and
        room says whether the pool has a directory left: without one a page of a directory that is not
        there is refused. */
    method Insert(vpn: nat, page: PmPage, junk: seq<PmPage>, room: bool) returns (r: int)
      requires Valid() && Blank(junk)
      modifies this
      ensures Valid()
      ensures r == if room || HasDir(old(mem), old(order), DirOf(vpn)) then 0 else -1
      ensures Present() == if r == 0 then Stored(old(Present()), vpn, page) else old(Present())
    {
      hide ByVpn;
      var id := DirOf(vpn);
      var cur := head;
      ghost var i := 0;
      while cur != NULL && mem[cur].id < id && mem[cur].next != NULL
        invariant 0 <= i <= |order| && cur == AddressAt(order, i)
        invariant cur == NULL ==> order == []
        invariant forall j :: 0 <= j < i ==> mem[order[j]].id < id
        decreases |order| - i
      {
        cur := mem[cur].next;
        i := i + 1;
      }
      SearchEnds(mem, head, order, i, id);
      if cur == NULL || mem[cur].id != id {
        if !room {
          return -1;
        }
        i := AddDir(cur, id, i, brk, junk);
        cur := brk;
        brk := brk + 1;
      }
      StoredAgrees(slots, vpn, page);
      SetEntry(cur, i, IndexOf(vpn), page);
      r := 0;
    }

    /** The branch of mem_insert_page that creates a directory and links it beside cur. */
    method AddDir(cur: nat, id: nat, ghost i: nat, newDir: nat, junk: seq<PmPage>) returns (ghost g: nat)
      requires Valid() && Blank(junk) && newDir == brk
      requires cur == AddressAt(order, i) && (cur == NULL ==> order == [])
      requires forall j :: 0 <= j < i < |order| ==> mem[order[j]].id < id
      requires cur != NULL ==> mem[cur].id > id || (mem[cur].id < id && mem[cur].next == NULL)
      modifies `mem, `head, `order
      ensures Linked(mem, head, order) && Indexed(mem, order, slots)
      ensures forall k :: 0 <= k < |order| ==> order[k] <= newDir
      ensures g < |order| && order[g] == newDir && mem[newDir].id == id
    {
      if cur == NULL {
        g := 0;
        mem := mem[newDir := PageDir(id, NULL, NULL, junk)];
        head := newDir;
        order := [newDir];
      } else if mem[cur].id > id {
        g := i;
        AddBefore(cur, id, i, newDir, junk);
      } else {
        g := i + 1;
        ghost var was := mem;
        Neighbours(mem, head, order, i);
        mem := mem[newDir := PageDir(id, mem[cur].next, cur, junk)];
        mem := mem[cur := mem[cur].(next := newDir)];
        order := PutAfter(was, head, order, newDir, mem, slots);
      }
    }

    /** Link a new directory before cur. */
    method AddBefore(cur: nat, id: nat, ghost i: nat, newDir: nat, junk: seq<PmPage>)
      requires Valid() && Blank(junk) && newDir == brk
      requires i < |order| && cur == order[i] && mem[cur].id > id
      requires forall j :: 0 <= j < i ==> mem[order[j]].id < id
      modifies `mem, `head, `order
      ensures Linked(mem, head, order) && Indexed(mem, order, slots)
      ensures forall k :: 0 <= k < |order| ==> order[k] <= newDir
      ensures i < |order| && order[i] == newDir && mem[newDir].id == id
    {
      hide Linked, Indexed;
      ghost var now := LinkBeforeKeeps(mem, head, order, i, newDir, id, junk, slots);
      mem := mem[newDir := PageDir(id, cur, mem[cur].prev, junk)];
      if mem[cur].prev == NULL {
        head := newDir;
      } else {
        var prev := mem[cur].prev;
        mem := mem[prev := mem[prev].(next := newDir)];
      }
      mem := mem[cur := mem[cur].(prev := newDir)];
      order := now;
    }

    /** Store one entry of a directory of the list. */
    method SetEntry(dir: nat, ghost g: nat, index: nat, page: PmPage)
      requires Valid() && index < DIR_PAGES && g < |order| && order[g] == dir
      modifies `mem, `slots
      ensures Valid()
      ensures slots == StoredSlot(old(slots), Slot(mem[dir].id, index), page)
      ensures mem == old(mem)[dir := old(mem)[dir].(pages := old(mem)[dir].pages[index := page])]
    {
      EntryKeepsLinks(mem, head, order, g, mem[dir].pages[index := page]);
      EntryKeepsIndex(mem, order, slots, g, index, page);
      mem := mem[dir := mem[dir].(pages := mem[dir].pages[index := page])];
      slots := StoredSlot(slots, Slot(mem[dir].id, index), page);
    }

    /** Entry k of the directory at position g loses its valid flag (the flag update of mem_release_page). */
    method Invalidate(dir: nat, ghost g: nat, k: nat)
      requires Valid() && g < |order| && dir == order[g] && k < |mem[dir].pages| == DIR_PAGES
      modifies `mem, `slots
      ensures Valid()
      ensures Present() == old(Present()) - {Vpn(mem[dir].id, k)}
      ensures mem.Keys == old(mem.Keys)
      ensures forall a :: a in mem ==> mem[a].id == old(mem)[a].id && mem[a].next == old(mem)[a].next
    {
      hide ByVpn;
      var page := mem[dir].pages[k].(valid := false);
      SplitJoin(0, mem[dir].id, k);
      StoredAgrees(slots, Vpn(mem[dir].id, k), page);
      SetEntry(dir, g, k, page);
    }

    /** dir_list = NULL, when every directory went back to the pool. */
    method Clear()
      requires Valid()
      modifies this
      ensures Valid() && Present() == map[]
    {
      mem, head, order, slots := map[], NULL, [], map[];
    }

    /** Entry k of the directory at position g of the list is the entry of its page number. */
    lemma EntryIsPresent(g: nat, k: nat)
      requires Valid() && g < |order| && k < DIR_PAGES
      ensures |mem[order[g]].pages| == DIR_PAGES
      ensures mem[order[g]].pages[k].valid <==> Vpn(mem[order[g]].id, k) in Present()
      ensures mem[order[g]].pages[k].valid ==> Present()[Vpn(mem[order[g]].id, k)] == mem[order[g]].pages[k]
    {
      hide ByVpn;
      SplitJoin(0, mem[order[g]].id, k);
      ByVpnAt(slots, Vpn(mem[order[g]].id, k));
      assert DirAgrees(slots, mem[order[g]].id, mem[order[g]].pages);
      assert SlotOf(Vpn(mem[order[g]].id, k)) == Slot(mem[order[g]].id, k);
    }

    /** No page lies between the directories at positions g - 1 and g, or behind the last one. */
    lemma NoPageBetween(g: nat, v: nat)
      requires Valid() && g <= |order| && v in Present()
      requires g > 0 ==> v >= Vpn(mem[order[g - 1]].id, DIR_PAGES)
      ensures g < |order| && v >= Vpn(mem[order[g]].id, 0)
    {
      hide ByVpn;
      SplitJoin(v, 0, 0);
      ByVpnAt(slots, v);
      var i :| 0 <= i < |order| && mem[order[i]].id == DirOf(v);
    }
  }
}
