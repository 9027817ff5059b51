/** Address space identifiers and the TLB they tag (arch/sh/mmu.c). */
module Mmu {

  const ASID_MAX := 100
  const ASID_INVALID := 0xFE
  const ASID_IDLE := 0xFF

  datatype Usage = Free | Used | Dirty

  datatype TlbKey = TlbKey(asid: nat, vpn: nat)

  /** The translation buffer: physical page by address space identifier and virtual page. */
  type Tlb = map<TlbKey, nat>

  /** _asid_usage, the TLB and the ASID register. */
  datatype State = State(usage: seq<Usage>, tlb: Tlb, asid: nat)

  ghost predicate WellFormed(s: State) {
    |s.usage| == ASID_MAX
  }

  // ---- the two searches of arch_adrsp_switch_to -------------------------------------------

  /** The first free identifier, or ASID_MAX. */
  ghost function FirstFree(usage: seq<Usage>): (i: nat)
    ensures i <= |usage|
    ensures i < |usage| ==> usage[i] == Free
    ensures forall j :: 0 <= j < i ==> usage[j] != Free
  {
    if usage == [] || usage[0] == Free then 0 else 1 + FirstFree(usage[1..])
  }

  /** The last dirty identifier, or the length. */
  ghost function LastDirty(usage: seq<Usage>): (i: nat)
    ensures i <= |usage|
    ensures i < |usage| ==> usage[i] == Dirty && forall j :: i < j < |usage| ==> usage[j] != Dirty
    ensures i == |usage| ==> forall j :: 0 <= j < |usage| ==> usage[j] != Dirty
  {
    if usage == [] then 0 else
    var n := |usage| - 1;
    if usage[n] == Dirty then n else
    var i := LastDirty(usage[..n]);
    if i < n then i else |usage|
  }

  ghost function Cleaned(usage: seq<Usage>): (r: seq<Usage>)
    ensures |r| == |usage|
    ensures forall i :: 0 <= i < |r| ==> r[i] == if usage[i] == Dirty then Free else usage[i]
  {
    seq(|usage|, i requires 0 <= i < |usage| => if usage[i] == Dirty then Free else usage[i])
  }

  datatype Switch = Failed | Switched(state: State, asid: nat)

  /** arch_adrsp_switch_to, on an address space that holds the identifier asid. */
  ghost function AfterSwitch(s: State, asid: nat): Switch
    requires WellFormed(s)
  {
    if asid != ASID_INVALID then Switched(s.(asid := asid), asid)
    else
      var i := FirstFree(s.usage);
      if i < ASID_MAX then Switched(State(s.usage[i := Used], s.tlb, i), i)
      else
        var j := LastDirty(s.usage);
        if j < ASID_MAX then Switched(State(Cleaned(s.usage)[j := Used], map[], j), j)
        else Failed
  }

  /** arch_adrsp_release: the entries stay in the TLB, so the identifier becomes dirty, not free. */
  ghost function AfterRelease(s: State, asid: nat): State
    requires WellFormed(s)
  {
    if asid >= ASID_MAX then s else s.(usage := s.usage[asid := Dirty])
  }

  /** No stale entry can be used: an identifier without owner and without pending flush has none. */
  ghost predicate FreeIsClean(s: State)
    requires WellFormed(s)
  {
    forall k :: k in s.tlb ==> k.asid < ASID_MAX && s.usage[k.asid] != Free
  }

  /** What a switch gives: a new identifier was nobody's and has no entry in the TLB; identifiers
      in use stay in use; nothing is added to the TLB. It fails exactly when all are in use. */
  lemma SwitchIsClean(s: State, asid: nat)
    requires WellFormed(s) && FreeIsClean(s)
    ensures AfterSwitch(s, asid).Failed? <==>
              asid == ASID_INVALID && forall i :: 0 <= i < ASID_MAX ==> s.usage[i] == Used
    ensures AfterSwitch(s, asid).Switched? ==>
      var t, a := AfterSwitch(s, asid).state, AfterSwitch(s, asid).asid;
      && WellFormed(t) && FreeIsClean(t) && t.asid == a
      && (asid != ASID_INVALID ==> a == asid && t.usage == s.usage && t.tlb == s.tlb)
      && (asid == ASID_INVALID ==>
            && a < ASID_MAX && s.usage[a] != Used && t.usage[a] == Used
            && (forall k :: k in t.tlb ==> k.asid != a)
            && (forall k :: k in t.tlb ==> k in s.tlb && t.tlb[k] == s.tlb[k])
            && (forall i :: 0 <= i < ASID_MAX && i != a ==> (t.usage[i] == Used <==> s.usage[i] == Used)))
  {
    if asid == ASID_INVALID {
      var i := FirstFree(s.usage);
      var j := LastDirty(s.usage);
      if i == ASID_MAX && j == ASID_MAX {
        assert forall k :: 0 <= k < ASID_MAX ==> s.usage[k] == Used;
      }
    }
  }

  class AddressSpace {
    var asid: nat

    /** arch_adrsp_init. */
    constructor ()
      ensures asid == ASID_INVALID
    {
      asid := ASID_INVALID;
    }
  }

  class Unit {
    const usage: array<Usage>
    var tlb: Tlb
    var asid: nat

    ghost predicate Valid()
      reads this, usage
    {
      usage.Length == ASID_MAX
    }

    ghost function View(): State
      reads this, usage
    {
      State(usage[..], tlb, asid)
    }

    /** mmu_init. */
    constructor ()
      ensures Valid() && fresh(usage)
      ensures View() == State(seq(ASID_MAX, i => Free), map[], ASID_IDLE)
    {
      usage := new Usage[ASID_MAX](i => Free);
      tlb := map[];
      asid := ASID_IDLE;
      new;
      assert usage[..] == seq(ASID_MAX, i => Free);
    }

    /** arch_adrsp_switch_to. */
    method SwitchTo(adrsp: AddressSpace) returns (ok: bool)
      requires Valid()
      modifies this, usage, adrsp
      ensures Valid()
      ensures var r := AfterSwitch(old(View()), old(adrsp.asid));
              if r.Failed? then !ok && View() == old(View()) && adrsp.asid == old(adrsp.asid)
              else ok && View() == r.state && adrsp.asid == r.asid
    {
      if adrsp.asid == ASID_INVALID {
        ghost var was := usage[..];
        var i := 0;
        while i < ASID_MAX && usage[i] != Free
          invariant i <= ASID_MAX
          invariant forall k :: 0 <= k < i ==> usage[k] != Free
        {
          i := i + 1;
        }
        assert i == FirstFree(was);
        if i >= ASID_MAX {
          i := CleanDirty();
          if i >= ASID_MAX {
            assert usage[..] == was;
            return false;
          }
          tlb := map[];
        }
        usage[i] := Used;
        adrsp.asid := i;
      }
      asid := adrsp.asid;
      ok := true;
    }

    /** The loop that makes dirty identifiers free; the last one is the result. */
    method CleanDirty() returns (i: nat)
      requires Valid()
      modifies usage
      ensures Valid()
      ensures usage[..] == Cleaned(old(usage[..]))
      ensures i == LastDirty(old(usage[..]))
    {
      i := ASID_MAX;
      var j := 0;
      while j < ASID_MAX
        invariant j <= ASID_MAX
        invariant forall k :: 0 <= k < j ==> usage[k] == if old(usage[k]) == Dirty then Free else old(usage[k])
        invariant forall k :: j <= k < ASID_MAX ==> usage[k] == old(usage[k])
        invariant i < j || i == ASID_MAX
        invariant i < j ==> old(usage[i]) == Dirty && forall k :: i < k < j ==> old(usage[k]) != Dirty
        invariant i == ASID_MAX ==> forall k :: 0 <= k < j ==> old(usage[k]) != Dirty
      {
        if usage[j] == Dirty {
          usage[j] := Free;
          i := j;
        }
        j := j + 1;
      }
    }

    /** arch_adrsp_release. */
    method Release(adrsp: AddressSpace) returns (ok: bool)
      requires Valid()
      modifies usage, adrsp
      ensures Valid()
      ensures ok <==> old(adrsp.asid) < ASID_MAX
      ensures adrsp.asid == ASID_INVALID && View() == AfterRelease(old(View()), old(adrsp.asid))
    {
      if adrsp.asid >= ASID_MAX {
        adrsp.asid := ASID_INVALID;
        return false;
      }
      usage[adrsp.asid] := Dirty;
      adrsp.asid := ASID_INVALID;
      ok := true;
    }

    /** mmu_tlb_fillload: the entry goes in under the current identifier; the hardware may drop
        any other entries to make room. */
    method Load(vpn: nat, ppn: nat, dropped: set<TlbKey>)
      modifies `tlb
      ensures View() == LoadEntry(old(View()), vpn, ppn, dropped)
    {
      tlb := (tlb - dropped)[TlbKey(asid, vpn) := ppn];
    }
  }

  ghost function LoadEntry(s: State, vpn: nat, ppn: nat, dropped: set<TlbKey>): State {
    s.(tlb := (s.tlb - dropped)[TlbKey(s.asid, vpn) := ppn])
  }
}
