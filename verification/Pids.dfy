/** Process identifiers (sys/process.c) on a bit array (utils/bitfield.h). */
module Pids {
  import opened Arch

  const PID_MAX := 1024   // CONFIG_PID_MAX
  const WORD := 32        // BITFIELD_BITS
  const WORDS := (PID_MAX - 1) / WORD + 1

  // ---- one word ------------------------------------------------------------------------------

  /** Bit k of a number. */
  predicate Has(w: nat, k: nat) {
    if k == 0 then w % 2 == 1 else Has(w / 2, k - 1)
  }

  /** w | (1 << k). */
  function With(w: nat, k: nat): nat {
    if k == 0 then w + 1 - w % 2 else 2 * With(w / 2, k - 1) + w % 2
  }

  /** w & ~(1 << k). */
  function Without(w: nat, k: nat): nat {
    if k == 0 then w - w % 2 else 2 * Without(w / 2, k - 1) + w % 2
  }

  /** Setting or clearing bit j changes no other bit. */
  lemma {:induction false} WordExact(w: nat, j: nat, k: nat)
    ensures Has(With(w, j), k) <==> j == k || Has(w, k)
    ensures Has(Without(w, j), k) <==> j != k && Has(w, k)
    decreases j
  {
    if j > 0 && k > 0 {
      WordExact(w / 2, j - 1, k - 1);
      Halves(With(w / 2, j - 1), w % 2);
      Halves(Without(w / 2, j - 1), w % 2);
    } else if k > 0 {
      Halves(w / 2, 1 - (w + 1) % 2);
      assert (w + 1 - w % 2) / 2 == w / 2 && (w - w % 2) / 2 == w / 2;
    }
  }

  lemma Halves(a: nat, r: nat)
    requires r < 2
    ensures (2 * a + r) / 2 == a && (2 * a + r) % 2 == r
  {
  }

  /** A 32-bit word stays one. */
  lemma {:induction false} WordFits(w: nat, k: nat, n: nat)
    requires k < n && w < Power(n)
    ensures With(w, k) < Power(n) && Without(w, k) < Power(n)
    decreases k
  {
    if k > 0 { WordFits(w / 2, k - 1, n - 1); }
  }

  function Power(n: nat): (r: nat)
    ensures r >= 1
  {
    if n == 0 then 1 else 2 * Power(n - 1)
  }

  // ---- the bit array ---------------------------------------------------------------------------

  /** bitfield_get. */
  predicate Bit(words: seq<nat>, i: nat)
    requires i / WORD < |words|
  {
    Has(words[i / WORD], i % WORD)
  }

  /** bitfield_set and bitfield_clear. */
  function SetBit(words: seq<nat>, i: nat): seq<nat>
    requires i / WORD < |words|
  {
    words[i / WORD := With(words[i / WORD], i % WORD)]
  }

  function ClearBit(words: seq<nat>, i: nat): seq<nat>
    requires i / WORD < |words|
  {
    words[i / WORD := Without(words[i / WORD], i % WORD)]
  }

  lemma BitsExact(words: seq<nat>, i: nat, p: nat)
    requires i / WORD < |words| && p / WORD < |words|
    ensures Bit(SetBit(words, i), p) <==> p == i || Bit(words, p)
    ensures Bit(ClearBit(words, i), p) <==> p != i && Bit(words, p)
  {
    hide With, Without, Has;
    WordExact(words[i / WORD], i % WORD, p % WORD);
    Position(i, p);
  }

  lemma Position(i: nat, p: nat)
    ensures i == p <==> i / WORD == p / WORD && i % WORD == p % WORD
  {
  }

  lemma InArray(i: nat)
    requires i < PID_MAX
    ensures i / WORD < WORDS
  {
  }

  /** The bit array is the set. */
  ghost predicate Represents(words: seq<nat>, used: set<nat>) {
    && |words| == WORDS && (forall i :: 0 <= i < WORDS ==> words[i] < Power(WORD))
    && (forall p :: p in used ==> p < PID_MAX)
    && (forall p: nat :: p < PID_MAX ==> (IsSet(words, p) <==> p in used))
  }

  ghost predicate IsSet(words: seq<nat>, p: nat)
    requires |words| == WORDS && p < PID_MAX
  {
    InArray(p);
    Bit(words, p)
  }

  /** bitfield_set adds one element, bitfield_clear removes one. */
  lemma BitsAreSet(words: seq<nat>, used: set<nat>, i: nat)
    requires Represents(words, used) && i < PID_MAX
    ensures i / WORD < |words| && Represents(SetBit(words, i), used + {i}) && Represents(ClearBit(words, i), used - {i})
  {
    hide Has, With, Without, Power;
    InArray(i);
    WordFits(words[i / WORD], i % WORD, WORD);
    forall p: nat | p < PID_MAX
      ensures IsSet(SetBit(words, i), p) <==> p in used + {i}
      ensures IsSet(ClearBit(words, i), p) <==> p in used - {i}
    {
      InArray(p);
      BitsExact(words, i, p);
      assert IsSet(words, p) <==> p in used;
    }
  }

  // ---- a free identifier ---------------------------------------------------------------------------

  ghost function Below(n: nat): (r: set<nat>)
    ensures forall p: nat :: p in r <==> p < n
    ensures |r| == n
  {
    if n == 0 then {} else Below(n - 1) + {n - 1}
  }

  lemma SubsetSize(a: set<nat>, b: set<nat>)
    requires a <= b
    ensures |a| <= |b|
  {
    assert b == a + (b - a);
  }

  /** While fewer than PID_MAX are used one is free. */
  lemma SomeFree(used: set<nat>)
    requires |used| < PID_MAX
    ensures exists p: nat :: p < PID_MAX && p !in used
  {
    if forall p: nat :: p < PID_MAX ==> p in used {
      SubsetSize(Below(PID_MAX), used);
    }
  }

  /** Steps of the wrapping search from p to f. */
  function Ahead(p: nat, f: nat): nat
    requires p < PID_MAX && f < PID_MAX
  {
    if f >= p then f - p else f + PID_MAX - p
  }

  function After(p: nat): (r: nat)
    ensures r < PID_MAX
  {
    (p + 1) % PID_MAX
  }

  lemma AheadSelf(p: nat)
    requires p < PID_MAX
    ensures Ahead(p, p) == 0
  {
  }

  lemma AheadStep(p: nat, f: nat)
    requires p < PID_MAX && f < PID_MAX && p != f
    ensures After(p) < PID_MAX && Ahead(After(p), f) == Ahead(p, f) - 1
  {
  }

  // ---- the operations --------------------------------------------------------------------------------

  class Table {
    const words: array<nat>
    var next: nat
    ghost var used: set<nat>

    ghost predicate Valid()
      reads this, words
    {
      Represents(words[..], used) && 0 in used && next < PID_MAX
    }

    /** process_init: 0 is the idle task. */
    constructor ()
      ensures Valid() && fresh(words) && used == {0} && next == 1
    {
      words := new nat[WORDS](i => 0);
      next, used := 1, {};
      new;
      NoBits(words[..]);
      Mark(0);
    }

    /** bitfield_set. */
    method Mark(i: nat)
      requires Represents(words[..], used) && i < PID_MAX
      modifies `used, words
      ensures Represents(words[..], used) && used == old(used) + {i}
    {
      hide Represents, With, SetBit, ClearBit;
      BitsAreSet(words[..], used, i);
      ghost var before := words[..];
      words[i / WORD] := With(words[i / WORD], i % WORD);
      SetBitIs(before, i);
      assert words[..] == before[i / WORD := With(before[i / WORD], i % WORD)];
      used := used + {i};
    }

    /** bitfield_clear. */
    method Unmark(i: nat)
      requires Represents(words[..], used) && i < PID_MAX
      modifies `used, words
      ensures Represents(words[..], used) && used == old(used) - {i}
    {
      hide Represents, Without, SetBit, ClearBit;
      BitsAreSet(words[..], used, i);
      ghost var before := words[..];
      words[i / WORD] := Without(words[i / WORD], i % WORD);
      SetBitIs(before, i);
      assert words[..] == before[i / WORD := Without(before[i / WORD], i % WORD)];
      used := used - {i};
    }

    /** bitfield_get. */
    method Test(i: nat) returns (r: bool)
      requires Represents(words[..], used) && i < PID_MAX
      ensures r == (i in used)
    {
      InArray(i);
      assert IsSet(words[..], i) <==> i in used;
      r := Has(words[i / WORD], i % WORD);
    }

    /** process_get_pid: the first free identifier from next on, wrapping around. */
    method GetPid() returns (pid: nat)
      requires Valid() && |used| < PID_MAX
      modifies `next, `used, words
      ensures Valid() && 1 <= pid < PID_MAX && pid !in old(used) && used == old(used) + {pid}
      ensures forall f: nat :: f < PID_MAX && f !in old(used) ==> Ahead(old(next), pid) <= Ahead(old(next), f)
    {
      hide Represents, Ahead, After;
      SomeFree(used);
      AheadSelf(next);
      ghost var free: nat :| free < PID_MAX && free !in used;
      pid := next;
      var taken := Test(pid);
      while taken
        invariant pid < PID_MAX && taken == (pid in used) && Represents(words[..], used)
        invariant forall f: nat :: f < PID_MAX && f !in used ==> Ahead(pid, f) + Ahead(next, pid) == Ahead(next, f)
        decreases Ahead(pid, free)
        modifies {}
      {
        SearchOn(next, pid, used);
        AheadStep(pid, free);
        pid := After(pid);
        taken := Test(pid);
      }
      next := After(pid);
      Mark(pid);
    }

    /** process_release_pid. */
    method ReleasePid(pid: int)
      requires Valid()
      modifies `used, words
      ensures Represents(words[..], used) && forall p: nat :: p in used <==> p in old(used) && p != pid
      ensures Valid() <==> pid != 0
    {
      if 0 <= pid < PID_MAX {
        Unmark(pid);
      }
    }
  }

  lemma SetBitIs(words: seq<nat>, i: nat)
    requires i / WORD < |words|
    ensures SetBit(words, i) == words[i / WORD := With(words[i / WORD], i % WORD)]
    ensures ClearBit(words, i) == words[i / WORD := Without(words[i / WORD], i % WORD)]
  {
    hide With, Without;
  }

  lemma NoBits(words: seq<nat>)
    requires |words| == WORDS && forall i :: 0 <= i < WORDS ==> words[i] == 0
    ensures Represents(words, {})
  {
    hide Has;
    forall p: nat | p < PID_MAX ensures !IsSet(words, p) {
      InArray(p);
      ZeroHasNone(p % WORD);
    }
  }

  lemma {:induction false} ZeroHasNone(k: nat)
    ensures !Has(0, k)
  {
    if k > 0 { ZeroHasNone(k - 1); }
  }

  /** One more used identifier is passed by the search. */
  lemma SearchOn(n: nat, p: nat, used: set<nat>)
    requires n < PID_MAX && p < PID_MAX && p in used
    requires forall f: nat :: f < PID_MAX && f !in used ==> Ahead(p, f) + Ahead(n, p) == Ahead(n, f)
    ensures After(p) < PID_MAX
    ensures forall f: nat :: f < PID_MAX && f !in used ==> Ahead(After(p), f) + Ahead(n, After(p)) == Ahead(n, f)
  {
    forall f: nat | f < PID_MAX && f !in used ensures Ahead(After(p), f) + Ahead(n, After(p)) == Ahead(n, f) {
      AheadStep(p, f);
      AheadSplit(n, p, f);
    }
  }

  lemma AheadSplit(n: nat, p: nat, f: nat)
    requires n < PID_MAX && p < PID_MAX && f < PID_MAX && p != f
    requires Ahead(p, f) + Ahead(n, p) == Ahead(n, f)
    ensures After(p) < PID_MAX && Ahead(n, After(p)) == Ahead(n, p) + 1
  {
  }

  /** The process list: each process, by address, with its identifier. */
  class Processes {
    const pids: Table
    var procs: map<nat, nat>
    var number: nat

    ghost predicate Valid()
      reads this, pids, pids.words
    {
      && pids.Valid() && number <= PROC_MAX && |pids.used| == number + 1
      && (forall a :: a in procs ==> procs[a] in pids.used && procs[a] != 0)
      && (forall a, b :: a in procs && b in procs && a != b ==> procs[a] != procs[b])
    }

    constructor ()
      ensures Valid() && fresh(pids) && fresh(pids.words) && procs == map[] && number == 0
    {
      pids := new Table();
      procs, number := map[], 0;
    }

    /** process_alloc; a is the object the pool gives, 0 when there is none. */
    method Alloc(a: nat) returns (ok: bool)
      requires Valid() && a !in procs
      modifies this, pids, pids.words
      ensures Valid() && ok == (old(number) < PROC_MAX && a != 0)
      ensures !ok ==> procs == old(procs) && number == old(number)
      ensures ok ==> a in procs && procs == old(procs)[a := procs[a]] && number == old(number) + 1
                     && 1 <= procs[a] < PID_MAX && forall b :: b in old(procs) ==> old(procs)[b] != procs[a]
    {
      hide Represents;
      ok := false;
      if number < PROC_MAX && a != 0 {
        var pid := pids.GetPid();
        procs := procs[a := pid];
        number := number + 1;
        ok := true;
      }
    }

    /** process_free. */
    method Free(a: nat)
      requires Valid() && a in procs
      modifies this, pids, pids.words
      ensures Valid() && procs == old(procs) - {a} && number == old(number) - 1
      ensures pids.used == old(pids.used) - {old(procs)[a]}
    {
      hide Represents;
      ghost var pid := procs[a];
      assert pids.used > {0};
      SubsetSize({0, pid}, pids.used);
      pids.ReleasePid(procs[a]);
      assert pids.used == old(pids.used) - {pid};
      number := number - 1;
      procs := procs - {a};
    }
  }
}
