/** The cyclic byte buffer (utils/cyclic_fifo.c) and the pipe built on it (fs/pipe.c). */
module Fifo {
  import opened Arch

  /** A position past the end of the buffer continues at its start. */
  function Wrap(max: nat, x: nat): nat { if x < max then x else x - max }

  lemma WrapIsMod(max: nat, x: nat)
    requires 0 < max && x < 2 * max
    ensures x % max == Wrap(max, x) && Wrap(max, x) < max
  {
    if x < max {
    } else {
      assert x == max * 1 + (x - max);
      ModOfSum(max, x - max);
    }
  }

  lemma ModOfSum(max: nat, r: nat)
    requires r < max
    ensures (max + r) % max == r
  {
  }

  /** How far behind top position p is. */
  function Behind(max: nat, top: nat, p: nat): nat
    requires p < max && top < max
  {
    if p >= top then p - top else p + max - top
  }

  /** The bytes are stored from position top on. */
  ghost predicate Holds(buf: seq<Byte>, top: nat, bytes: seq<Byte>) {
    && top < |buf| && |bytes| <= |buf|
    && forall p :: 0 <= p < |buf| && Behind(|buf|, top, p) < |bytes| ==> buf[p] == bytes[Behind(|buf|, top, p)]
  }

  /** buf' is buf with data written behind the first size bytes. */
  ghost predicate Written(buf: seq<Byte>, buf': seq<Byte>, top: nat, size: nat, data: seq<Byte>) {
    && top < |buf| && |buf'| == |buf| && size + |data| <= |buf|
    && forall p :: 0 <= p < |buf| ==>
         buf'[p] == if size <= Behind(|buf|, top, p) < size + |data| then data[Behind(|buf|, top, p) - size] else buf[p]
  }

  lemma TopInside(buf: seq<Byte>, top: nat, bytes: seq<Byte>)
    requires Holds(buf, top, bytes)
    ensures top < |buf| && |bytes| <= |buf|
  {
  }

  lemma HoldsMore(buf: seq<Byte>, buf': seq<Byte>, top: nat, bytes: seq<Byte>, data: seq<Byte>)
    requires Holds(buf, top, bytes) && Written(buf, buf', top, |bytes|, data)
    ensures Holds(buf', top, bytes + data)
  {
  }

  /** Moving top forward drops from the front. */
  lemma HoldsLess(buf: seq<Byte>, top: nat, bytes: seq<Byte>, n: nat)
    requires Holds(buf, top, bytes) && n <= |bytes|
    ensures Holds(buf, Wrap(|buf|, top + n), bytes[n..])
  {
    var top' := Wrap(|buf|, top + n);
    forall p | 0 <= p < |buf| && Behind(|buf|, top', p) < |bytes| - n
      ensures buf[p] == bytes[n..][Behind(|buf|, top', p)]
    {
      assert Behind(|buf|, top, p) == Behind(|buf|, top', p) + n;
    }
  }

  /** The first n bytes are one piece of the buffer, or two when they wrap. */
  lemma FirstBytes(buf: seq<Byte>, top: nat, bytes: seq<Byte>, n: nat)
    requires Holds(buf, top, bytes) && n <= |bytes|
    ensures top + n <= |buf| ==> buf[top..top + n] == bytes[..n]
    ensures top + n > |buf| ==> buf[top..] + buf[..top + n - |buf|] == bytes[..n]
  {
    forall i | 0 <= i < n && top + i < |buf| ensures buf[top + i] == bytes[i] {
      assert Behind(|buf|, top, top + i) == i;
    }
    forall p | 0 <= p < top + n - |buf| ensures buf[p] == bytes[p + |buf| - top] {
      assert Behind(|buf|, top, p) == p + |buf| - top;
    }
    if top + n > |buf| {
      assert forall i :: 0 <= i < n ==> (buf[top..] + buf[..top + n - |buf|])[i] == bytes[i];
    }
  }

  class Ring {
    const buffer: array<Byte>
    var top: nat
    var size: nat
    ghost var bytes: seq<Byte>

    ghost predicate Valid()
      reads this, buffer
    {
      0 < buffer.Length && size == |bytes| && Holds(buffer[..], top, bytes)
    }

    constructor (max: nat)
      requires max > 0
      ensures Valid() && fresh(buffer) && buffer.Length == max && bytes == []
    {
      buffer := new Byte[max](i => 0);
      top, size, bytes := 0, 0, [];
    }

    /** memcpy of data to position at of the buffer. */
    method Store(at: nat, data: seq<Byte>)
      requires at + |data| <= buffer.Length
      modifies buffer
      ensures forall i :: 0 <= i < buffer.Length ==>
                buffer[i] == if at <= i < at + |data| then data[i - at] else old(buffer[i])
    {
      forall i | at <= i < at + |data| {
        buffer[i] := data[i - at];
      }
    }

    /** cfifo_push: what does not fit is dropped. */
    method Push(data: seq<Byte>)
      requires Valid()
      modifies this, buffer
      ensures Valid()
      ensures var room := buffer.Length - |old(bytes)|;
              bytes == old(bytes) + (if |data| > room then data[..room] else data)
    {
      hide Holds, Written;
      TopInside(buffer[..], top, bytes);
      var max := buffer.Length;
      var nb := if |data| > max - size then max - size else |data|;
      var rest := data[..nb];
      if nb > 0 {
        WrapIsMod(max, top + size);
        var bottom := (top + size) % max;
        ghost var before := buffer[..];
        if bottom >= top {
          var realnb := max - bottom;
          realnb := if realnb > nb then nb else realnb;
          Store(bottom, rest[..realnb]);
          if realnb != nb {
            Store(0, rest[realnb..]);
          }
        } else {
          Store(bottom, rest);
        }
        Stored(before, buffer[..], top, size, rest, bottom);
        HoldsMore(before, buffer[..], top, bytes, rest);
        bytes := bytes + rest;
        size := size + nb;
      }
      assert nb == |data| ==> rest == data;
    }

    /** cfifo_pop: at most the bytes stored. */
    method Pop(len: nat) returns (data: seq<Byte>)
      requires Valid()
      modifies this
      ensures Valid()
      ensures var n := if len > |old(bytes)| then |old(bytes)| else len;
              data == old(bytes)[..n] && bytes == old(bytes)[n..]
    {
      hide Holds;
      TopInside(buffer[..], top, bytes);
      var max := buffer.Length;
      var nb := if len > size then size else len;
      data := [];
      if nb > 0 {
        WrapIsMod(max, top + nb - 1);
        var endpos := (top + nb - 1) % max;
        if endpos < top {
          var realnb := max - top;
          realnb := if realnb > nb then nb else realnb;
          data := buffer[top..top + realnb];
          if realnb != nb {
            data := data + buffer[..nb - realnb];
          }
        } else {
          data := buffer[top..top + nb];
        }
        FirstBytes(buffer[..], top, bytes, nb);
        HoldsLess(buffer[..], top, bytes, nb);
        WrapIsMod(max, endpos + 1);
        bytes := bytes[nb..];
        size := size - nb;
        top := (endpos + 1) % max;
      }
    }
  }

  /** The one or two copies of cfifo_push fill the positions behind the stored bytes. */
  lemma Stored(buf: seq<Byte>, buf': seq<Byte>, top: nat, size: nat, data: seq<Byte>, bottom: nat)
    requires top < |buf| && size + |data| <= |buf| && |buf'| == |buf| && bottom == Wrap(|buf|, top + size)
    requires forall i :: 0 <= i < |buf| ==>
               buf'[i] == if bottom <= i < bottom + |data| then data[i - bottom]
                          else if i < bottom + |data| - |buf| then data[i + |buf| - bottom]
                          else buf[i]
    ensures Written(buf, buf', top, size, data)
  {
  }

  // ---- pipes ---------------------------------------------------------------------------------------

  const PIPE_SIZE := 1024 - 16 - 4   // the page without its struct cyclic_fifo and its counter

  /** One atomic step on a pipe: both ends wait until their whole length can be moved. */
  datatype Step = Write(data: seq<Byte>) | Read(len: nat)

  ghost predicate Ready(stored: seq<Byte>, s: Step) {
    match s
    case Write(data) => PIPE_SIZE - |stored| >= |data|
    case Read(len) => |stored| >= len
  }

  /** What is stored, what was written and what was read so far. */
  datatype Pipe = Pipe(stored: seq<Byte>, written: seq<Byte>, taken: seq<Byte>)

  ghost function Next(p: Pipe, s: Step): Pipe
    requires Ready(p.stored, s)
  {
    match s
    case Write(data) => Pipe(p.stored + data, p.written + data, p.taken)
    case Read(len) => Pipe(p.stored[len..], p.written, p.taken + p.stored[..len])
  }

  ghost predicate InOrder(p: Pipe) {
    p.taken + p.stored == p.written && |p.stored| <= PIPE_SIZE
  }

  lemma NextInOrder(p: Pipe, s: Step)
    requires InOrder(p) && Ready(p.stored, s)
    ensures InOrder(Next(p, s))
  {
    match s {
      case Write(data) => assert p.taken + (p.stored + data) == p.written + data;
      case Read(len) => assert p.taken + p.stored[..len] + p.stored[len..] == p.written;
    }
  }

  ghost predicate CanRun(p: Pipe, steps: seq<Step>)
    decreases |steps|
  {
    steps == [] || (Ready(p.stored, steps[0]) && CanRun(Next(p, steps[0]), steps[1..]))
  }

  ghost function Run(p: Pipe, steps: seq<Step>): Pipe
    requires CanRun(p, steps)
    decreases |steps|
  {
    if steps == [] then p else Run(Next(p, steps[0]), steps[1..])
  }

  /** Any interleaving of readers and writers: the bytes read are a prefix of the bytes written, in
      order, and the rest is stored, never more than the buffer holds. */
  lemma {:induction false} RunInOrder(p: Pipe, steps: seq<Step>)
    requires InOrder(p) && CanRun(p, steps)
    ensures var q := Run(p, steps);
            InOrder(q) && q.taken <= q.written && |q.written| - |q.taken| == |q.stored| <= PIPE_SIZE
    decreases |steps|
  {
    if steps == [] {
      assert p.taken + p.stored == p.written;
    } else {
      NextInOrder(p, steps[0]);
      RunInOrder(Next(p, steps[0]), steps[1..]);
    }
  }

  const EMPTY: Pipe := Pipe([], [], [])

  // ---- waiting for each other -----------------------------------------------------------------

  /** A reader of r bytes and a writer of data both wait. */
  ghost predicate BothWait(p: Pipe, r: nat, data: seq<Byte>) {
    !Ready(p.stored, Read(r)) && !Ready(p.stored, Write(data))
  }

  /** A read and a write of these lengths never block each other. */
  predicate Compatible(r: nat, w: nat) { r == 0 || w == 0 || r + w <= PIPE_SIZE + 1 }

  lemma BothWaitBound(p: Pipe, r: nat, data: seq<Byte>)
    requires InOrder(p) && BothWait(p, r, data)
    ensures !Compatible(r, |data|)
  {
  }

  /** How much has to be stored for both to wait. */
  function Between(r: nat, w: nat): (n: nat)
    requires !Compatible(r, w)
    ensures n <= PIPE_SIZE && n < r && PIPE_SIZE - n < w
  {
    if r <= PIPE_SIZE then r - 1 else PIPE_SIZE
  }

  /** A run of the pipe comes to a state where a read and a write wait for each other exactly when
      their lengths are not compatible. */
  lemma BothWaitExact(r: nat, data: seq<Byte>)
    ensures (exists steps :: CanRun(EMPTY, steps) && BothWait(Run(EMPTY, steps), r, data)) <==> !Compatible(r, |data|)
  {
    hide Run, CanRun, BothWait, Compatible;
    if !Compatible(r, |data|) {
      OneWrite(r, data);
      ghost var steps: seq<Step> := [Write(Zeros(Between(r, |data|)))];
      assert exists q: seq<Step> :: CanRun(EMPTY, q) && BothWait(Run(EMPTY, q), r, data) by {
        assert CanRun(EMPTY, steps) && BothWait(Run(EMPTY, steps), r, data);
      }
    }
    forall steps: seq<Step> | CanRun(EMPTY, steps) && BothWait(Run(EMPTY, steps), r, data)
      ensures !Compatible(r, |data|)
    {
      EmptyInOrder();
      RunInOrder(EMPTY, steps);
      BothWaitBound(Run(EMPTY, steps), r, data);
    }
  }

  lemma EmptyInOrder()
    ensures InOrder(EMPTY)
  {
  }

  lemma OneWrite(r: nat, data: seq<Byte>)
    requires !Compatible(r, |data|)
    ensures var steps := [Write(Zeros(Between(r, |data|)))];
            CanRun(EMPTY, steps) && BothWait(Run(EMPTY, steps), r, data)
  {
    var first := Write(Zeros(Between(r, |data|)));
    assert [first][1..] == [];
    assert Ready(EMPTY.stored, first);
    assert |Next(EMPTY, first).stored| == Between(r, |data|);
  }

  /** With 500 bytes stored, reading 600 and writing 600 wait for each other, each of them short
      enough for the buffer. */
  lemma SixHundredEach()
    ensures CanRun(EMPTY, [Write(Zeros(500))])
    ensures BothWait(Run(EMPTY, [Write(Zeros(500))]), 600, Zeros(600))
  {
    var first := Write(Zeros(500));
    assert [first][1..] == [] && Ready(EMPTY.stored, first);
    assert |Next(EMPTY, first).stored| == 500;
  }

  // ---- one reader and one writer -------------------------------------------------------------------

  /** What is left for the reader and for the writer to do. */
  datatype Transfer = Transfer(p: Pipe, wanted: seq<nat>, offered: seq<seq<Byte>>)

  ghost function ToRead(wanted: seq<nat>): nat {
    if wanted == [] then 0 else wanted[0] + ToRead(wanted[1..])
  }

  ghost function ToWrite(offered: seq<seq<Byte>>): nat {
    if offered == [] then 0 else |offered[0]| + ToWrite(offered[1..])
  }

  ghost predicate CanMove(s: Transfer, reader: bool) {
    if reader then s.wanted != [] && Ready(s.p.stored, Read(s.wanted[0]))
    else s.offered != [] && Ready(s.p.stored, Write(s.offered[0]))
  }

  ghost function Move(s: Transfer, reader: bool): Transfer
    requires CanMove(s, reader)
  {
    if reader then Transfer(Next(s.p, Read(s.wanted[0])), s.wanted[1..], s.offered)
    else Transfer(Next(s.p, Write(s.offered[0])), s.wanted, s.offered[1..])
  }

  /** The reader takes in all what is stored or still written, and no read and write block each other. */
  ghost predicate Matched(s: Transfer) {
    && InOrder(s.p) && |s.p.stored| + ToWrite(s.offered) == ToRead(s.wanted)
    && forall i, j :: 0 <= i < |s.wanted| && 0 <= j < |s.offered| ==> Compatible(s.wanted[i], |s.offered[j]|)
  }

  lemma MoveKeepsMatched(s: Transfer, reader: bool)
    requires Matched(s) && CanMove(s, reader)
    ensures Matched(Move(s, reader))
  {
    hide Compatible;
    if reader { NextInOrder(s.p, Read(s.wanted[0])); } else { NextInOrder(s.p, Write(s.offered[0])); }
  }

  /** As long as something is left, one of the two can go on. */
  lemma SomeoneMoves(s: Transfer)
    requires Matched(s) && (s.wanted != [] || s.offered != [])
    ensures CanMove(s, true) || CanMove(s, false)
  {
    if s.wanted != [] && s.offered != [] {
      assert Compatible(s.wanted[0], |s.offered[0]|);
    }
  }

  ghost predicate CanSchedule(s: Transfer, turns: seq<bool>)
    decreases |turns|
  {
    turns == [] || (CanMove(s, turns[0]) && CanSchedule(Move(s, turns[0]), turns[1..]))
  }

  ghost function Scheduled(s: Transfer, turns: seq<bool>): Transfer
    requires CanSchedule(s, turns)
    decreases |turns|
  {
    if turns == [] then s else Scheduled(Move(s, turns[0]), turns[1..])
  }

  /** However the two are scheduled, they come to a halt only when everything is written and read. */
  lemma {:induction false} TransferCompletes(s: Transfer, turns: seq<bool>)
    requires Matched(s) && CanSchedule(s, turns)
    ensures |turns| <= |s.wanted| + |s.offered|
    ensures var e := Scheduled(s, turns);
            !CanMove(e, true) && !CanMove(e, false) ==> e.wanted == [] && e.offered == [] && e.p.taken == e.p.written
    decreases |turns|
  {
    hide CanMove, Compatible;
    if turns == [] {
      if s.wanted != [] || s.offered != [] { SomeoneMoves(s); } else { assert s.p.taken + [] == s.p.written; }
    } else {
      MoveKeepsMatched(s, turns[0]);
      TransferCompletes(Move(s, turns[0]), turns[1..]);
      assert |Move(s, turns[0]).wanted| + |Move(s, turns[0]).offered| < |s.wanted| + |s.offered| by {
        MoveLess(s, turns[0]);
      }
    }
  }

  lemma MoveLess(s: Transfer, reader: bool)
    requires CanMove(s, reader)
    ensures |Move(s, reader).wanted| + |Move(s, reader).offered| < |s.wanted| + |s.offered|
  {
  }

  /** struct pipe_page. */
  class PipePage {
    const ring: Ring
    ghost var view: Pipe

    ghost predicate Valid()
      reads this, ring, ring.buffer
    {
      ring.Valid() && ring.buffer.Length == PIPE_SIZE && ring.bytes == view.stored && InOrder(view)
    }

    constructor ()
      ensures Valid() && fresh(ring) && fresh(ring.buffer) && view == EMPTY
    {
      ring := new Ring(PIPE_SIZE);
      view := EMPTY;
    }

    /** One look of pipe_write at its condition: it waits on, or it writes and returns the length. */
    method Write(data: seq<Byte>) returns (waits: bool, r: nat)
      requires Valid()
      modifies this, ring, ring.buffer
      ensures Valid() && (waits <==> !Ready(old(view.stored), Step.Write(data)))
      ensures view == if waits then old(view) else Next(old(view), Step.Write(data))
      ensures !waits ==> r == |data|
    {
      waits, r := ring.buffer.Length - ring.size < |data|, 0;
      if !waits {
        NextInOrder(view, Step.Write(data));
        ring.Push(data);
        view := Next(view, Step.Write(data));
        r := |data|;
      }
    }

    /** One look of pipe_read at its condition. */
    method Read(len: nat) returns (waits: bool, data: seq<Byte>, r: nat)
      requires Valid()
      modifies this, ring
      ensures Valid() && (waits <==> !Ready(old(view.stored), Step.Read(len)))
      ensures view == if waits then old(view) else Next(old(view), Step.Read(len))
      ensures !waits ==> r == len == |data| && view.taken == old(view.taken) + data
    {
      waits, data, r := ring.size < len, [], 0;
      if !waits {
        NextInOrder(view, Step.Read(len));
        data := ring.Pop(len);
        view := Next(view, Step.Read(len));
        r := len;
      }
    }
  }
}
