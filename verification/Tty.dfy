/** The line discipline of terminals (sys/tty.c). */
module Tty {
  import opened Arch
  import opened Fifo

  const INPUT_BUFFER := 256   // TTY_INPUT_BUFFER
  const LINE_BUFFER := 128    // TTY_LINE_BUFFER
  const NL: Byte := 10
  const CR: Byte := 13
  const BS: Byte := 8
  const SPACE: Byte := 32
  const CARET: Byte := 94

  /** The flags and characters of struct termios that are looked at. */
  datatype Termios = Termios(isig: bool, icanon: bool,
                             echo: bool, echoe: bool, echok: bool, echonl: bool, echoctl: bool,
                             veof: Byte, veol: Byte, verase: Byte, vintr: Byte,
                             vkill: Byte, vmin: Byte, vquit: Byte, vsusp: Byte)

  datatype Signal = SIGINT | SIGSTOP

  /** Input ready for readers, the line being edited, what was sent to the display, signals raised. */
  datatype State = State(fifo: seq<Byte>, line: seq<Byte>, out: seq<Byte>, raised: seq<Signal>)

  // ---- what one input character does --------------------------------------------------------

  /** ASCII_IS_CTRL. */
  predicate IsCtrl(c: Byte) { (c < 0x20 && c != NL && c != 9) || c == 0x7f }

  /** tty_echo_char. */
  function Echo(ios: Termios, c: Byte): seq<Byte> {
    if ios.echoctl && IsCtrl(c) then [CARET, if c < 0x20 then c + 0x40 else c - 0x40] else [c]
  }

  const RUBOUT: seq<Byte> := [BS, SPACE, BS]

  /** tty_echo_erase. */
  function EraseEcho(ios: Termios, c: Byte): seq<Byte> {
    if ios.echoctl && IsCtrl(c) then RUBOUT + RUBOUT else RUBOUT
  }

  /** The erasures of a whole line, last character first. */
  function KillEcho(ios: Termios, line: seq<Byte>): seq<Byte> {
    if line == [] then [] else EraseEcho(ios, line[|line| - 1]) + KillEcho(ios, line[..|line| - 1])
  }

  predicate IsSignal(ios: Termios, c: Byte) { ios.isig && (c == ios.vintr || c == ios.vquit || c == ios.vsusp) }

  function Raises(ios: Termios, c: Byte): seq<Signal> {
    if c == ios.vintr then [SIGINT] else if c == ios.vquit then [] else [SIGSTOP]
  }

  predicate IsEdit(ios: Termios, c: Byte) { ios.icanon && (c == ios.verase || c == ios.vkill || c == ios.veof) }

  predicate EndsLine(ios: Termios, c: Byte) { ios.icanon && (c == NL || c == ios.veol || c == CR) }

  /** The character goes into the line. */
  predicate Inserts(ios: Termios, c: Byte) { c != 0 && !IsSignal(ios, c) && !IsEdit(ios, c) }

  function Queue(fifo: seq<Byte>, data: seq<Byte>): seq<Byte>
    requires |fifo| <= INPUT_BUFFER
  {
    fifo + (if |data| > INPUT_BUFFER - |fifo| then data[..INPUT_BUFFER - |fifo|] else data)
  }

  function Insert(ios: Termios, s: State, c: Byte): State
    requires |s.fifo| <= INPUT_BUFFER
  {
    if |s.line| + 1 >= LINE_BUFFER then s
    else
      var line := s.line + [c];
      var out := s.out + (if ios.echo || (ios.icanon && c == NL && ios.echonl) then Echo(ios, c) else []);
      if (if ios.icanon then c == NL else |line| >= ios.vmin)
      then State(Queue(s.fifo, line), [], out, s.raised)
      else s.(line := line, out := out)
  }

  function Edited(ios: Termios, s: State, c: Byte): State {
    if c == ios.verase then
      if s.line == [] then s
      else
        var last := |s.line| - 1;
        s.(line := s.line[..last], out := s.out + (if ios.echoe then EraseEcho(ios, s.line[last]) else []))
    else if c == ios.vkill && ios.echok then s.(line := [], out := s.out + KillEcho(ios, s.line))
    else s
  }

  /** tty_input_char as a whole. */
  function Input(ios: Termios, foreground: bool, s: State, c: Byte): State
    requires |s.fifo| <= INPUT_BUFFER
  {
    if c == 0 then s
    else
      var t := if IsSignal(ios, c)
               then s.(out := s.out + Echo(ios, c), raised := s.raised + if foreground then Raises(ios, c) else [])
               else s;
      if IsEdit(ios, c) then Edited(ios, t, c)
      else if IsSignal(ios, c) then t
      else Insert(ios, t, if EndsLine(ios, c) then NL else c)
  }

  lemma InputKeepsRoom(ios: Termios, foreground: bool, s: State, c: Byte)
    requires |s.fifo| <= INPUT_BUFFER && |s.line| < LINE_BUFFER
    ensures |Input(ios, foreground, s, c).fifo| <= INPUT_BUFFER && |Input(ios, foreground, s, c).line| < LINE_BUFFER
  {
  }

  // ---- the lines delivered ---------------------------------------------------------------------

  /** Line editing as a fold, with no buffers: the lines ended so far and the one being edited. */
  datatype Edit = Edit(done: seq<Byte>, line: seq<Byte>)

  ghost function Apply(ios: Termios, e: Edit, c: Byte): Edit {
    if c == 0 then e
    else if c == ios.verase then Edit(e.done, if e.line == [] then [] else e.line[..|e.line| - 1])
    else if c == ios.vkill then Edit(e.done, [])
    else if !Inserts(ios, c) then e
    else if EndsLine(ios, c) then Edit(e.done + e.line + [NL], [])
    else Edit(e.done, e.line + [c])
  }

  /** The buffers have room for what the character does. */
  predicate Fits(ios: Termios, s: State, c: Byte) {
    Inserts(ios, c) ==>
      |s.line| + 1 < LINE_BUFFER && (EndsLine(ios, c) ==> |s.fifo| + |s.line| + 1 <= INPUT_BUFFER)
  }

  /** One character follows the fold exactly when the buffers have room. */
  lemma InputExact(ios: Termios, foreground: bool, s: State, c: Byte, taken: seq<Byte>)
    requires ios.icanon && ios.echok && |s.fifo| <= INPUT_BUFFER && |s.line| < LINE_BUFFER
    ensures var s' := Input(ios, foreground, s, c);
            Apply(ios, Edit(taken + s.fifo, s.line), c) == Edit(taken + s'.fifo, s'.line) <==> Fits(ios, s, c)
  {
    hide Echo, KillEcho, EraseEcho, IsCtrl;
    var s' := Input(ios, foreground, s, c);
    var e := Edit(taken + s.fifo, s.line);
    if Inserts(ios, c) {
      if |s.line| + 1 >= LINE_BUFFER {
        assert s' == s && |Apply(ios, e, c).line| != |s.line|;
      } else if EndsLine(ios, c) {
        InsertEnds(ios, s, taken);
      }
    }
  }

  lemma InsertEnds(ios: Termios, s: State, taken: seq<Byte>)
    requires ios.icanon && |s.fifo| <= INPUT_BUFFER && |s.line| + 1 < LINE_BUFFER
    ensures var s' := Insert(ios, s, NL);
            s'.line == [] &&
            (taken + s'.fifo == taken + s.fifo + s.line + [NL] <==> |s.fifo| + |s.line| + 1 <= INPUT_BUFFER)
  {
    hide Echo;
    var s' := Insert(ios, s, NL);
    if |s.fifo| + |s.line| + 1 <= INPUT_BUFFER {
      assert s'.fifo == s.fifo + (s.line + [NL]);
      assert taken + (s.fifo + (s.line + [NL])) == taken + s.fifo + s.line + [NL];
    } else {
      assert |s'.fifo| == INPUT_BUFFER;
    }
  }

  /** A line of LINE_BUFFER - 1 characters can no longer be ended: until something is erased, every
      character, the newline included, is lost. */
  lemma FullLineIsStuck(ios: Termios, foreground: bool, s: State, c: Byte)
    requires |s.fifo| <= INPUT_BUFFER && |s.line| == LINE_BUFFER - 1
    requires !(ios.icanon && (c == ios.verase || c == ios.vkill))
    ensures var s' := Input(ios, foreground, s, c); s'.line == s.line && s'.fifo == s.fifo
  {
  }

  /** Input and reading in any order. */
  datatype Op = Key(c: Byte) | Read(len: nat)

  datatype Session = Session(s: State, taken: seq<Byte>)

  ghost function Keys(ops: seq<Op>): seq<Byte> {
    if ops == [] then [] else (if ops[0].Key? then [ops[0].c] else []) + Keys(ops[1..])
  }

  ghost function Fold(ios: Termios, e: Edit, input: seq<Byte>): Edit
    decreases |input|
  {
    if input == [] then e else Fold(ios, Apply(ios, e, input[0]), input[1..])
  }

  ghost predicate SessionOk(x: Session) { |x.s.fifo| <= INPUT_BUFFER && |x.s.line| < LINE_BUFFER }

  ghost function Next(ios: Termios, foreground: bool, x: Session, op: Op): Session
    requires SessionOk(x)
    ensures SessionOk(Next(ios, foreground, x, op))
  {
    match op
    case Key(c) =>
      InputKeepsRoom(ios, foreground, x.s, c);
      Session(Input(ios, foreground, x.s, c), x.taken)
    case Read(len) =>
      var n := if len < |x.s.fifo| then len else |x.s.fifo|;
      Session(x.s.(fifo := x.s.fifo[n..]), x.taken + x.s.fifo[..n])
  }

  ghost predicate AllFit(ios: Termios, foreground: bool, x: Session, ops: seq<Op>)
    requires SessionOk(x)
    decreases |ops|
  {
    ops == [] || ((ops[0].Key? ==> Fits(ios, x.s, ops[0].c))
                  && AllFit(ios, foreground, Next(ios, foreground, x, ops[0]), ops[1..]))
  }

  ghost function Run(ios: Termios, foreground: bool, x: Session, ops: seq<Op>): Session
    requires SessionOk(x)
    decreases |ops|
  {
    if ops == [] then x else Run(ios, foreground, Next(ios, foreground, x, ops[0]), ops[1..])
  }

  ghost function Editing(x: Session): Edit { Edit(x.taken + x.s.fifo, x.s.line) }

  /** Over every session in which the buffers have room, what was read, followed by what is ready, is
      what the fold of the typed characters delivers, and the pending line is the fold's. */
  lemma {:induction false} SessionIsFold(ios: Termios, foreground: bool, x: Session, ops: seq<Op>)
    requires ios.icanon && ios.echok && SessionOk(x) && AllFit(ios, foreground, x, ops)
    ensures Editing(Run(ios, foreground, x, ops)) == Fold(ios, Editing(x), Keys(ops))
    decreases |ops|
  {
    hide Apply, Input, Fits;
    if ops != [] {
      var x' := Next(ios, foreground, x, ops[0]);
      SessionIsFold(ios, foreground, x', ops[1..]);
      match ops[0] {
        case Key(c) =>
          InputExact(ios, foreground, x.s, c, x.taken);
          assert Keys(ops)[0] == c && Keys(ops)[1..] == Keys(ops[1..]);
        case Read(len) =>
          var n := if len < |x.s.fifo| then len else |x.s.fifo|;
          assert x.taken + x.s.fifo[..n] + x.s.fifo[n..] == x.taken + x.s.fifo;
          assert Keys(ops) == Keys(ops[1..]);
      }
    }
  }

  // ---- the display ----------------------------------------------------------------------------------

  /** The current row of the display: one column for every character but backspace and newline. */
  datatype Row = Row(cells: seq<Byte>, cur: nat)

  ghost predicate RowOk(r: Row) { r.cur <= |r.cells| }

  ghost function Put(r: Row, c: Byte): Row
    requires RowOk(r)
    ensures RowOk(Put(r, c))
  {
    if c == NL then Row([], 0)
    else if c == BS then Row(r.cells, if r.cur > 0 then r.cur - 1 else 0)
    else Row(r.cells[..r.cur] + [c] + (if r.cur < |r.cells| then r.cells[r.cur + 1..] else []), r.cur + 1)
  }

  ghost function Show(r: Row, out: seq<Byte>): (r': Row)
    requires RowOk(r)
    ensures RowOk(r')
    decreases |out|
  {
    if out == [] then r else Show(Put(r, out[0]), out[1..])
  }

  ghost function Shown(ios: Termios, line: seq<Byte>): seq<Byte> {
    if line == [] then [] else Shown(ios, line[..|line| - 1]) + Echo(ios, line[|line| - 1])
  }

  /** Up to the cursor the row reads prompt and line; nothing is left behind it. */
  ghost predicate Displays(r: Row, text: seq<Byte>)
    requires RowOk(r)
  {
    r.cells[..r.cur] == text && forall i :: r.cur <= i < |r.cells| ==> r.cells[i] == SPACE
  }

  lemma {:induction false} ShowAppend(r: Row, a: seq<Byte>, b: seq<Byte>)
    requires RowOk(r)
    ensures Show(r, a + b) == Show(Show(r, a), b)
    decreases |a|
  {
    hide Put;
    if a == [] {
      assert a + b == b;
    } else {
      assert (a + b)[1..] == a[1..] + b;
      ShowAppend(Put(r, a[0]), a[1..], b);
    }
  }

  lemma PutShows(r: Row, text: seq<Byte>, c: Byte)
    requires RowOk(r) && Displays(r, text) && c != NL && c != BS
    ensures Displays(Put(r, c), text + [c])
  {
  }

  lemma EchoShows(ios: Termios, r: Row, text: seq<Byte>, c: Byte)
    requires RowOk(r) && Displays(r, text) && ios.echoctl && c != NL
    ensures Displays(Show(r, Echo(ios, c)), text + Echo(ios, c))
  {
    hide Displays, Put;
    var e := Echo(ios, c);
    PutShows(r, text, e[0]);
    if |e| == 2 {
      PutShows(Put(r, e[0]), text + [e[0]], e[1]);
      assert text + [e[0]] + [e[1]] == text + e;
      assert e[1..] == [e[1]];
      assert Show(Put(r, e[0]), [e[1]]) == Put(Put(r, e[0]), e[1]) by { ShowOne(Put(r, e[0]), e[1]); }
    } else {
      ShowOne(r, e[0]);
    }
  }

  lemma ShowOne(r: Row, c: Byte)
    requires RowOk(r)
    ensures Show(r, [c]) == Put(r, c)
  {
    hide Put;
    assert [c][1..] == [];
  }

  /** Backspace, space, backspace takes back one column. */
  lemma RuboutShows(r: Row, text: seq<Byte>)
    requires RowOk(r) && Displays(r, text) && text != []
    ensures Displays(Show(r, RUBOUT), text[..|text| - 1])
  {
    hide Show;
    var r1 := Put(r, BS);
    var r2 := Put(r1, SPACE);
    var r3 := Put(r2, BS);
    assert Show(r, RUBOUT) == r3 by { ShowThree(r); }
    assert r3.cur == r.cur - 1 && |r3.cells| == |r.cells|;
    assert r3.cells[..r3.cur] == r.cells[..r.cur - 1];
  }

  lemma ShowThree(r: Row)
    requires RowOk(r)
    ensures Show(r, RUBOUT) == Put(Put(Put(r, BS), SPACE), BS)
  {
    hide Put;
    assert RUBOUT[1..] == [SPACE, BS] && [SPACE, BS][1..] == [BS];
    ShowOne(Put(Put(r, BS), SPACE), BS);
  }

  /** An erasure takes back exactly the columns echoed for the character. */
  lemma EraseShows(ios: Termios, r: Row, text: seq<Byte>, c: Byte)
    requires RowOk(r) && Displays(r, text + Echo(ios, c))
    ensures Displays(Show(r, EraseEcho(ios, c)), text)
  {
    hide Displays, Show, Put;
    var e := Echo(ios, c);
    RuboutShows(r, text + e);
    if |e| == 2 {
      assert (text + e)[..|text| + 1] == text + [e[0]];
      RuboutShows(Show(r, RUBOUT), text + [e[0]]);
      ShowAppend(r, RUBOUT, RUBOUT);
      assert (text + [e[0]])[..|text|] == text;
    } else {
      assert (text + e)[..|text|] == text;
    }
  }

  lemma {:induction false} KillShows(ios: Termios, r: Row, prompt: seq<Byte>, line: seq<Byte>)
    requires RowOk(r) && Displays(r, prompt + Shown(ios, line))
    ensures Displays(Show(r, KillEcho(ios, line)), prompt)
    decreases |line|
  {
    hide Displays, Put, EraseEcho, Echo, Show;
    if line == [] {
      assert prompt + [] == prompt;
      ShowNothing(r);
    } else {
      var last, rest := line[|line| - 1], line[..|line| - 1];
      assert prompt + Shown(ios, line) == prompt + Shown(ios, rest) + Echo(ios, last);
      EraseShows(ios, r, prompt + Shown(ios, rest), last);
      ShowAppend(r, EraseEcho(ios, last), KillEcho(ios, rest));
      KillShows(ios, Show(r, EraseEcho(ios, last)), prompt, rest);
    }
  }

  lemma ShowNothing(r: Row)
    requires RowOk(r)
    ensures Show(r, []) == r
  {
  }

  /** The special characters do not get in each other's way. */
  predicate Distinct(ios: Termios) {
    && (forall c: Byte :: c != 0 && IsSignal(ios, c) ==> !IsEdit(ios, c) && !EndsLine(ios, c))
    && (ios.verase == ios.vkill ==> ios.verase == 0)
  }

  predicate EchoesAll(ios: Termios) { ios.icanon && ios.echo && ios.echoe && ios.echok && ios.echoctl }

  /** What is on the row before the line: it moves while the line is empty. */
  ghost function Prompt(before: seq<Byte>, r: Row, line: seq<Byte>): seq<Byte>
    requires RowOk(r)
  {
    if line == [] then r.cells[..r.cur] else before
  }

  /** What Input sends to the display. */
  ghost function NewOut(ios: Termios, s: State, c: Byte): seq<Byte> {
    if c == 0 then []
    else if IsSignal(ios, c) then Echo(ios, c)
    else if IsEdit(ios, c) then
      if c == ios.verase then (if s.line == [] then [] else EraseEcho(ios, s.line[|s.line| - 1]))
      else if c == ios.vkill then KillEcho(ios, s.line)
      else []
    else if |s.line| + 1 >= LINE_BUFFER then []
    else Echo(ios, if EndsLine(ios, c) then NL else c)
  }

  ghost function NewLine(ios: Termios, s: State, c: Byte): seq<Byte> {
    if c == 0 || IsSignal(ios, c) then s.line
    else if IsEdit(ios, c) then
      if c == ios.verase then (if s.line == [] then [] else s.line[..|s.line| - 1])
      else if c == ios.vkill then []
      else s.line
    else if |s.line| + 1 >= LINE_BUFFER then s.line
    else if EndsLine(ios, c) then []
    else s.line + [c]
  }

  lemma InputParts(ios: Termios, foreground: bool, s: State, c: Byte)
    requires EchoesAll(ios) && Distinct(ios) && |s.fifo| <= INPUT_BUFFER
    ensures var s' := Input(ios, foreground, s, c);
            s'.out == s.out + NewOut(ios, s, c) && s'.line == NewLine(ios, s, c)
  {
    hide Echo, EraseEcho, KillEcho, IsCtrl, Queue;
    assert IsSignal(ios, c) && c != 0 ==> !IsEdit(ios, c);
  }

  /** The display keeps showing the line being edited, whatever is typed, exactly as long as no
      signal character is echoed behind a line that is not empty. */
  lemma DisplayExact(ios: Termios, s: State, c: Byte, r: Row, prompt: seq<Byte>)
    requires EchoesAll(ios) && Distinct(ios) && |s.fifo| <= INPUT_BUFFER
    requires RowOk(r) && Displays(r, prompt + Shown(ios, s.line))
    ensures var r', line' := Show(r, NewOut(ios, s, c)), NewLine(ios, s, c);
            Displays(r', Prompt(prompt, r', line') + Shown(ios, line')) <==>
              !(c != 0 && IsSignal(ios, c) && s.line != [])
  {
    hide Echo, EraseEcho, KillEcho, Show, Put, IsCtrl, Shown, Displays;
    var r', line' := Show(r, NewOut(ios, s, c)), NewLine(ios, s, c);
    ShowNothing(r);
    if c != 0 {
      if IsSignal(ios, c) {
        SignalShows(ios, s.line, c, r, prompt);
      } else if IsEdit(ios, c) {
        EditShows(ios, s, c, r, prompt);
      } else if |s.line| + 1 < LINE_BUFFER {
        InsertShows(ios, s, c, r, prompt);
      } else {
        PromptOfEmpty(ios, r, prompt, s.line);
      }
    } else {
      PromptOfEmpty(ios, r, prompt, s.line);
    }
  }

  /** With an empty line the row is all prompt. */
  lemma PromptOfEmpty(ios: Termios, r: Row, prompt: seq<Byte>, line: seq<Byte>)
    requires RowOk(r) && Displays(r, prompt + Shown(ios, line))
    ensures Displays(r, Prompt(prompt, r, line) + Shown(ios, line))
  {
    if line == [] { assert prompt + [] == prompt && r.cells[..r.cur] + [] == r.cells[..r.cur]; }
  }

  lemma DisplaysOne(r: Row, a: seq<Byte>, b: seq<Byte>)
    requires RowOk(r) && Displays(r, a)
    ensures Displays(r, b) <==> a == b
    ensures Displays(r, r.cells[..r.cur] + [])
  {
    assert r.cells[..r.cur] + [] == r.cells[..r.cur];
  }

  lemma SignalShows(ios: Termios, line: seq<Byte>, c: Byte, r: Row, prompt: seq<Byte>)
    requires EchoesAll(ios) && c != NL && RowOk(r) && Displays(r, prompt + Shown(ios, line))
    ensures var r' := Show(r, Echo(ios, c)); Displays(r', Prompt(prompt, r', line) + Shown(ios, line)) <==> line == []
  {
    hide Show, Put, IsCtrl, Displays;
    var r', text := Show(r, Echo(ios, c)), prompt + Shown(ios, line);
    EchoShows(ios, r, text, c);
    DisplaysOne(r', text + Echo(ios, c), text);
  }

  lemma EditShows(ios: Termios, s: State, c: Byte, r: Row, prompt: seq<Byte>)
    requires EchoesAll(ios) && Distinct(ios) && c != 0 && !IsSignal(ios, c) && IsEdit(ios, c)
    requires RowOk(r) && Displays(r, prompt + Shown(ios, s.line))
    ensures var r', line' := Show(r, NewOut(ios, s, c)), NewLine(ios, s, c);
            Displays(r', Prompt(prompt, r', line') + Shown(ios, line'))
  {
    hide Echo, EraseEcho, KillEcho, Show, Put, IsCtrl, Displays, Prompt;
    var r', line' := Show(r, NewOut(ios, s, c)), NewLine(ios, s, c);
    ShowNothing(r);
    if c == ios.verase && s.line != [] {
      var last, rest := s.line[|s.line| - 1], s.line[..|s.line| - 1];
      assert prompt + Shown(ios, s.line) == prompt + Shown(ios, rest) + Echo(ios, last);
      EraseShows(ios, r, prompt + Shown(ios, rest), last);
    } else if c != ios.verase && c == ios.vkill {
      KillShows(ios, r, prompt, s.line);
      assert prompt + Shown(ios, []) == prompt;
    }
    PromptOfEmpty(ios, r', prompt, line');
  }

  lemma InsertShows(ios: Termios, s: State, c: Byte, r: Row, prompt: seq<Byte>)
    requires EchoesAll(ios) && Inserts(ios, c) && |s.line| + 1 < LINE_BUFFER
    requires RowOk(r) && Displays(r, prompt + Shown(ios, s.line))
    ensures var r', line' := Show(r, NewOut(ios, s, c)), NewLine(ios, s, c);
            Displays(r', Prompt(prompt, r', line') + Shown(ios, line'))
  {
    hide Displays, Show, KillEcho, EraseEcho;
    var r', line' := Show(r, NewOut(ios, s, c)), NewLine(ios, s, c);
    if EndsLine(ios, c) {
      ShowOne(r, NL);
      NewRow();
      assert NewOut(ios, s, c) == [NL] && r' == Row([], 0);
      assert r'.cells[..r'.cur] + Shown(ios, []) == [];
    } else {
      EchoShows(ios, r, prompt + Shown(ios, s.line), c);
      assert line'[..|s.line|] == s.line;
      assert prompt + Shown(ios, s.line) + Echo(ios, c) == prompt + Shown(ios, line');
    }
  }

  lemma NewRow()
    ensures Displays(Row([], 0), [])
  {
  }

  /** Over every input without such a signal character, the display shows the line being edited. */
  lemma {:induction false} DisplayInSync(ios: Termios, foreground: bool, s: State, input: seq<Byte>, r: Row,
                                         prompt: seq<Byte>)
    requires EchoesAll(ios) && Distinct(ios) && |s.fifo| <= INPUT_BUFFER && |s.line| < LINE_BUFFER
    requires RowOk(r) && Displays(r, prompt + Shown(ios, s.line)) && NoSignals(ios, foreground, s, input)
    ensures exists p :: Displays(RowAfter(ios, foreground, s, input, r),
                                 p + Shown(ios, LineAfter(ios, foreground, s, input)))
    decreases |input|
  {
    hide Displays, Input, NewOut, NewLine, Shown, IsSignal, Distinct, Show;
    if input == [] {
      assert Displays(RowAfter(ios, foreground, s, input, r),
                      prompt + Shown(ios, LineAfter(ios, foreground, s, input)));
    } else {
      var c := input[0];
      assert (s.out + NewOut(ios, s, c))[|s.out|..] == NewOut(ios, s, c);
      InputKeepsRoom(ios, foreground, s, c);
      InputParts(ios, foreground, s, c);
      DisplayExact(ios, s, c, r, prompt);
      var r', line' := Show(r, NewOut(ios, s, c)), NewLine(ios, s, c);
      var s' := Input(ios, foreground, s, c);
      DisplayInSync(ios, foreground, s', input[1..], r', Prompt(prompt, r', line'));
      var p :| Displays(RowAfter(ios, foreground, s', input[1..], r'),
                        p + Shown(ios, LineAfter(ios, foreground, s', input[1..])));
      assert s'.out[|s.out|..] == NewOut(ios, s, c);
      assert RowAfter(ios, foreground, s, input, r) == RowAfter(ios, foreground, s', input[1..], r');
      assert LineAfter(ios, foreground, s, input) == LineAfter(ios, foreground, s', input[1..]);
    }
  }

  ghost predicate NoSignals(ios: Termios, foreground: bool, s: State, input: seq<Byte>)
    requires |s.fifo| <= INPUT_BUFFER && |s.line| < LINE_BUFFER
    decreases |input|
  {
    input == [] ||
    (InputKeepsRoom(ios, foreground, s, input[0]);
     !(input[0] != 0 && IsSignal(ios, input[0]) && s.line != [])
     && NoSignals(ios, foreground, Input(ios, foreground, s, input[0]), input[1..]))
  }

  ghost function LineAfter(ios: Termios, foreground: bool, s: State, input: seq<Byte>): seq<Byte>
    requires |s.fifo| <= INPUT_BUFFER && |s.line| < LINE_BUFFER
    decreases |input|
  {
    if input == [] then s.line
    else
      InputKeepsRoom(ios, foreground, s, input[0]);
      LineAfter(ios, foreground, Input(ios, foreground, s, input[0]), input[1..])
  }

  ghost function RowAfter(ios: Termios, foreground: bool, s: State, input: seq<Byte>, r: Row): (r': Row)
    requires |s.fifo| <= INPUT_BUFFER && |s.line| < LINE_BUFFER && RowOk(r)
    ensures RowOk(r')
    decreases |input|
  {
    if input == [] then r
    else
      InputKeepsRoom(ios, foreground, s, input[0]);
      var s' := Input(ios, foreground, s, input[0]);
      var out := if |s.out| <= |s'.out| then s'.out[|s.out|..] else [];
      RowAfter(ios, foreground, s', input[1..], Show(r, out))
  }

  // ---- the terminal ---------------------------------------------------------------------------------

  class Terminal {
    const ios: Termios
    const fifo: Ring
    const lineBuf: array<Byte>
    var linePos: nat
    var foreground: bool
    var out: seq<Byte>
    var raised: seq<Signal>

    ghost predicate Valid()
      reads this, fifo, fifo.buffer
    {
      && fifo.Valid() && fifo.buffer.Length == INPUT_BUFFER && lineBuf.Length == LINE_BUFFER
      && linePos < LINE_BUFFER && lineBuf != fifo.buffer
    }

    ghost function View(): State
      requires linePos <= lineBuf.Length
      reads this, fifo, lineBuf
    {
      State(fifo.bytes, lineBuf[..linePos], out, raised)
    }

    /** tty_default_init, with the given termios. */
    constructor (ios: Termios)
      ensures Valid() && this.ios == ios && View() == State([], [], [], [])
      ensures fresh(fifo) && fresh(fifo.buffer) && fresh(lineBuf)
    {
      this.ios := ios;
      fifo := new Ring(INPUT_BUFFER);
      lineBuf := new Byte[LINE_BUFFER](i => 0);
      linePos, foreground, out, raised := 0, false, [], [];
    }

    /** The echo and the signal of an ISIG character. */
    method CheckSignal(c: Byte) returns (discard: bool)
      requires c != 0
      modifies `out, `raised
      ensures discard == IsSignal(ios, c)
      ensures out == old(out) + (if IsSignal(ios, c) then Echo(ios, c) else [])
      ensures raised == old(raised) + (if IsSignal(ios, c) && foreground then Raises(ios, c) else [])
    {
      discard := false;
      if ios.isig {
        if c == ios.vintr {
          if foreground { raised := raised + [SIGINT]; }
          discard := true;
        } else if c == ios.vquit {
          discard := true;
        } else if c == ios.vsusp {
          if foreground { raised := raised + [SIGSTOP]; }
          discard := true;
        }
        if discard { out := out + Echo(ios, c); }
      }
    }

    /** VERASE and VKILL. */
    method EditLine(c: Byte)
      requires Valid() && IsEdit(ios, c)
      modifies `linePos, `out
      ensures Valid() && View() == Edited(ios, old(View()), c)
    {
      hide Echo, EraseEcho;
      if c == ios.verase {
        if linePos > 0 {
          linePos := linePos - 1;
          if ios.echoe {
            out := out + EraseEcho(ios, lineBuf[linePos]);
          }
        }
      } else if c == ios.vkill {
        if ios.echok {
          ghost var line := lineBuf[..linePos];
          while linePos > 0
            invariant linePos <= |line| && lineBuf[..linePos] == line[..linePos]
            invariant out + KillEcho(ios, line[..linePos]) == old(out) + KillEcho(ios, line)
          {
            ghost var was, before := out, line[..linePos];
            linePos := linePos - 1;
            out := out + EraseEcho(ios, lineBuf[linePos]);
            assert before[..linePos] == line[..linePos];
            assert was + KillEcho(ios, before) == out + KillEcho(ios, line[..linePos]);
          }
          assert out + [] == out;
        }
      }
    }

    /** Storing a character, and handing the line over when it is complete. */
    method InsertChar(c: Byte)
      requires Valid()
      modifies `linePos, `out, lineBuf, fifo, fifo.buffer
      ensures Valid() && |old(fifo.bytes)| <= INPUT_BUFFER && View() == Insert(ios, old(View()), c)
    {
      hide Echo;
      RingBound(fifo);
      if linePos + 1 < LINE_BUFFER {
        ghost var line := lineBuf[..linePos];
        lineBuf[linePos] := c;
        linePos := linePos + 1;
        assert lineBuf[..linePos] == line + [c];
        if ios.echo { out := out + Echo(ios, c); }
        var flush := false;
        if ios.icanon {
          if c == NL {
            flush := true;
            if !ios.echo && ios.echonl { out := out + Echo(ios, c); }
          }
        } else if linePos >= ios.vmin {
          flush := true;
        }
        if flush {
          fifo.Push(lineBuf[..linePos]);
          linePos := 0;
        }
      }
    }

    /** tty_input_char. */
    method InputChar(c: Byte)
      requires Valid()
      modifies `linePos, `out, `raised, lineBuf, fifo, fifo.buffer
      ensures Valid() && |old(fifo.bytes)| <= INPUT_BUFFER
      ensures View() == Input(ios, foreground, old(View()), c)
    {
      hide Echo, Insert, Edited, Raises;
      RingBound(fifo);
      if c != 0 {
        var discard := CheckSignal(c);
        assert old(out) + [] == old(out) && old(raised) + [] == old(raised);
        if ios.icanon && (c == ios.verase || c == ios.vkill || c == ios.veof) {
          EditLine(c);
          discard := true;
        }
        if !discard {
          InsertChar(if EndsLine(ios, c) then NL else c);
        }
      }
    }

    /** One look of tty_read at its condition: it waits on while there is no input. */
    method Read(len: nat) returns (waits: bool, data: seq<Byte>)
      requires Valid()
      modifies fifo
      ensures Valid() && (waits <==> old(fifo.bytes) == [])
      ensures var n := if len < |old(fifo.bytes)| then len else |old(fifo.bytes)|;
              data == old(fifo.bytes)[..n] && View() == old(View()).(fifo := old(fifo.bytes)[n..])
    {
      waits, data := fifo.size == 0, [];
      if !waits {
        var readlen := if fifo.size > len then len else fifo.size;
        data := fifo.Pop(readlen);
      }
    }
  }

  lemma RingBound(r: Ring)
    requires r.Valid()
    ensures |r.bytes| <= r.buffer.Length
  {
  }
}
