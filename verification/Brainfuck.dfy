/**
 The Brainfuck interpreter: one call of `StepCode` executes one character of a flat program text,
 finding matching brackets by scanning. A structured semantics over parse trees is the reference.
 */
module Brainfuck {
  type Byte = b: int | 0 <= b < 256
  type Char = c: int | -128 <= c < 128  // a signed C character

  const CELLS := 300
  const WORDS := 0x1_0000_0000

  const PLUS: Char := 43
  const COMMA: Char := 44
  const MINUS: Char := 45
  const DOT: Char := 46
  const LEFT: Char := 60
  const RIGHT: Char := 62
  const OPEN: Char := 91
  const CLOSE: Char := 93

  datatype Outcome = UnmatchedPair | Success | OutOfBounds | ExpectInput | Unfinished

  /** What one call brings along: a character from the keyboard or none. */
  datatype Event = Key(c: Char) | NoKey

  datatype Store = Store(mem: seq<Byte>, pos: nat, out: seq<Byte>)
  {
    ghost predicate Valid() { |mem| == CELLS && pos < WORDS }

    function Cell(): Byte
      requires pos < |mem|
    {
      mem[pos]
    }

    function Put(b: Byte): Store
      requires pos < |mem|
    {
      this.(mem := mem[pos := b])
    }
  }

  datatype State = State(store: Store, off: int)

  predicate Touches(c: Char) { c in {PLUS, MINUS, DOT, COMMA, OPEN, CLOSE} }

  /** The guard lets the pointer be one past the last cell, as long as no cell is used there. */
  predicate Usable(c: Char, s: Store) { s.pos < CELLS || (s.pos == CELLS && !Touches(c)) }

  /** Everything but brackets; a `,` without a key has no effect. */
  function Effect(c: Char, s: Store, e: Event): (r: Store)
    requires s.Valid() && Usable(c, s)
    ensures r.Valid()
  {
    if c == PLUS then s.Put((s.Cell() + 1) % 256)
    else if c == MINUS then s.Put((s.Cell() + 255) % 256)
    else if c == RIGHT then s.(pos := (s.pos + 1) % WORDS)
    else if c == LEFT then s.(pos := (s.pos + WORDS - 1) % WORDS)
    else if c == DOT then s.(out := s.out + [s.Cell()])
    else if c == COMMA && e.Key? then s.Put(e.c % 256)
    else s
  }

  predicate Waits(c: Char, e: Event) { c == COMMA && e.NoKey? }

  // ---------- the flat machine ----------

  datatype Scan = Stop(at: int) | Bad(at: int)

  /** How a bracket changes the counter of a forward scan; a backward scan counts the other way. */
  function Weight(c: Char): int { if c == OPEN then 1 else if c == CLOSE then -1 else 0 }

  function Forward(code: seq<Char>, i: nat, counter: int): (r: Scan)
    requires i <= |code|
    ensures i <= r.at <= |code|
    decreases |code| - i
  {
    if i == |code| || (code[i] == CLOSE && counter <= 0) then Stop(i)
    else if code[i] >= |code| then Bad(i)
    else Forward(code, i + 1, counter + Weight(code[i]))
  }

  function Backward(code: seq<Char>, i: int, counter: int): (r: Scan)
    requires -1 <= i < |code|
    ensures -1 <= r.at <= i
    decreases i + 1
  {
    if i < 0 || (code[i] == OPEN && counter <= 0) then Stop(i)
    else if code[i] < 0 then Bad(i)
    else Backward(code, i - 1, counter - Weight(code[i]))
  }

  /** One call. Where the guard lets a cell outside the memory through, C defines nothing. */
  function Step(code: seq<Char>, st: State, e: Event): (r: (State, Outcome))
    requires st.store.Valid()
    requires 0 <= st.off < |code| ==> st.store.pos > CELLS || Usable(code[st.off], st.store)
    ensures r.0.store.Valid()
  {
    if st.off < 0 then (st, UnmatchedPair)
    else if st.off >= |code| then (st, Success)
    else if st.store.pos > CELLS then (st, OutOfBounds)
    else
      var c := code[st.off];
      if Waits(c, e) then (st, ExpectInput)
      else if c == OPEN && st.store.Cell() == 0 then Jump(st, Forward(code, st.off + 1, 0))
      else if c == CLOSE && st.store.Cell() != 0 then Jump(st, Backward(code, st.off - 1, 0))
      else (State(Effect(c, st.store, e), st.off + 1), Unfinished)
  }

  function Jump(st: State, scan: Scan): (State, Outcome) {
    match scan
    case Stop(i) => (st.(off := i + 1), Unfinished)
    case Bad(i) => (st.(off := i), UnmatchedPair)
  }

  class Machine {
    const memory: array<Byte>
    var memPos: nat
    const code: seq<Char>
    var offset: int
    var output: seq<Byte>  // what has been printed

    ghost predicate Valid()
      reads this, memory
    {
      memory.Length == CELLS && memPos < WORDS
    }

    ghost function Abs(): State
      reads this, memory
    {
      State(Store(memory[..], memPos, output), offset)
    }

    constructor (text: seq<Char>)
      ensures Valid() && fresh(memory) && code == text
      ensures Abs() == State(Store(seq<Byte>(CELLS, i => 0), 0, []), 0)
    {
      memory := new Byte[CELLS](i => 0);
      code := text;
      offset := 0;
      memPos := 0;
      output := [];
    }

    method StepCode(e: Event) returns (r: Outcome)
      requires Valid()
      requires 0 <= offset < |code| ==> memPos > CELLS || Usable(code[offset], Abs().store)
      modifies this`memPos, this`offset, this`output, memory
      ensures Valid() && (Abs(), r) == Step(code, old(Abs()), e)
    {
      hide Forward, Backward;
      if offset < 0 {
        return UnmatchedPair;
      }
      if offset >= |code| {
        return Success;
      }
      if memPos > CELLS {
        return OutOfBounds;
      }
      var c := code[offset];
      if c == PLUS {
        var v: int := memory[memPos];
        memory[memPos] := (v + 1) % 256;
      } else if c == MINUS {
        var v: int := memory[memPos];
        memory[memPos] := (v + 255) % 256;
      } else if c == RIGHT {
        memPos := (memPos + 1) % WORDS;
      } else if c == LEFT {
        memPos := (memPos + WORDS - 1) % WORDS;
      } else if c == DOT {
        output := output + [memory[memPos]];
      } else if c == COMMA {
        if e.NoKey? {
          return ExpectInput;
        }
        memory[memPos] := e.c % 256;
      } else if c == OPEN {
        if memory[memPos] == 0 {
          var bad := ScanForward();
          if bad {
            return UnmatchedPair;
          }
        }
      } else if c == CLOSE {
        if memory[memPos] != 0 {
          var bad := ScanBackward();
          if bad {
            return UnmatchedPair;
          }
        }
      }
      offset := offset + 1;
      return Unfinished;
    }

    method ScanForward() returns (bad: bool)
      requires 0 <= offset < |code|
      modifies this`offset
      ensures var scan := Forward(code, old(offset) + 1, 0); scan.at == offset && bad == scan.Bad?
    {
      var counter := 0;
      offset := offset + 1;
      while offset < |code| && !(code[offset] == CLOSE && counter <= 0)
        invariant 0 <= offset <= |code|
        invariant Forward(code, offset, counter) == Forward(code, old(offset) + 1, 0)
        decreases |code| - offset
      {
        if code[offset] >= |code| {
          return true;
        }
        if code[offset] == OPEN {
          counter := counter + 1;
        } else if code[offset] == CLOSE {
          counter := counter - 1;
        }
        offset := offset + 1;
      }
      return false;
    }

    method ScanBackward() returns (bad: bool)
      requires 0 <= offset < |code|
      modifies this`offset
      ensures var scan := Backward(code, old(offset) - 1, 0); scan.at == offset && bad == scan.Bad?
    {
      var counter := 0;
      offset := offset - 1;
      while offset >= 0 && !(code[offset] == OPEN && counter <= 0)
        invariant -1 <= offset < |code|
        invariant Backward(code, offset, counter) == Backward(code, old(offset) - 1, 0)
        decreases offset + 1
      {
        if code[offset] < 0 {
          return true;
        }
        if code[offset] == CLOSE {
          counter := counter + 1;
        } else if code[offset] == OPEN {
          counter := counter - 1;
        }
        offset := offset - 1;
      }
      return false;
    }
  }

  // ---------- programs as trees ----------

  datatype Prog = Nil | Prim(c: Char, next: Prog) | Loop(body: Prog, next: Prog)

  ghost predicate Proper(p: Prog) {
    match p
    case Nil => true
    case Prim(c, next) => c != OPEN && c != CLOSE && Proper(next)
    case Loop(body, next) => Proper(body) && Proper(next)
  }

  function Flatten(p: Prog): (t: seq<Char>) {
    match p
    case Nil => []
    case Prim(c, next) => [c] + Flatten(next)
    case Loop(body, next) => [OPEN] + Flatten(body) + [CLOSE] + Flatten(next)
  }

  /** Every bracket has its partner, `d` closing ones being owed. */
  ghost predicate Balanced(t: seq<Char>, d: nat) {
    if t == [] then d == 0
    else if t[0] == OPEN then Balanced(t[1..], d + 1)
    else if t[0] == CLOSE then d > 0 && Balanced(t[1..], d - 1)
    else Balanced(t[1..], d)
  }

  lemma {:induction false} FlattenBalanced(p: Prog, rest: seq<Char>, d: nat)
    requires Proper(p)
    ensures Balanced(Flatten(p) + rest, d) == Balanced(rest, d)
    decreases p
  {
    match p
    case Nil => assert [] + rest == rest;
    case Prim(c, next) =>
      assert (Flatten(p) + rest)[1..] == Flatten(next) + rest;
      FlattenBalanced(next, rest, d);
    case Loop(body, next) =>
      var tail := [CLOSE] + (Flatten(next) + rest);
      OpenText(body, next, rest);
      FlattenBalanced(body, tail, d + 1);
      FlattenBalanced(next, rest, d);
  }

  lemma OpenText(body: Prog, next: Prog, rest: seq<Char>)
    ensures var t, tail := Flatten(Loop(body, next)) + rest, [CLOSE] + (Flatten(next) + rest);
      t != [] && t[0] == OPEN && t[1..] == Flatten(body) + tail && tail[1..] == Flatten(next) + rest
  {
    FlattenLoop(body, next);
    hide Flatten;
    var tail := [CLOSE] + (Flatten(next) + rest);
    assert [OPEN] + Flatten(body) + [CLOSE] + Flatten(next) + rest == [OPEN] + (Flatten(body) + tail);
  }

  lemma FlattenLoop(body: Prog, next: Prog)
    ensures Flatten(Loop(body, next)) == [OPEN] + Flatten(body) + [CLOSE] + Flatten(next)
  {
  }

  /** A text with `d` closing brackets owed starts with a program, up to the first of them. */
  lemma {:induction false} Parse(t: seq<Char>, d: nat) returns (p: Prog, rest: seq<Char>)
    requires Balanced(t, d)
    ensures Proper(p) && t == Flatten(p) + rest
    ensures if d == 0 then rest == [] else rest != [] && rest[0] == CLOSE && Balanced(rest[1..], d - 1)
    decreases |t|
  {
    if t == [] || t[0] == CLOSE {
      p, rest := Nil, t;
    } else if t[0] == OPEN {
      var body, tail := Parse(t[1..], d + 1);
      var next;
      next, rest := Parse(tail[1..], d);
      p := Loop(body, next);
      JoinLoop(t, body, tail, next, rest);
    } else {
      var next;
      next, rest := Parse(t[1..], d);
      p := Prim(t[0], next);
      assert t == [t[0]] + (Flatten(next) + rest);
    }
  }

  lemma JoinLoop(t: seq<Char>, body: Prog, tail: seq<Char>, next: Prog, rest: seq<Char>)
    requires t != [] && t[0] == OPEN && t[1..] == Flatten(body) + tail
    requires tail != [] && tail[0] == CLOSE && tail[1..] == Flatten(next) + rest
    ensures t == Flatten(Loop(body, next)) + rest
  {
    hide Flatten;
    OpenText(body, next, rest);
    var b := Flatten(body);
    assert tail == [CLOSE] + (Flatten(next) + rest) && t == [OPEN] + (b + tail);
  }

  /** Trees describe exactly the balanced texts. */
  lemma BalancedIsProgram(t: seq<Char>)
    ensures Balanced(t, 0) <==> exists p :: Proper(p) && Flatten(p) == t
  {
    if Balanced(t, 0) {
      var p, rest := Parse(t, 0);
      assert Proper(p) && Flatten(p) == t;
    }
    forall p | Proper(p) && Flatten(p) == t ensures Balanced(t, 0) {
      FlattenBalanced(p, [], 0);
      assert Flatten(p) + [] == t;
    }
  }

  // ---------- the structured semantics ----------

  /** Finished with events left over, out of events, or before a step the machine cannot take. */
  datatype Result = Done(s: Store, rest: seq<Event>) | Paused(s: Store) | Fault(s: Store, rest: seq<Event>)

  /** Each character and each test of a loop takes one event. */
  function Exec(p: Prog, s: Store, ev: seq<Event>): (r: Result)
    requires s.Valid()
    ensures r.s.Valid() && (r.Paused? || |r.rest| <= |ev|)
    decreases |ev|, p, 0
  {
    match p
    case Nil => Done(s, ev)
    case Prim(c, next) =>
      if ev == [] then Paused(s)
      else if !Usable(c, s) then Fault(s, ev)
      else if Waits(c, ev[0]) then Exec(p, s, ev[1..])
      else Exec(next, Effect(c, s, ev[0]), ev[1..])
    case Loop(body, next) =>
      if ev == [] then Paused(s)
      else if s.pos >= CELLS then Fault(s, ev)
      else if s.Cell() == 0 then Exec(next, s, ev[1..])
      else Iterate(body, next, s, ev[1..])
  }

  /** The body, then the test at its end. */
  function Iterate(body: Prog, next: Prog, s: Store, ev: seq<Event>): (r: Result)
    requires s.Valid()
    ensures r.s.Valid() && (r.Paused? || |r.rest| <= |ev|)
    decreases |ev|, body, 1
  {
    match Exec(body, s, ev)
    case Done(t, rest) => Test(body, next, t, rest)
    case r => r
  }

  /** The test at the end of a body. */
  function Test(body: Prog, next: Prog, s: Store, ev: seq<Event>): (r: Result)
    requires s.Valid()
    ensures r.s.Valid() && (r.Paused? || |r.rest| <= |ev|)
    decreases |ev|, body, 0
  {
    if ev == [] then Paused(s)
    else if s.pos >= CELLS then Fault(s, ev)
    else if s.Cell() == 0 then Exec(next, s, ev[1..])
    else Iterate(body, next, s, ev[1..])
  }

  // ---------- brackets are found at any depth ----------

  ghost predicate At(code: seq<Char>, i: int, p: Prog) {
    && 0 <= i && i + |Flatten(p)| <= |code|
    && forall k | 0 <= k < |Flatten(p)| :: code[i + k] == Flatten(p)[k]
  }

  predicate InRange(t: seq<Char>, n: nat) { forall k | 0 <= k < |t| :: 0 <= t[k] < n }

  /** No character inside a loop is taken for a mismatch by the scans. */
  ghost predicate Plain(p: Prog, n: nat) {
    match p
    case Nil => true
    case Prim(_, next) => Plain(next, n)
    case Loop(body, next) => InRange(Flatten(body), n) && Plain(body, n) && Plain(next, n)
  }

  lemma PrimText(c: Char, next: Prog)
    ensures var t := Flatten(Prim(c, next)); |t| == 1 + |Flatten(next)| && t[0] == c
    ensures forall k | 0 <= k < |Flatten(next)| :: Flatten(next)[k] == Flatten(Prim(c, next))[k + 1]
  {
  }

  lemma LoopText(body: Prog, next: Prog)
    ensures var t, m := Flatten(Loop(body, next)), |Flatten(body)|;
      |t| == m + 2 + |Flatten(next)| && t[0] == OPEN && t[m + 1] == CLOSE
    ensures forall k | 0 <= k < |Flatten(body)| :: Flatten(body)[k] == Flatten(Loop(body, next))[k + 1]
    ensures var m := |Flatten(body)|;
      forall k | 0 <= k < |Flatten(next)| :: Flatten(next)[k] == Flatten(Loop(body, next))[m + 2 + k]
  {
  }

  lemma AtPrim(code: seq<Char>, i: int, c: Char, next: Prog)
    requires At(code, i, Prim(c, next))
    ensures 0 <= i < |code| && code[i] == c && At(code, i + 1, next)
    ensures |Flatten(Prim(c, next))| == 1 + |Flatten(next)|
  {
    PrimText(c, next);
    hide Flatten;
    assert code[i + 0] == c;
    forall k | 0 <= k < |Flatten(next)| ensures code[i + 1 + k] == Flatten(next)[k] {
      assert code[i + (k + 1)] == Flatten(next)[k];
    }
  }

  lemma AtLoop(code: seq<Char>, i: int, body: Prog, next: Prog)
    requires At(code, i, Loop(body, next))
    ensures var b := i + 1 + |Flatten(body)|;
      0 <= i && b < |code| && code[i] == OPEN && At(code, i + 1, body) && code[b] == CLOSE && At(code, b + 1, next)
    ensures |Flatten(Loop(body, next))| == 2 + |Flatten(body)| + |Flatten(next)|
    ensures i + |Flatten(Loop(body, next))| <= |code|
  {
    LoopText(body, next);
    hide Flatten;
    var m := |Flatten(body)|;
    assert code[i + 0] == OPEN && code[i + (m + 1)] == CLOSE;
    forall k | 0 <= k < m ensures code[i + 1 + k] == Flatten(body)[k] {
      assert code[i + (k + 1)] == Flatten(body)[k];
    }
    forall k | 0 <= k < |Flatten(next)| ensures code[i + 1 + m + 1 + k] == Flatten(next)[k] {
      assert code[i + (m + 2 + k)] == Flatten(next)[k];
    }
  }

  lemma Parts(p: Prog, n: nat)
    requires Plain(p, n) && Proper(p)
    ensures p.Prim? ==> p.c != OPEN && p.c != CLOSE && Plain(p.next, n) && Proper(p.next)
    ensures p.Loop? ==> Plain(p.body, n) && Plain(p.next, n) && Proper(p.body) && Proper(p.next)
    ensures p.Loop? ==> InRange(Flatten(p.body), n)
  {
    hide Flatten, InRange;
  }

  /** No character in a stretch of text is too large for the forward scan. */
  ghost predicate Low(code: seq<Char>, i: int, j: int) { forall k | 0 <= i <= k < j <= |code| :: code[k] < |code| }

  /** None is too small for the backward scan. */
  ghost predicate High(code: seq<Char>, i: int, j: int) { forall k | 0 <= i <= k < j <= |code| :: code[k] >= 0 }

  lemma ForwardStep(code: seq<Char>, i: int, counter: int)
    requires 0 <= i < |code| && code[i] < |code| && !(code[i] == CLOSE && counter <= 0)
    ensures Forward(code, i, counter) == Forward(code, i + 1, counter + Weight(code[i]))
  {
  }

  lemma BackwardStep(code: seq<Char>, i: int, counter: int)
    requires 0 <= i < |code| && code[i] >= 0 && !(code[i] == OPEN && counter <= 0)
    ensures Backward(code, i, counter) == Backward(code, i - 1, counter - Weight(code[i]))
  {
  }

  /** A forward scan passes a whole program with its counter unchanged. */
  lemma {:induction false} ForwardOver(code: seq<Char>, i: int, p: Prog, counter: nat)
    requires At(code, i, p) && Proper(p) && Low(code, i, i + |Flatten(p)|)
    ensures Forward(code, i, counter) == Forward(code, i + |Flatten(p)|, counter)
    decreases p, 1
  {
    match p
    case Nil => EmptyText();
    case Prim(c, next) =>
      AtPrim(code, i, c, next);
      hide At, Flatten, Forward;
      ForwardStep(code, i, counter);
      ForwardOver(code, i + 1, next, counter);
    case Loop(body, next) => ForwardOverLoop(code, i, body, next, counter);
  }

  lemma {:induction false} ForwardOverLoop(code: seq<Char>, i: int, body: Prog, next: Prog, counter: nat)
    requires At(code, i, Loop(body, next)) && Proper(body) && Proper(next)
    requires Low(code, i, i + |Flatten(Loop(body, next))|)
    ensures Forward(code, i, counter) == Forward(code, i + |Flatten(Loop(body, next))|, counter)
    decreases Loop(body, next), 0
  {
    hide At, Flatten, Forward, Proper, Low;
    AtLoop(code, i, body, next);
    var b, j := i + 1 + |Flatten(body)|, i + |Flatten(Loop(body, next))|;
    LowParts(code, i, b, j);
    ForwardStep(code, i, counter);
    ForwardOver(code, i + 1, body, counter + 1);
    ForwardStep(code, b, counter + 1);
    ForwardOver(code, b + 1, next, counter);
  }

  lemma LowParts(code: seq<Char>, i: int, b: int, j: int)
    requires 0 <= i < b < j <= |code|
    ensures Low(code, i, j) ==> code[i] < |code| && code[b] < |code| && Low(code, i + 1, b) && Low(code, b + 1, j)
    ensures High(code, i, j) ==> code[i] >= 0 && code[b] >= 0 && High(code, i + 1, b) && High(code, b + 1, j)
  {
  }

  /** So does a backward scan. */
  lemma {:induction false} BackwardOver(code: seq<Char>, i: int, p: Prog, counter: nat)
    requires At(code, i, p) && Proper(p) && High(code, i, i + |Flatten(p)|)
    ensures Backward(code, i + |Flatten(p)| - 1, counter) == Backward(code, i - 1, counter)
    decreases p, 1
  {
    match p
    case Nil => EmptyText();
    case Prim(c, next) =>
      AtPrim(code, i, c, next);
      hide At, Flatten, Backward;
      BackwardOver(code, i + 1, next, counter);
      BackwardStep(code, i, counter);
    case Loop(body, next) => BackwardOverLoop(code, i, body, next, counter);
  }

  lemma {:induction false} BackwardOverLoop(code: seq<Char>, i: int, body: Prog, next: Prog, counter: nat)
    requires At(code, i, Loop(body, next)) && Proper(body) && Proper(next)
    requires High(code, i, i + |Flatten(Loop(body, next))|)
    ensures Backward(code, i + |Flatten(Loop(body, next))| - 1, counter) == Backward(code, i - 1, counter)
    decreases Loop(body, next), 0
  {
    hide At, Flatten, Backward, Proper, High;
    AtLoop(code, i, body, next);
    var b, j := i + 1 + |Flatten(body)|, i + |Flatten(Loop(body, next))|;
    LowParts(code, i, b, j);
    BackwardOver(code, b + 1, next, counter);
    BackwardStep(code, b, counter);
    BackwardOver(code, i + 1, body, counter + 1);
    BackwardStep(code, i, counter + 1);
  }

  lemma {:induction false} ForwardPasses(code: seq<Char>, i: nat, counter: int)
    requires i <= |code| && Forward(code, i, counter).Stop?
    ensures Low(code, i, Forward(code, i, counter).at)
    decreases |code| - i
  {
    if i < |code| && !(code[i] == CLOSE && counter <= 0) { ForwardPasses(code, i + 1, counter + Weight(code[i])); }
  }

  lemma {:induction false} BackwardPasses(code: seq<Char>, i: int, counter: int)
    requires -1 <= i < |code| && Backward(code, i, counter).Stop?
    ensures High(code, Backward(code, i, counter).at + 1, i + 1)
    decreases i + 1
  {
    if i >= 0 && !(code[i] == OPEN && counter <= 0) { BackwardPasses(code, i - 1, counter - Weight(code[i])); }
  }

  lemma StopsHere(code: seq<Char>, i: int, b: int)
    requires 0 <= i < |code| && code[i] == OPEN && 0 <= b < |code| && code[b] == CLOSE
    ensures Forward(code, b, 0) == Stop(b) && Backward(code, i, 0) == Stop(i)
  {
  }

  /** The scan from one bracket of a loop lands on the other one, at any depth of nesting, exactly
      when no character between them is compared away: none of the text's length or more going
      forward, no negative one going back. */
  lemma ScansMeet(code: seq<Char>, i: int, body: Prog, next: Prog)
    requires At(code, i, Loop(body, next)) && Proper(body)
    ensures var b := i + 1 + |Flatten(body)|;
      && 0 <= i && b < |code| && code[i] == OPEN && code[b] == CLOSE
      && (Forward(code, i + 1, 0) == Stop(b) <==> Low(code, i + 1, b))
      && (Backward(code, b - 1, 0) == Stop(i) <==> High(code, i + 1, b))
  {
    hide At, Flatten, Forward, Backward, Proper, Low, High;
    AtLoop(code, i, body, next);
    StopsHere(code, i, i + 1 + |Flatten(body)|);
    var b := i + 1 + |Flatten(body)|;
    if Low(code, i + 1, b) { ForwardOver(code, i + 1, body, 0); }
    if High(code, i + 1, b) { BackwardOver(code, i + 1, body, 0); }
    if Forward(code, i + 1, 0) == Stop(b) { ForwardPasses(code, i + 1, 0); }
    if Backward(code, b - 1, 0) == Stop(i) { BackwardPasses(code, b - 1, 0); }
  }

  // ---------- the flat machine follows the tree ----------

  /** The state after all events, or where the run ended before that. */
  datatype Trace = Live(st: State) | Ended(st: State)

  ghost predicate Defined(code: seq<Char>, st: State) {
    && st.store.Valid()
    && (0 <= st.off < |code| ==> st.store.pos > CELLS || Usable(code[st.off], st.store))
  }

  /** Calls the machine once per event, as long as it says that it is not finished. */
  ghost function Calls(code: seq<Char>, st: State, ev: seq<Event>): Trace
    decreases |ev|
  {
    if ev == [] then Live(st)
    else if !Defined(code, st) then Ended(st)
    else
      var (st', r) := Step(code, st, ev[0]);
      if r == Unfinished || r == ExpectInput then Calls(code, st', ev[1..]) else Ended(st')
  }

  /** Before the next character the pointer is where that character cannot use it. */
  ghost predicate Stuck(code: seq<Char>, st: State) {
    0 <= st.off < |code| && !Usable(code[st.off], st.store)
  }

  /** What calls from `st` do, in the words of the structured semantics. */
  ghost predicate Agrees(code: seq<Char>, st: State, ev: seq<Event>, end: int, r: Result) {
    match r
    case Done(s, rest) => Calls(code, st, ev) == Calls(code, State(s, end), rest)
    case Paused(s) => Calls(code, st, ev).Live? && Calls(code, st, ev).st.store == s
    case Fault(s, rest) =>
      rest != [] && exists o :: Stuck(code, State(s, o)) && Calls(code, st, ev) == Calls(code, State(s, o), rest)
  }

  lemma LoopScans(code: seq<Char>, i: int, body: Prog, next: Prog)
    requires At(code, i, Loop(body, next)) && Proper(Loop(body, next)) && Plain(Loop(body, next), |code|)
    ensures var b := i + 1 + |Flatten(body)|;
      0 <= i && b < |code| && Forward(code, i + 1, 0) == Stop(b) && Backward(code, b - 1, 0) == Stop(i)
  {
    Parts(Loop(body, next), |code|);
    AtLoop(code, i, body, next);
    ScansMeet(code, i, body, next);
    hide Flatten;
    var b := i + 1 + |Flatten(body)|;
    forall k | i + 1 <= k < b ensures 0 <= code[k] < |code| {
      var n := k - i - 1;
      assert code[i + 1 + n] == Flatten(body)[n];
    }
  }

  lemma EmptyText()
    ensures Flatten(Nil) == []
  {
  }

  /** A call that is not the last: the rest of the run starts from where it led. */
  lemma OneCall(code: seq<Char>, st: State, st': State, ev: seq<Event>, end: int, r: Result)
    requires ev != [] && Defined(code, st) && Step(code, st, ev[0]).0 == st'
    requires Step(code, st, ev[0]).1 in {Unfinished, ExpectInput} && Agrees(code, st', ev[1..], end, r)
    ensures Agrees(code, st, ev, end, r)
  {
    hide Step, Defined, Stuck;
    assert Calls(code, st, ev) == Calls(code, st', ev[1..]);
  }

  lemma {:induction false} Follows(code: seq<Char>, i: int, p: Prog, s: Store, ev: seq<Event>)
    requires At(code, i, p) && Proper(p) && Plain(p, |code|) && s.Valid()
    ensures Agrees(code, State(s, i), ev, i + |Flatten(p)|, Exec(p, s, ev))
    decreases |ev|, p, 1
  {
    match p
    case Nil => EmptyText();
    case Prim(c, next) => FollowsPrim(code, i, c, next, s, ev);
    case Loop(body, next) => FollowsLoop(code, i, body, next, s, ev);
  }

  lemma {:induction false} FollowsPrim(code: seq<Char>, i: int, c: Char, next: Prog, s: Store, ev: seq<Event>)
    requires At(code, i, Prim(c, next)) && Proper(Prim(c, next)) && Plain(Prim(c, next), |code|) && s.Valid()
    ensures Agrees(code, State(s, i), ev, i + |Flatten(Prim(c, next))|, Exec(Prim(c, next), s, ev))
    decreases |ev|, Prim(c, next), 0
  {
    var p := Prim(c, next);
    Parts(p, |code|);
    AtPrim(code, i, c, next);
    PrimCall(code, i, c, s, ev);
    hide At, Plain, Flatten, Proper, Defined, Step, Agrees, Calls, Effect;
    if ev != [] && Usable(c, s) {
      if Waits(c, ev[0]) {
        Follows(code, i, p, s, ev[1..]);
        OneCall(code, State(s, i), State(s, i), ev, i + |Flatten(p)|, Exec(p, s, ev));
      } else {
        var t := Effect(c, s, ev[0]);
        Follows(code, i + 1, next, t, ev[1..]);
        OneCall(code, State(s, i), State(t, i + 1), ev, i + |Flatten(p)|, Exec(p, s, ev));
      }
    }
  }

  lemma {:induction false} FollowsLoop(code: seq<Char>, i: int, body: Prog, next: Prog, s: Store, ev: seq<Event>)
    requires At(code, i, Loop(body, next)) && Proper(Loop(body, next)) && Plain(Loop(body, next), |code|) && s.Valid()
    ensures Agrees(code, State(s, i), ev, i + |Flatten(Loop(body, next))|, Exec(Loop(body, next), s, ev))
    decreases |ev|, Loop(body, next), 0
  {
    hide At, Plain, Flatten, Proper, Defined, Step, Agrees, Calls, Forward, Backward, Iterate;
    var p := Loop(body, next);
    Parts(p, |code|);
    AtLoop(code, i, body, next);
    LoopScans(code, i, body, next);
    var b, end := i + 1 + |Flatten(body)|, i + |Flatten(p)|;
    OpenCall(code, i, b, s, ev, end);
    if ev != [] && s.pos < CELLS {
      if s.Cell() == 0 {
        Follows(code, b + 1, next, s, ev[1..]);
        OneCall(code, State(s, i), State(s, b + 1), ev, end, Exec(p, s, ev));
      } else {
        IterateFollows(code, i, body, next, s, ev[1..]);
        OneCall(code, State(s, i), State(s, i + 1), ev, end, Exec(p, s, ev));
      }
    }
  }

  /** The call at a character other than a bracket, and the runs that end before it. */
  lemma PrimCall(code: seq<Char>, i: int, c: Char, s: Store, ev: seq<Event>)
    requires 0 <= i < |code| && code[i] == c && c != OPEN && c != CLOSE && s.Valid()
    ensures ev == [] ==> forall end :: Agrees(code, State(s, i), ev, end, Paused(s))
    ensures ev != [] && !Usable(c, s) ==> forall end :: Agrees(code, State(s, i), ev, end, Fault(s, ev))
    ensures ev != [] && Usable(c, s) ==>
      Defined(code, State(s, i)) && Step(code, State(s, i), ev[0])
      == if Waits(c, ev[0]) then (State(s, i), ExpectInput) else (State(Effect(c, s, ev[0]), i + 1), Unfinished)
  {
    hide Effect, Forward, Backward;
    if ev != [] && !Usable(c, s) { assert Stuck(code, State(s, i)); }
  }

  lemma OpenCall(code: seq<Char>, i: int, b: int, s: Store, ev: seq<Event>, end: int)
    requires 0 <= i < |code| && code[i] == OPEN && s.Valid() && Forward(code, i + 1, 0) == Stop(b)
    ensures ev == [] ==> Agrees(code, State(s, i), ev, end, Paused(s))
    ensures ev != [] && s.pos >= CELLS ==> Agrees(code, State(s, i), ev, end, Fault(s, ev))
    ensures ev != [] && s.pos < CELLS ==>
      && Defined(code, State(s, i))
      && Step(code, State(s, i), ev[0]) == (State(s, if s.Cell() == 0 then b + 1 else i + 1), Unfinished)
  {
    hide Forward, Backward;
    if ev != [] && s.pos >= CELLS { assert Stuck(code, State(s, i)); }
  }

  lemma {:induction false} IterateFollows(code: seq<Char>, i: int, body: Prog, next: Prog, s: Store, ev: seq<Event>)
    requires At(code, i, Loop(body, next)) && Proper(Loop(body, next)) && Plain(Loop(body, next), |code|) && s.Valid()
    ensures Agrees(code, State(s, i + 1), ev, i + |Flatten(Loop(body, next))|, Iterate(body, next, s, ev))
    decreases |ev|, body, 3
  {
    hide At, Plain, Flatten, Proper, Agrees, Exec, Test;
    Parts(Loop(body, next), |code|);
    AtLoop(code, i, body, next);
    var r := Exec(body, s, ev);
    Follows(code, i + 1, body, s, ev);
    if r.Done? { TestFollows(code, i, body, next, r.s, r.rest); }
    BodyAgrees(code, State(s, i + 1), ev, i + 1 + |Flatten(body)|, r, i + |Flatten(Loop(body, next))|,
               Iterate(body, next, s, ev));
  }

  lemma {:induction false} TestFollows(code: seq<Char>, i: int, body: Prog, next: Prog, s: Store, ev: seq<Event>)
    requires At(code, i, Loop(body, next)) && Proper(Loop(body, next)) && Plain(Loop(body, next), |code|) && s.Valid()
    ensures Agrees(code, State(s, i + 1 + |Flatten(body)|), ev, i + |Flatten(Loop(body, next))|,
      Test(body, next, s, ev))
    decreases |ev|, body, 2
  {
    hide At, Plain, Flatten, Proper, Forward, Backward, Agrees, Defined, Step, Calls, Exec, Iterate;
    Parts(Loop(body, next), |code|);
    AtLoop(code, i, body, next);
    LoopScans(code, i, body, next);
    var b, end := i + 1 + |Flatten(body)|, i + |Flatten(Loop(body, next))|;
    CloseCall(code, i, b, s, ev, end);
    if ev != [] && s.pos < CELLS {
      if s.Cell() == 0 {
        Follows(code, b + 1, next, s, ev[1..]);
        OneCall(code, State(s, b), State(s, b + 1), ev, end, Test(body, next, s, ev));
      } else {
        IterateFollows(code, i, body, next, s, ev[1..]);
        OneCall(code, State(s, b), State(s, i + 1), ev, end, Test(body, next, s, ev));
      }
    }
  }

  lemma CloseCall(code: seq<Char>, i: int, b: int, t: Store, ev: seq<Event>, end: int)
    requires 0 <= b < |code| && code[b] == CLOSE && t.Valid() && Backward(code, b - 1, 0) == Stop(i)
    ensures ev == [] ==> Agrees(code, State(t, b), ev, end, Paused(t))
    ensures ev != [] && t.pos >= CELLS ==> Agrees(code, State(t, b), ev, end, Fault(t, ev))
    ensures ev != [] && t.pos < CELLS ==>
      && Defined(code, State(t, b))
      && Step(code, State(t, b), ev[0]) == (State(t, if t.Cell() == 0 then b + 1 else i + 1), Unfinished)
  {
    hide Forward, Backward;
    if ev != [] && t.pos >= CELLS { assert Stuck(code, State(t, b)); }
  }

  /** A body that is done hands over to what follows from its closing bracket. */
  lemma BodyAgrees(code: seq<Char>, st: State, ev: seq<Event>, b: int, r: Result, end: int, r': Result)
    requires Agrees(code, st, ev, b, r)
    requires if r.Done? then Agrees(code, State(r.s, b), r.rest, end, r') else r' == r
    ensures Agrees(code, st, ev, end, r')
  {
    hide Stuck;
  }

  /** A balanced program runs step for step like its tree; when the tree is done, the machine
      reports success on the next call. */
  lemma RunsLikeItsTree(p: Prog, s: Store, ev: seq<Event>)
    requires Proper(p) && Plain(p, |Flatten(p)|) && s.Valid()
    ensures var run := Calls(Flatten(p), State(s, 0), ev);
      match Exec(p, s, ev)
      case Done(t, rest) =>
        && run == (if rest == [] then Live(State(t, |Flatten(p)|)) else Ended(State(t, |Flatten(p)|)))
        && forall e :: Step(Flatten(p), State(t, |Flatten(p)|), e) == (State(t, |Flatten(p)|), Success)
      case Paused(t) => run.Live? && run.st.store == t
      case Fault(t, rest) => run.Ended? && run.st.store == t && t.pos >= CELLS
  {
    var code := Flatten(p);
    Follows(code, 0, p, s, ev);
    hide Flatten, Plain, Proper;
    var r := Exec(p, s, ev);
    if r.Fault? {
      var o :| Stuck(code, State(r.s, o)) && Calls(code, State(s, 0), ev) == Calls(code, State(r.s, o), r.rest);
    }
  }

  // ---------- brackets without a partner ----------

  /** The closing bracket at `b` closes what is open at `i`. */
  ghost predicate Closes(code: seq<Char>, i: int, b: int) {
    0 <= i <= b < |code| && code[b] == CLOSE && Balanced(code[i..b], 0)
  }

  /** The opening bracket at `a` opens what is closed behind `i`. */
  ghost predicate Opens(code: seq<Char>, a: int, i: int) {
    0 <= a <= i < |code| && code[a] == OPEN && Balanced(code[a + 1..i + 1], 0)
  }

  lemma {:induction false} ForwardFinds(code: seq<Char>, i: nat, b: nat, counter: nat)
    requires InRange(code, |code|) && i <= b < |code| && code[b] == CLOSE && Balanced(code[i..b], counter)
    ensures Forward(code, i, counter) == Stop(b)
    decreases b - i
  {
    if i < b {
      assert code[i..b][1..] == code[i + 1..b] && code[i..b][0] == code[i];
      ForwardFinds(code, i + 1, b, counter + Weight(code[i]));
    } else {
      assert code[i..b] == [];
    }
  }

  lemma {:induction false} ForwardFound(code: seq<Char>, i: nat, counter: nat)
    requires InRange(code, |code|) && i <= |code|
    ensures var r := Forward(code, i, counter);
      r.Stop? && (r.at < |code| ==> code[r.at] == CLOSE && Balanced(code[i..r.at], counter))
    decreases |code| - i
  {
    var r := Forward(code, i, counter);
    if i < r.at {
      ForwardFound(code, i + 1, counter + Weight(code[i]));
      if r.at < |code| { assert code[i..r.at][1..] == code[i + 1..r.at] && code[i..r.at][0] == code[i]; }
    } else if i < |code| {
      assert code[i..i] == [];
    }
  }

  /** A scan forward stops at the partner, which is the only one, and runs to the end if and only if there
      is none. */
  lemma ForwardPartner(code: seq<Char>, i: nat)
    requires InRange(code, |code|) && i <= |code|
    ensures forall b | 0 <= b < |code| :: Forward(code, i, 0) == Stop(b) <==> Closes(code, i, b)
    ensures Forward(code, i, 0) == Stop(|code|) <==> !HasCloser(code, i)
  {
    ForwardFound(code, i, 0);
    forall b | 0 <= b < |code| ensures Forward(code, i, 0) == Stop(b) <==> Closes(code, i, b) {
      if Closes(code, i, b) { ForwardFinds(code, i, b, 0); }
    }
    var r := Forward(code, i, 0);
    if r.at < |code| { assert Closes(code, i, r.at); }
  }

  /** What a text opens more than it closes. */
  function Sum(t: seq<Char>): int { if t == [] then 0 else Weight(t[0]) + Sum(t[1..]) }

  lemma {:induction false} SumSplit(t: seq<Char>, u: seq<Char>)
    ensures Sum(t + u) == Sum(t) + Sum(u)
    decreases |t|
  {
    if t == [] {
      assert t + u == u;
    } else {
      assert (t + u)[1..] == t[1..] + u && (t + u)[0] == t[0];
      SumSplit(t[1..], u);
    }
  }

  lemma {:induction false} BalancedSums(t: seq<Char>, d: nat)
    ensures Balanced(t, d) <==> d + Sum(t) == 0 && forall k | 0 <= k <= |t| :: d + Sum(t[..k]) >= 0
    decreases |t|
  {
    assert t[..|t|] == t && t[..0] == [];
    if t != [] {
      var e := d + Weight(t[0]);
      forall k | 0 < k <= |t| ensures Sum(t[..k]) == Weight(t[0]) + Sum(t[1..][..k - 1]) {
        assert t[..k][1..] == t[1..][..k - 1] && t[..k][0] == t[0];
      }
      if e >= 0 {
        BalancedSums(t[1..], e);
        if forall k | 0 <= k <= |t| :: d + Sum(t[..k]) >= 0 {
          forall k | 0 <= k <= |t[1..]| ensures e + Sum(t[1..][..k]) >= 0 { assert d + Sum(t[..k + 1]) >= 0; }
        }
      } else {
        assert t[..1] == [t[0]] && Sum(t[..1]) == Weight(t[0]);
      }
    }
  }

  function Tally(code: seq<Char>, k: int, j: int): int
    requires 0 <= k <= j <= |code|
  {
    Sum(code[k..j])
  }

  lemma TallyLast(code: seq<Char>, k: nat, j: nat)
    requires k < j <= |code|
    ensures Tally(code, k, j) == Tally(code, k, j - 1) + Weight(code[j - 1])
  {
    assert code[k..j] == code[k..j - 1] + [code[j - 1]];
    SumSplit(code[k..j - 1], [code[j - 1]]);
    assert Sum([code[j - 1]]) == Weight(code[j - 1]) + Sum([]);
  }

  lemma TallyNone(code: seq<Char>, j: nat)
    requires j <= |code|
    ensures Tally(code, j, j) == 0
  {
    assert code[j..j] == [];
  }

  /** A scan backward over the characters between `a` and `j` never counts below 0. */
  ghost predicate NeverBelow(code: seq<Char>, a: int, j: int, counter: int) {
    -1 <= a < j <= |code| && forall k | a < k <= j :: counter - Tally(code, k, j) >= 0
  }

  lemma NeverBelowLess(code: seq<Char>, a: int, j: int, counter: nat)
    requires -1 <= a < j - 1 && j <= |code|
    ensures var e := counter - Weight(code[j - 1]);
      NeverBelow(code, a, j, counter) <==> e >= 0 && NeverBelow(code, a, j - 1, e)
  {
    var e := counter - Weight(code[j - 1]);
    TallyNone(code, j);
    TallyNone(code, j - 1);
    TallyLast(code, j - 1, j);
    forall k | a < k < j ensures counter - Tally(code, k, j) == e - Tally(code, k, j - 1) { TallyLast(code, k, j); }
    hide Tally;
    if NeverBelow(code, a, j, counter) {
      assert counter - Tally(code, j - 1, j) >= 0;
      var i := j - 1;
      forall k | a < k <= i ensures e - Tally(code, k, i) >= 0 { assert counter - Tally(code, k, j) >= 0; }
    }
    if e >= 0 && NeverBelow(code, a, j - 1, e) {
      forall k | a < k <= j ensures counter - Tally(code, k, j) >= 0 {
        if k < j { assert e - Tally(code, k, j - 1) >= 0; }
      }
    }
  }

  lemma {:induction false} BackwardFinds(code: seq<Char>, a: int, i: int, counter: nat)
    requires InRange(code, |code|) && 0 <= a && NeverBelow(code, a, i + 1, counter) && code[a] == OPEN
    requires counter == Tally(code, a + 1, i + 1)
    ensures Backward(code, i, counter) == Stop(a)
    decreases i - a
  {
    if a < i {
      NeverBelowLess(code, a, i + 1, counter);
      TallyLast(code, a + 1, i + 1);
      BackwardFinds(code, a, i - 1, counter - Weight(code[i]));
    }
  }

  lemma {:induction false} BackwardFound(code: seq<Char>, i: int, counter: nat)
    requires InRange(code, |code|) && -1 <= i < |code|
    ensures var r := Backward(code, i, counter);
      r.Stop? && NeverBelow(code, r.at, i + 1, counter)
      && (r.at >= 0 ==> code[r.at] == OPEN && counter == Tally(code, r.at + 1, i + 1))
    decreases i + 1
  {
    hide Backward, Tally, NeverBelow, InRange;
    if i < 0 || (code[i] == OPEN && counter <= 0) {
      BackwardStops(code, i, counter);
    } else {
      var e := counter - Weight(code[i]);
      CharIn(code, i);
      BackwardStep(code, i, counter);
      BackwardFound(code, i - 1, e);
      var at := Backward(code, i, counter).at;
      NeverBelowLess(code, at, i + 1, counter);
      TallyLast(code, at + 1, i + 1);
    }
  }

  lemma CharIn(t: seq<Char>, i: nat)
    requires InRange(t, |t|) && i < |t|
    ensures 0 <= t[i] < |t|
  {
  }

  lemma BackwardStops(code: seq<Char>, i: int, counter: nat)
    requires -1 <= i < |code| && (i < 0 || (code[i] == OPEN && counter <= 0))
    ensures Backward(code, i, counter) == Stop(i) && NeverBelow(code, i, i + 1, counter) &&
      Tally(code, i + 1, i + 1) == 0
  {
    TallyNone(code, i + 1);
    hide Tally;
  }

  /** Balanced text, read from its end. */
  lemma OpensIs(code: seq<Char>, a: int, i: int)
    requires 0 <= a <= i < |code|
    ensures Opens(code, a, i) <==> code[a] == OPEN && Tally(code, a + 1, i + 1) == 0 && NeverBelow(code, a, i + 1, 0)
  {
    var t := code[a + 1..i + 1];
    BalancedSums(t, 0);
    forall k | 0 <= k <= |t| ensures Sum(t) == Sum(t[..k]) + Tally(code, a + 1 + k, i + 1) {
      assert t == t[..k] + t[k..] && t[k..] == code[a + 1 + k..i + 1];
      SumSplit(t[..k], t[k..]);
    }
    if Sum(t) == 0 && NeverBelow(code, a, i + 1, 0) {
      forall k | 0 <= k <= |t| ensures Sum(t[..k]) >= 0 { assert 0 - Tally(code, a + 1 + k, i + 1) >= 0; }
    }
    if Opens(code, a, i) {
      var j := i + 1;
      forall k | a < k <= j ensures 0 - Tally(code, k, j) >= 0 {
        assert 0 + Sum(t[..k - a - 1]) >= 0;
        assert a + 1 + (k - a - 1) == k;
      }
    }
  }

  ghost predicate HasCloser(code: seq<Char>, i: int) { exists b :: Closes(code, i, b) }

  ghost predicate HasOpener(code: seq<Char>, i: int) { exists a :: Opens(code, a, i) }

  /** A scan backward stops at the partner, which is the only one, and runs off the front if and only if
      there is none. */
  lemma BackwardPartner(code: seq<Char>, i: int)
    requires InRange(code, |code|) && -1 <= i < |code|
    ensures forall a | 0 <= a < |code| :: Backward(code, i, 0) == Stop(a) <==> Opens(code, a, i)
    ensures Backward(code, i, 0) == Stop(-1) <==> !HasOpener(code, i)
  {
    BackwardFound(code, i, 0);
    forall a | 0 <= a < |code| ensures Backward(code, i, 0) == Stop(a) <==> Opens(code, a, i) {
      if a <= i {
        OpensIs(code, a, i);
        if Opens(code, a, i) { BackwardFinds(code, a, i, 0); }
      }
    }
    var r := Backward(code, i, 0);
    if r.at >= 0 { assert Opens(code, r.at, i); }
  }

  /** On a text without characters that the scans take for a mismatch, no call ever reports one, however
      the brackets stand. */
  lemma NeverUnmatched(code: seq<Char>, st: State, e: Event)
    requires InRange(code, |code|) && Defined(code, st) && st.off >= 0
    ensures Step(code, st, e).1 != UnmatchedPair && Step(code, st, e).0.off >= 0
  {
    if st.off < |code| {
      ForwardFound(code, st.off + 1, 0);
      BackwardFound(code, st.off - 1, 0);
    }
  }

  /** Over a 0 cell an opening bracket without a partner, and no other, ends the run as a success; over
      a nonzero cell a closing one without a partner, and no other, starts the text again. */
  lemma PartnerlessBrackets(code: seq<Char>, st: State, e: Event)
    requires InRange(code, |code|) && st.store.Valid() && st.store.pos < CELLS && 0 <= st.off < |code|
    ensures code[st.off] == OPEN && st.store.Cell() == 0 ==>
      (Step(code, st, e) == (State(st.store, |code| + 1), Unfinished)
       <==> !HasCloser(code, st.off + 1))
    ensures code[st.off] == CLOSE && st.store.Cell() != 0 ==>
      (Step(code, st, e) == (State(st.store, 0), Unfinished)
       <==> !HasOpener(code, st.off - 1))
    ensures Step(code, State(st.store, |code| + 1), e) == (State(st.store, |code| + 1), Success)
  {
    hide Forward, Backward, InRange, HasCloser, HasOpener, Balanced, NeverBelow, Tally;
    ForwardPartner(code, st.off + 1);
    BackwardPartner(code, st.off - 1);
    ForwardFound(code, st.off + 1, 0);
    BackwardFound(code, st.off - 1, 0);
  }

  /** A text buffer with nothing but `[` succeeds, and one with `+]` is back at its start after two calls. */
  lemma LonelyBrackets(s: Store, ev: seq<Event>)
    requires s.Valid() && s.pos < CELLS
    ensures var code: seq<Char> := [OPEN] + seq<Char>(511, i => 0);
      s.Cell() == 0 && |ev| >= 2 ==> Calls(code, State(s, 0), ev) == Ended(State(s, 513))
    ensures var code: seq<Char> := [PLUS, CLOSE] + seq<Char>(510, i => 0);
      s.Cell() < 255 && |ev| == 2 ==> Calls(code, State(s, 0), ev) == Live(State(s.Put(s.Cell() + 1), 0))
  {
    var one: seq<Char> := [OPEN] + seq<Char>(511, i => 0);
    var two: seq<Char> := [PLUS, CLOSE] + seq<Char>(510, i => 0);
    if s.Cell() == 0 && |ev| >= 2 {
      forall b | 0 <= b < |one| ensures !Closes(one, 1, b) { assert one[b] != CLOSE; }
      PartnerlessBrackets(one, State(s, 0), ev[0]);
      hide Forward, Backward;
      assert Calls(one, State(s, 0), ev) == Calls(one, State(s, 513), ev[1..]);
    }
    if s.Cell() < 255 && |ev| == 2 {
      forall a | 0 <= a < |two| ensures !Opens(two, a, 0) { assert two[a] != OPEN; }
      var t := s.Put(s.Cell() + 1);
      PartnerlessBrackets(two, State(t, 1), ev[1]);
      hide Forward, Backward;
      assert Calls(two, State(s, 0), ev) == Calls(two, State(t, 1), ev[1..]);
      assert Calls(two, State(t, 1), ev[1..]) == Calls(two, State(t, 0), ev[1..][1..]);
    }
  }

  // ---------- what programs do ----------

  /** The character codes of a text. */
  function Text(t: string): (r: seq<Char>)
    requires forall i | 0 <= i < |t| :: t[i] as int < 128
    ensures |r| == |t| && forall i | 0 <= i < |t| :: r[i] == t[i] as int
  {
    seq(|t|, i requires 0 <= i < |t| => t[i] as int)
  }

  /** The cell under the pointer. */
  function Here(s: Store): int
    requires s.Valid() && s.pos < CELLS
  {
    s.mem[s.pos]
  }

  /** The cell right of it. */
  function Beside(s: Store): int
    requires s.Valid() && s.pos + 1 < CELLS
  {
    s.mem[s.pos + 1]
  }

  /** `v` modulo 256 in the cell under the pointer. */
  function With(s: Store, v: int): (t: Store)
    requires s.Valid() && s.pos < CELLS
    ensures t.Valid() && t.pos == s.pos && Here(t) == v % 256
  {
    s.(mem := s.mem[s.pos := v % 256])
  }

  lemma WithTwice(s: Store, v: int, w: int)
    requires s.Valid() && s.pos < CELLS
    ensures With(With(s, v), w) == With(s, w) && With(s, Here(s)) == s && With(s, v % 256) == With(s, v)
    ensures With(s, 0) == s.(mem := s.mem[s.pos := 0])
  {
  }

  function Cleared(): (s: Store)
    ensures s.Valid()
  {
    Store(seq<Byte>(300, i => 0), 0, [])
  }

  lemma DropTwice<T>(s: seq<T>, a: nat, b: nat)
    requires a + b <= |s|
    ensures s[a..][b..] == s[a + b..]
  {
  }

  /** One call of a machine that goes on. */
  lemma Goes(code: seq<Char>, st: State, ev: seq<Event>, st': State)
    requires ev != [] && Defined(code, st) && Step(code, st, ev[0]) == (st', Unfinished)
    ensures Calls(code, st, ev) == Calls(code, st', ev[1..])
  {
    hide Step, Defined;
  }

  /** A call at a character other than a bracket or `,`. */
  lemma GoesPlain(code: seq<Char>, i: nat, s: Store, ev: seq<Event>)
    requires i < |code| && s.Valid() && s.pos < CELLS && ev != []
    requires code[i] in {PLUS, MINUS, RIGHT, LEFT, DOT}
    ensures Calls(code, State(s, i), ev) == Calls(code, State(Effect(code[i], s, ev[0]), i + 1), ev[1..])
  {
    hide Calls, Forward, Backward, Effect;
    Goes(code, State(s, i), ev, State(Effect(code[i], s, ev[0]), i + 1));
  }

  lemma Counts(s: Store, e: Event)
    requires s.Valid() && s.pos < CELLS
    ensures Effect('+' as int, s, e) == With(s, Here(s) + 1) && Effect('-' as int, s, e) == With(s, Here(s) - 1)
  {
    var v := Here(s);
    assert (v + 255) % 256 == (v - 1) % 256;
  }

  lemma Moves(s: Store, e: Event)
    requires s.Valid() && s.pos < CELLS
    ensures Effect('>' as int, s, e) == s.(pos := s.pos + 1)
    ensures s.pos > 0 ==> Effect('<' as int, s, e) == s.(pos := s.pos - 1)
  {
    if s.pos > 0 { assert (s.pos + WORDS - 1) % WORDS == s.pos - 1; }
  }

  lemma Prints(s: Store, e: Event)
    requires s.Valid() && s.pos < CELLS
    ensures Effect('.' as int, s, e) == s.(out := s.out + [s.mem[s.pos]])
  {
  }

  /** `+` counts up modulo 256. */
  lemma OnePlus(code: seq<Char>, i: nat, s: Store, ev: seq<Event>)
    requires i < |code| && code[i] == '+' as int && s.Valid() && s.pos < CELLS && ev != []
    ensures Calls(code, State(s, i), ev) == Calls(code, State(With(s, Here(s) + 1), i + 1), ev[1..])
  {
    hide Calls, Step, Effect, With;
    Counts(s, ev[0]);
    GoesPlain(code, i, s, ev);
  }

  /** `-` counts down modulo 256. */
  lemma OneMinus(code: seq<Char>, i: nat, s: Store, ev: seq<Event>)
    requires i < |code| && code[i] == '-' as int && s.Valid() && s.pos < CELLS && ev != []
    ensures Calls(code, State(s, i), ev) == Calls(code, State(With(s, Here(s) - 1), i + 1), ev[1..])
  {
    hide Calls, Step, Effect, With;
    Counts(s, ev[0]);
    GoesPlain(code, i, s, ev);
  }

  /** `>` moves to the right neighbour. */
  lemma OneRight(code: seq<Char>, i: nat, s: Store, ev: seq<Event>)
    requires i < |code| && code[i] == '>' as int && s.Valid() && s.pos < CELLS && ev != []
    ensures Calls(code, State(s, i), ev) == Calls(code, State(s.(pos := s.pos + 1), i + 1), ev[1..])
  {
    hide Calls, Step, Effect, With;
    Moves(s, ev[0]);
    GoesPlain(code, i, s, ev);
  }

  /** `<` moves to the left neighbour. */
  lemma OneLeft(code: seq<Char>, i: nat, s: Store, ev: seq<Event>)
    requires i < |code| && code[i] == '<' as int && s.Valid() && 0 < s.pos < CELLS && ev != []
    ensures Calls(code, State(s, i), ev) == Calls(code, State(s.(pos := s.pos - 1), i + 1), ev[1..])
  {
    hide Calls, Step, Effect, With;
    Moves(s, ev[0]);
    GoesPlain(code, i, s, ev);
  }

  /** `.` prints the cell. */
  lemma OneDot(code: seq<Char>, i: nat, s: Store, ev: seq<Event>)
    requires i < |code| && code[i] == '.' as int && s.Valid() && s.pos < CELLS && ev != []
    ensures Calls(code, State(s, i), ev) == Calls(code, State(s.(out := s.out + [s.mem[s.pos]]), i + 1), ev[1..])
  {
    hide Calls, Step, Effect, With;
    Prints(s, ev[0]);
    GoesPlain(code, i, s, ev);
  }

  /** The test at either end of a loop, when the scans find the other end. */
  lemma OneTest(code: seq<Char>, i: nat, b: nat, s: Store, ev: seq<Event>)
    requires i < b < |code| && s.Valid() && s.pos < CELLS && ev != [] && code[i] == '[' as int && code[b] == ']' as int
    requires Forward(code, i + 1, 0) == Stop(b) && Backward(code, b - 1, 0) == Stop(i)
    ensures var to := if Here(s) == 0 then b + 1 else i + 1;
      && Calls(code, State(s, i), ev) == Calls(code, State(s, to), ev[1..])
      && Calls(code, State(s, b), ev) == Calls(code, State(s, to), ev[1..])
  {
    hide Calls, Step;
    var to := if Here(s) == 0 then b + 1 else i + 1;
    OpenCall(code, i, b, s, ev, 0);
    CloseCall(code, i, b, s, ev, 0);
    Goes(code, State(s, i), ev, State(s, to));
    Goes(code, State(s, b), ev, State(s, to));
  }

  /** The text `t` stands at place `i`. */
  ghost predicate Stands(code: seq<Char>, i: int, t: string) {
    0 <= i && i + |t| <= |code| && forall k | 0 <= k < |t| :: code[i + k] == t[k] as int
  }

  lemma ClearScans(code: seq<Char>, i: nat)
    requires Stands(code, i, "[-]") && |code| >= 128
    ensures i + 3 <= |code|
    ensures code[i] == '[' as int && code[i + 1] == '-' as int && code[i + 2] == ']' as int
    ensures Forward(code, i + 1, 0) == Stop(i + 2) && Backward(code, i + 1, 0) == Stop(i)
  {
    var t := "[-]";
    assert code[i + 0] == t[0] as int && code[i + 1] == t[1] as int && code[i + 2] == t[2] as int;
    hide Forward, Backward;
    ForwardStep(code, i + 1, 0);
    BackwardStep(code, i + 1, 0);
    StopsHere(code, i, i + 2);
  }

  lemma {:induction false} ClearRounds(code: seq<Char>, i: nat, s: Store, ev: seq<Event>)
    requires Stands(code, i, "[-]") && |code| >= 128 && s.Valid() && s.pos < CELLS
    requires Here(s) > 0 && |ev| >= 2 * Here(s)
    ensures Calls(code, State(s, i + 1), ev) == Calls(code, State(With(s, 0), i + 3), ev[2 * Here(s)..])
    decreases Here(s)
  {
    hide Calls, Forward, Backward, Stands, With, Step, Effect;
    ClearScans(code, i);
    var v := Here(s);
    var t := With(s, v - 1);
    OneMinus(code, i + 1, s, ev);
    OneTest(code, i, i + 2, t, ev[1..]);
    DropTwice(ev, 1, 1);
    WithTwice(s, v - 1, 0);
    if v > 1 {
      ClearRounds(code, i, t, ev[2..]);
      DropTwice(ev, 2, 2 * (v - 1));
    }
  }

  /** `[-]` ends with the cell 0 and all else as it was. */
  lemma Clears(code: seq<Char>, i: nat, s: Store, ev: seq<Event>)
    requires Stands(code, i, "[-]") && |code| >= 128 && s.Valid() && s.pos < CELLS
    requires |ev| >= 1 + 2 * Here(s)
    ensures Calls(code, State(s, i), ev) ==
      Calls(code, State(s.(mem := s.mem[s.pos := 0]), i + 3), ev[1 + 2 * Here(s)..])
  {
    hide Calls, Stands, With;
    WithTwice(s, 0, 0);
    ClearsAll(code, i, s, ev);
  }

  lemma ClearsAll(code: seq<Char>, i: nat, s: Store, ev: seq<Event>)
    requires Stands(code, i, "[-]") && |code| >= 128 && s.Valid() && s.pos < CELLS
    requires |ev| >= 1 + 2 * Here(s)
    ensures Calls(code, State(s, i), ev) == Calls(code, State(With(s, 0), i + 3), ev[1 + 2 * Here(s)..])
  {
    hide Calls, Forward, Backward, Stands, Step, Effect, With;
    ClearScans(code, i);
    OneTest(code, i, i + 2, s, ev);
    if Here(s) == 0 {
      WithTwice(s, 0, 0);
    } else {
      ClearRounds(code, i, s, ev[1..]);
      DropTwice(ev, 1, 2 * Here(s));
    }
  }

  lemma AddScans(code: seq<Char>, i: nat)
    requires Stands(code, i, "[->+<]") && |code| >= 128
    ensures i + 6 <= |code| && code[i] == '[' as int && code[i + 1] == '-' as int && code[i + 2] == '>' as int
    ensures code[i + 3] == '+' as int && code[i + 4] == '<' as int && code[i + 5] == ']' as int
    ensures Forward(code, i + 1, 0) == Stop(i + 5) && Backward(code, i + 4, 0) == Stop(i)
  {
    var t := "[->+<]";
    assert code[i + 0] == t[0] as int && code[i + 1] == t[1] as int && code[i + 2] == t[2] as int;
    assert code[i + 3] == t[3] as int && code[i + 4] == t[4] as int && code[i + 5] == t[5] as int;
    hide Forward, Backward, Stands;
    ForwardStep(code, i + 1, 0);
    ForwardStep(code, i + 2, 0);
    ForwardStep(code, i + 3, 0);
    ForwardStep(code, i + 4, 0);
    BackwardStep(code, i + 4, 0);
    BackwardStep(code, i + 3, 0);
    BackwardStep(code, i + 2, 0);
    BackwardStep(code, i + 1, 0);
    StopsHere(code, i, i + 5);
  }

  /** `v` less in a cell and `v` more in its right neighbour. */
  function Shifted(s: Store, v: nat): (t: Store)
    requires s.Valid() && s.pos + 1 < CELLS && v <= Here(s)
    ensures t.Valid() && t.pos == s.pos && Here(t) == Here(s) - v
  {
    s.(mem := s.mem[s.pos := (Here(s) - v) % 256][s.pos + 1 := (Beside(s) + v) % 256])
  }

  lemma RestAdds(v: int, m: int)
    ensures (v % 256 + m) % 256 == (v + m) % 256
  {
  }

  lemma ShiftedTwice(s: Store, u: nat, v: nat)
    requires s.Valid() && s.pos + 1 < CELLS && u + v <= Here(s)
    ensures Shifted(Shifted(s, u), v) == Shifted(s, u + v)
  {
    var t, i, j := Shifted(s, u), s.pos, s.pos + 1;
    RestAdds(Beside(s) + u, v);
    UpdateTwice(s.mem, i, j, (Here(s) - u) % 256, (Beside(s) + u) % 256, (Here(s) - u - v) % 256,
      (Beside(s) + u + v) % 256);
  }

  lemma UpdateTwice<T>(s: seq<T>, i: nat, j: nat, a: T, b: T, c: T, d: T)
    requires i < j < |s|
    ensures s[i := a][j := b][i := c][j := d] == s[i := c][j := d]
  {
  }

  lemma ShiftedOne(s: Store)
    requires s.Valid() && s.pos + 1 < CELLS && Here(s) > 0
    ensures var t := With(s, Here(s) - 1).(pos := s.pos + 1);
      t.Valid() && With(t, Here(t) + 1).(pos := s.pos) == Shifted(s, 1)
  {
  }

  lemma ShiftedAll(s: Store)
    requires s.Valid() && s.pos + 1 < CELLS
    ensures Shifted(s, Here(s)) == s.(mem := s.mem[s.pos := 0][s.pos + 1 := (Beside(s) + Here(s)) % 256])
  {
  }

  lemma ShiftedNone(s: Store)
    requires s.Valid() && s.pos + 1 < CELLS
    ensures Shifted(s, 0) == s
  {
  }

  /** A cell one less and a step right; a cell one more and a step left. */
  lemma AddHalves(code: seq<Char>, i: nat, s: Store, ev: seq<Event>)
    requires Stands(code, i, "[->+<]") && s.Valid() && s.pos < CELLS && |ev| >= 2
    ensures Calls(code, State(s, i + 1), ev) ==
      Calls(code, State(With(s, Here(s) - 1).(pos := s.pos + 1), i + 3), ev[2..])
    ensures s.pos > 0 ==>
      Calls(code, State(s, i + 3), ev) == Calls(code, State(With(s, Here(s) + 1).(pos := s.pos - 1), i + 5), ev[2..])
  {
    hide Calls, Step, Effect, With;
    assert code[i + 1] == "[->+<]"[1] as int && code[i + 2] == "[->+<]"[2] as int;
    assert code[i + 3] == "[->+<]"[3] as int && code[i + 4] == "[->+<]"[4] as int;
    hide Stands;
    OneMinus(code, i + 1, s, ev);
    OneRight(code, i + 2, With(s, Here(s) - 1), ev[1..]);
    OnePlus(code, i + 3, s, ev);
    if s.pos > 0 { OneLeft(code, i + 4, With(s, Here(s) + 1), ev[1..]); }
    DropTwice(ev, 1, 1);
  }

  /** The body of the loop. */
  lemma AddBody(code: seq<Char>, i: nat, s: Store, ev: seq<Event>)
    requires Stands(code, i, "[->+<]") && s.Valid() && s.pos + 1 < CELLS && Here(s) > 0 && |ev| >= 4
    ensures Calls(code, State(s, i + 1), ev) == Calls(code, State(Shifted(s, 1), i + 5), ev[4..])
  {
    hide Calls, Stands, With, Shifted;
    ShiftedOne(s);
    AddHalves(code, i, s, ev);
    AddHalves(code, i, With(s, Here(s) - 1).(pos := s.pos + 1), ev[2..]);
    DropTwice(ev, 2, 2);
  }

  /** One round of the loop. */
  lemma AddRound(code: seq<Char>, i: nat, s: Store, ev: seq<Event>)
    requires Stands(code, i, "[->+<]") && |code| >= 128
    requires s.Valid() && s.pos + 1 < CELLS && Here(s) > 0 && |ev| >= 5
    ensures Calls(code, State(s, i + 1), ev) ==
      Calls(code, State(Shifted(s, 1), if Here(s) == 1 then i + 6 else i + 1), ev[5..])
  {
    hide Calls, Forward, Backward, Stands, Shifted;
    AddScans(code, i);
    AddBody(code, i, s, ev);
    OneTest(code, i, i + 5, Shifted(s, 1), ev[4..]);
    DropTwice(ev, 4, 1);
  }

  lemma {:induction false} AddRounds(code: seq<Char>, i: nat, s: Store, ev: seq<Event>)
    requires Stands(code, i, "[->+<]") && |code| >= 128
    requires s.Valid() && s.pos + 1 < CELLS && Here(s) > 0 && |ev| >= 5 * Here(s)
    ensures Calls(code, State(s, i + 1), ev) == Calls(code, State(Shifted(s, Here(s)), i + 6), ev[5 * Here(s)..])
    decreases Here(s)
  {
    hide Calls, Stands, Shifted;
    var v, t := Here(s), Shifted(s, 1);
    AddRound(code, i, s, ev);
    if v > 1 {
      AddRounds(code, i, t, ev[5..]);
      DropTwice(ev, 5, 5 * (v - 1));
      ShiftedTwice(s, 1, v - 1);
    }
  }

  /** `[->+<]` adds the cell to its right neighbour, modulo 256, and clears it. */
  lemma Adds(code: seq<Char>, i: nat, s: Store, ev: seq<Event>)
    requires Stands(code, i, "[->+<]") && |code| >= 128
    requires s.Valid() && s.pos + 1 < CELLS && |ev| >= 1 + 5 * Here(s)
    ensures var mem := s.mem[s.pos := 0][s.pos + 1 := (Beside(s) + Here(s)) % 256];
      Calls(code, State(s, i), ev) == Calls(code, State(s.(mem := mem), i + 6), ev[1 + 5 * Here(s)..])
  {
    hide Calls, Stands, Shifted, Beside;
    ShiftedAll(s);
    AddsAll(code, i, s, ev);
  }

  lemma AddsAll(code: seq<Char>, i: nat, s: Store, ev: seq<Event>)
    requires Stands(code, i, "[->+<]") && |code| >= 128
    requires s.Valid() && s.pos + 1 < CELLS && |ev| >= 1 + 5 * Here(s)
    ensures Calls(code, State(s, i), ev) == Calls(code, State(Shifted(s, Here(s)), i + 6), ev[1 + 5 * Here(s)..])
  {
    hide Calls, Forward, Backward, Stands, Step, Effect, Shifted;
    AddScans(code, i);
    OneTest(code, i, i + 5, s, ev);
    if Here(s) == 0 {
      ShiftedNone(s);
    } else {
      AddRounds(code, i, s, ev[1..]);
      DropTwice(ev, 1, 5 * Here(s));
    }
  }

  /** `,` waits for a key and stores it, `.` prints it. */
  lemma {:induction false} Echoes(code: seq<Char>, i: nat, s: Store, waits: nat, c: Char, e: Event, rest: seq<Event>)
    requires Stands(code, i, ",.") && s.Valid() && s.pos < CELLS
    ensures var ev := seq<Event>(waits, j => NoKey) + [Key(c), e] + rest;
      Calls(code, State(s, i), ev) == Calls(code, State(With(s, c).(out := s.out + [c % 256]), i + 2), rest)
    decreases waits
  {
    var t, ev := ",.", seq<Event>(waits, j => NoKey) + [Key(c), e] + rest;
    assert code[i + 0] == t[0] as int && code[i + 1] == t[1] as int;
    hide Forward, Backward, Stands, Calls;
    if waits == 0 {
      var s1 := With(s, c);
      Goes(code, State(s, i), ev, State(s1, i + 1));
      assert ev[1..] == [e] + rest;
      OneDot(code, i + 1, s1, ev[1..]);
      assert ev[1..][1..] == rest;
    } else {
      Echoes(code, i, s, waits - 1, c, e, rest);
      assert ev[1..] == seq<Event>(waits - 1, j => NoKey) + [Key(c), e] + rest;
      WaitsOnce(code, i, s, ev);
    }
  }

  /** Without a key `,` asks again. */
  lemma WaitsOnce(code: seq<Char>, i: nat, s: Store, ev: seq<Event>)
    requires i < |code| && code[i] == ',' as int && s.Valid() && s.pos < CELLS && ev != [] && ev[0].NoKey?
    ensures Calls(code, State(s, i), ev) == Calls(code, State(s, i), ev[1..])
  {
    hide Forward, Backward, Effect;
  }

  /** Any other character does nothing, on any cell and on the place behind the last one. */
  lemma Ignored(code: seq<Char>, i: nat, s: Store, ev: seq<Event>)
    requires i < |code| && s.Valid() && s.pos <= CELLS && ev != []
    requires forall k | 0 <= k < 8 :: code[i] != "+-<>.,[]"[k] as int
    ensures Calls(code, State(s, i), ev) == Calls(code, State(s, i + 1), ev[1..])
  {
    hide Forward, Backward, Calls;
    var t := "+-<>.,[]";
    assert code[i] != t[0] as int && code[i] != t[1] as int && code[i] != t[2] as int && code[i] != t[3] as int;
    assert code[i] != t[4] as int && code[i] != t[5] as int && code[i] != t[6] as int && code[i] != t[7] as int;
    Goes(code, State(s, i), ev, State(s, i + 1));
  }

  /** Left of the first cell, and two places behind the last one, the next call reports out of bounds. */
  lemma LeavesMemory(code: seq<Char>, i: nat, s: Store, ev: seq<Event>, e: Event)
    requires i + 1 < |code| && s.Valid() && |ev| >= 2
    requires (code[i] == '<' as int && s.pos == 0) || (code[i] == '>' as int && s.pos == CELLS)
    ensures var st := State(s.(pos := if s.pos == 0 then 0xFFFF_FFFF else 301), i + 1);
      Calls(code, State(s, i), ev) == Ended(st) && Step(code, st, e) == (st, OutOfBounds)
  {
    hide Forward, Backward, Calls;
    var st := State(s.(pos := if s.pos == 0 then 0xFFFF_FFFF else 301), i + 1);
    Goes(code, State(s, i), ev, st);
    EndsOutside(code, st, ev[1..], e);
  }

  lemma EndsOutside(code: seq<Char>, st: State, ev: seq<Event>, e: Event)
    requires 0 <= st.off < |code| && st.store.Valid() && st.store.pos > CELLS && ev != []
    ensures Calls(code, st, ev) == Ended(st) && Step(code, st, e) == (st, OutOfBounds)
  {
    hide Forward, Backward, Effect;
  }

  lemma {:induction false} MovesRight(code: seq<Char>, i: nat, n: nat, s: Store, ev: seq<Event>)
    requires i + n <= |code| && (forall k | i <= k < i + n :: code[k] == '>' as int)
    requires s.Valid() && s.pos + n <= CELLS && |ev| >= n
    ensures Calls(code, State(s, i), ev) == Calls(code, State(s.(pos := s.pos + n), i + n), ev[n..])
    decreases n
  {
    hide Calls, Step, Effect;
    if n > 0 {
      OneRight(code, i, s, ev);
      MovesRight(code, i + 1, n - 1, s.(pos := s.pos + 1), ev[1..]);
      DropTwice(ev, 1, n - 1);
    } else {
      assert ev[0..] == ev;
    }
  }

  lemma {:induction false} CountsUp(code: seq<Char>, i: nat, m: nat, s: Store, ev: seq<Event>)
    requires i + m <= |code| && (forall k | i <= k < i + m :: code[k] == '+' as int)
    requires s.Valid() && s.pos < CELLS && |ev| >= m
    ensures Calls(code, State(s, i), ev) == Calls(code, State(With(s, Here(s) + m), i + m), ev[m..])
    decreases m
  {
    hide Calls, Step, Effect, With;
    var v := Here(s);
    if m > 0 {
      var t := With(s, v + 1);
      OnePlus(code, i, s, ev);
      CountsUp(code, i + 1, m - 1, t, ev[1..]);
      DropTwice(ev, 1, m - 1);
      WithTwice(s, v + 1, Here(t) + (m - 1));
      WithTwice(s, Here(t) + (m - 1), 0);
      WithTwice(s, v + m, 0);
      RestAdds(v + 1, m - 1);
    } else {
      WithTwice(s, 0, 0);
      assert ev[0..] == ev;
    }
  }

  /** From a cleared machine, `n` times `>` and `m` times `+` leave `m` modulo 256 in cell `n` and 0 elsewhere. */
  lemma SetsCell(n: nat, m: nat, ev: seq<Event>, e: Event)
    requires n < CELLS && |ev| == n + m
    ensures var code := Text(seq(n, i => '>') + seq(m, i => '+'));
      var st := State(Store(seq<Byte>(300, i => if i == n then m % 256 else 0), n, []), n + m);
      Calls(code, State(Cleared(), 0), ev) == Live(st) && Step(code, st, e) == (st, Success)
  {
    hide Step, Effect;
    var code, s := Text(seq(n, i => '>') + seq(m, i => '+')), Cleared();
    MovesRight(code, 0, n, s, ev);
    var t := s.(pos := n);
    CountsUp(code, n, m, t, ev[n..]);
    DropTwice(ev, n, m);
    assert ev[n + m..] == [];
    var cells := seq<Byte>(300, i => if i == n then m % 256 else 0);
    assert With(t, Here(t) + m).mem == cells;
    AtTheEnd(code, State(Store(cells, n, []), n + m), e);
  }

  lemma AtTheEnd(code: seq<Char>, st: State, e: Event)
    requires st.off == |code| && st.store.Valid()
    ensures Step(code, st, e) == (st, Success)
  {
  }
}
