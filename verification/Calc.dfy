/**
 The calculator: infix text is compiled to postfix code with a stack of operators, and the code
 runs on a stack of numbers. Numbers, their parsing and their arithmetic are left open.
 */
module Calc {
  import opened Chars
  import opened Options

  const STACK_SIZE := 100
  const NUMBER_SIZE := 50

  datatype Operation = Add | Sub | Mul | Div | Mod

  datatype Instr<N> = BracketOpen | Operator(op: Operation) | Constant(value: N)

  datatype Error = ResultFull | StackFull | InvalidNumber | InvalidCharacter

  /** Compiled, refused, or a write outside one of the arrays. */
  datatype Parsed<N> = Code(code: seq<Instr<N>>) | Failed(error: Error) | Overrun

  predicate InNumber(c: char) { IsDigit(c) || c == '.' }

  /** Precedence of a character; it knows one operator that the calculator does not have. */
  function CharPrecedence(c: char): int {
    if c == '^' then 3
    else if c == '/' || c == '*' || c == '%' then 2
    else if c == '+' || c == '-' then 1
    else -1
  }

  function Precedence<N>(i: Instr<N>): int { if i.Operator? then Level(i.op) else -1 }

  function Level(op: Operation): int { if op == Add || op == Sub then 1 else 2 }

  function OperationOf(c: char): Option<Operation> {
    if c == '+' then Some(Add)
    else if c == '-' then Some(Sub)
    else if c == '*' then Some(Mul)
    else if c == '/' then Some(Div)
    else if c == '%' then Some(Mod)
    else None
  }

  function CharOf(op: Operation): (c: char)
    ensures OperationOf(c) == Some(op) && CharPrecedence(c) == Level(op)
    ensures !InNumber(c) && c !in {' ', '(', ')', '\0'}
  {
    match op
    case Add => '+'
    case Sub => '-'
    case Mul => '*'
    case Div => '/'
    case Mod => '%'
  }

  // ---------- the compiler as a function ----------

  /** Code so far and the operator stack; `under` counts closing brackets taken off an empty stack. */
  datatype PState<N> = PState(out: seq<Instr<N>>, stack: seq<Instr<N>>, under: nat)
  {
    ghost predicate Valid() { under > 0 ==> stack == [] }
  }

  datatype NumberScan = Number(len: nat) | TwoDots | TooLong

  /** The number at the start of `t`, after `n` characters of it with or without a point. */
  function ScanNumber(t: seq<char>, n: nat, dot: bool): (r: NumberScan)
    ensures r.Number? ==> n <= r.len <= n + |t| && r.len < NUMBER_SIZE
    ensures r.Number? && t != [] && InNumber(t[0]) ==> n < r.len
    decreases |t|
  {
    if t == [] || !InNumber(t[0]) then if n >= NUMBER_SIZE then TooLong else Number(n)
    else if t[0] == '.' && dot then TwoDots
    else if n >= NUMBER_SIZE then TooLong
    else ScanNumber(t[1..], n + 1, dot || t[0] == '.')
  }

  /** Moves operators that bind at least as tightly as `p` from the stack to the code. */
  function PopOps<N>(st: PState<N>, p: int): (r: PState<N>)
    ensures |r.out| >= |st.out| && |r.stack| <= |st.stack| && r.under == st.under && (st.Valid() ==> r.Valid())
    decreases |st.stack|
  {
    if st.stack != [] && p <= Precedence(st.stack[|st.stack| - 1])
    then PopOps(st.(out := st.out + [st.stack[|st.stack| - 1]], stack := st.stack[..|st.stack| - 1]), p)
    else st
  }

  /** Moves everything above the innermost opening bracket to the code. */
  function PopToBracket<N>(st: PState<N>): (r: PState<N>)
    ensures |r.out| >= |st.out| && |r.stack| <= |st.stack| && r.under == st.under && (st.Valid() ==> r.Valid())
    decreases |st.stack|
  {
    if st.stack != [] && !st.stack[|st.stack| - 1].BracketOpen?
    then PopToBracket(st.(out := st.out + [st.stack[|st.stack| - 1]], stack := st.stack[..|st.stack| - 1]))
    else st
  }

  function DropBracket<N>(st: PState<N>): (r: PState<N>)
    ensures st.Valid() ==> r.Valid()
  {
    if st.stack == [] then st.(under := st.under + 1) else st.(stack := st.stack[..|st.stack| - 1])
  }

  predicate CanPush<N>(st: PState<N>) { st.under == 0 && |st.stack| < STACK_SIZE }

  function Push<N>(st: PState<N>, i: Instr<N>): PState<N> { st.(stack := st.stack + [i]) }

  function Reverse<T>(s: seq<T>): (r: seq<T>)
    ensures |r| == |s|
  {
    if s == [] then [] else [s[|s| - 1]] + Reverse(s[..|s| - 1])
  }

  /** The rest of the text `t` from a state, with room for `max` instructions. */
  function Parse<N>(t: seq<char>, st: PState<N>, max: nat, num: seq<char> -> N): Parsed<N>
    decreases |t|
  {
    if t == [] || t[0] == '\0' then
      if |st.out| + |st.stack| > max then Overrun else Code(st.out + Reverse(st.stack))
    else if |st.out| >= max then Failed(ResultFull)
    else if t[0] == ' ' then Parse(t[1..], st, max, num)
    else if IsDigit(t[0]) then
      match ScanNumber(t, 0, false)
      case TooLong => Overrun
      case TwoDots => Failed(InvalidNumber)
      case Number(n) => Parse(t[n..], st.(out := st.out + [Constant(num(t[..n]))]), max, num)
    else if t[0] == '(' then
      if CanPush(st) then Parse(t[1..], Push(st, BracketOpen), max, num) else Overrun
    else if t[0] == ')' then
      var popped := PopToBracket(st);
      if |popped.out| > max then Overrun else Parse(t[1..], DropBracket(popped), max, num)
    else
      var popped := PopOps(st, CharPrecedence(t[0]));
      if |popped.out| > max || !CanPush(popped) then Overrun
      else match OperationOf(t[0])
        case None => Failed(InvalidCharacter)
        case Some(op) => Parse(t[1..], Push(popped, Operator(op)), max, num)
  }

  function Start<N>(): PState<N> { PState([], [], 0) }

  // ---------- the compiler as it is written ----------

  lemma Last<T>(s: seq<T>, k: nat)
    requires k < |s|
    ensures s[..k + 1][k] == s[k] && s[..k + 1][..k] == s[..k] && s[..k + 1] == s[..k] + [s[k]]
  {
  }

  lemma FlushStep<T>(out: seq<T>, s: seq<T>, top: T)
    requires s != [] && s[|s| - 1] == top
    ensures out + Reverse(s) == (out + [top]) + Reverse(s[..|s| - 1])
  {
  }

  lemma NothingToFlush<T>(out: seq<T>)
    ensures out + Reverse<T>([]) == out
  {
  }

  lemma ParseChar<N>(t: seq<char>, st: PState<N>, max: nat, num: seq<char> -> N)
    requires t != [] && t[0] != '\0'
    ensures |st.out| >= max ==> Parse(t, st, max, num) == Failed(ResultFull)
    ensures |st.out| < max && t[0] == ' ' ==> Parse(t, st, max, num) == Parse(t[1..], st, max, num)
    ensures |st.out| < max && t[0] == '(' ==>
      Parse(t, st, max, num) == if CanPush(st) then Parse(t[1..], Push(st, BracketOpen), max, num) else Overrun
    ensures |st.out| < max && t[0] == ')' ==>
      Parse(t, st, max, num) ==
        if |PopToBracket(st).out| > max then Overrun else Parse(t[1..], DropBracket(PopToBracket(st)), max, num)
  {
  }

  lemma ParseEnd<N>(t: seq<char>, st: PState<N>, max: nat, num: seq<char> -> N)
    requires t == [] || t[0] == '\0'
    ensures Parse(t, st, max, num) ==
      if |st.out| + |st.stack| > max then Overrun else Code(st.out + Reverse(st.stack))
  {
  }

  lemma ParseDigit<N>(t: seq<char>, st: PState<N>, max: nat, num: seq<char> -> N)
    requires t != [] && IsDigit(t[0]) && |st.out| < max
    ensures Parse(t, st, max, num) == match ScanNumber(t, 0, false)
      case TooLong => Overrun
      case TwoDots => Failed(InvalidNumber)
      case Number(n) => Parse(t[n..], st.(out := st.out + [Constant(num(t[..n]))]), max, num)
  {
    hide ScanNumber;
  }

  lemma NumberNext(t: seq<char>, i: nat, n: nat, dot: bool)
    requires i <= |t|
    ensures i == |t| || !InNumber(t[i]) ==>
      ScanNumber(t[i..], n, dot) == if n >= NUMBER_SIZE then TooLong else Number(n)
    ensures i < |t| && InNumber(t[i]) ==>
      ScanNumber(t[i..], n, dot) == if t[i] == '.' && dot then TwoDots
        else if n >= NUMBER_SIZE then TooLong
        else ScanNumber(t[i + 1..], n + 1, dot || t[i] == '.')
  {
    if i < |t| { assert t[i..][0] == t[i] && t[i..][1..] == t[i + 1..]; }
  }

  lemma ParseOperator<N>(t: seq<char>, st: PState<N>, max: nat, num: seq<char> -> N)
    requires t != [] && !IsDigit(t[0]) && t[0] !in {' ', '(', ')', '\0'} && |st.out| < max
    ensures var popped, op := PopOps(st, CharPrecedence(t[0])), OperationOf(t[0]);
      Parse(t, st, max, num) ==
        if |popped.out| > max || !CanPush(popped) then Overrun
        else if op.None? then Failed(InvalidCharacter)
        else Parse(t[1..], Push(popped, Operator(op.value)), max, num)
  {
    hide PopOps;
  }

  class Compiler<N(0)> {
    const result: array<Instr<N>>
    var count: nat
    const stack: array<Instr<N>>
    var offset: int  // the top of the stack, or -1; -2 and less after surplus closing brackets

    constructor (size: nat)
      ensures Valid() && Abs() == Start() && result.Length == size && fresh(result) && fresh(stack)
    {
      result := new Instr<N>[size](i => BracketOpen);
      stack := new Instr<N>[STACK_SIZE](i => BracketOpen);
      count := 0;
      offset := -1;
    }

    ghost predicate Valid()
      reads this
    {
      stack != result && stack.Length == STACK_SIZE && count <= result.Length && offset < STACK_SIZE
    }

    ghost function Abs(): (st: PState<N>)
      reads this, result, stack
      requires Valid()
      ensures st.Valid()
    {
      PState(result[..count], if offset < 0 then [] else stack[..offset + 1], if offset < 0 then -1 - offset else 0)
    }

    /** Moves the top of the stack to the code. */
    method MoveTop()
      requires Valid() && offset >= 0 && count < result.Length
      modifies this`count, this`offset, result
      ensures Valid() && offset == old(offset) - 1 && count == old(count) + 1
      ensures var st, k := old(Abs()), old(offset);
        Abs() == PState(st.out + [st.stack[k]], st.stack[..k], 0)
    {
      ghost var out := result[..count];
      Last(stack[..], offset);
      result[count] := stack[offset];
      count, offset := count + 1, offset - 1;
      assert result[..count] == out + [stack[offset + 1]];
    }

    method MoveOps(p: int)
      requires Valid() && |PopOps(Abs(), p).out| <= result.Length
      modifies this`count, this`offset, result
      ensures Valid() && Abs() == PopOps(old(Abs()), p)
    {
      while offset >= 0 && p <= Precedence(stack[offset])
        invariant Valid() && PopOps(Abs(), p) == PopOps(old(Abs()), p)
        decreases offset
      {
        assert Abs().stack[offset] == stack[offset];
        MoveTop();
      }
    }

    method MoveToBracket()
      requires Valid() && |PopToBracket(Abs()).out| <= result.Length
      modifies this`count, this`offset, result
      ensures Valid() && Abs() == PopToBracket(old(Abs()))
    {
      while offset >= 0 && !stack[offset].BracketOpen?
        invariant Valid() && PopToBracket(Abs()) == PopToBracket(old(Abs()))
        decreases offset
      {
        assert Abs().stack[offset] == stack[offset];
        MoveTop();
      }
    }

    method PushInstr(i: Instr<N>)
      requires Valid() && CanPush(Abs())
      modifies this`offset, stack
      ensures Valid() && Abs() == Push(old(Abs()), i)
    {
      ghost var s := Abs().stack;
      offset := offset + 1;
      stack[offset] := i;
      assert stack[..offset + 1] == s + [i];
    }

    method ReadNumber(input: seq<char>, pos: nat) returns (r: NumberScan, text: seq<char>)
      requires pos <= |input| && ScanNumber(input[pos..], 0, false) != TooLong
      ensures r == ScanNumber(input[pos..], 0, false)
      ensures r.Number? ==> text == input[pos..pos + r.len]
    {
      hide ScanNumber;
      var buffer := new char[NUMBER_SIZE];
      var n, dot, i := 0, false, pos;
      while i < |input| && InNumber(input[i])
        invariant i == pos + n <= |input| && n <= NUMBER_SIZE
        invariant ScanNumber(input[pos..], 0, false) == ScanNumber(input[i..], n, dot)
        invariant buffer[..n] == input[pos..i]
      {
        NumberNext(input, i, n, dot);
        if input[i] == '.' {
          if dot {
            return TwoDots, [];
          }
          dot := true;
        }
        buffer[n] := input[i];
        assert buffer[..n + 1] == input[pos..i + 1];
        n, i := n + 1, i + 1;
      }
      NumberNext(input, i, n, dot);
      r, text := Number(n), buffer[..n];
    }

    /** What is left at the end goes to the code. */
    method Flush()
      requires Valid() && |Abs().out| + |Abs().stack| <= result.Length
      modifies this`count, this`offset, result
      ensures Valid() && result[..count] == old(Abs()).out + Reverse(old(Abs()).stack)
    {
      hide Reverse;
      ghost var st := Abs();
      while offset >= 0
        invariant Valid() && result[..count] + Reverse(Abs().stack) == st.out + Reverse(st.stack)
        invariant count + |Abs().stack| <= result.Length
        decreases offset
      {
        assert Abs().stack[offset] == stack[offset];
        ghost var out, s, top := result[..count], Abs().stack, stack[offset];
        MoveTop();
        FlushStep(out, s, top);
      }
      NothingToFlush(result[..count]);
    }

    method ParseInput(input: seq<char>, num: seq<char> -> N) returns (r: Option<Error>)
      requires Valid() && Abs() == Start() && Parse(input, Start<N>(), result.Length, num) != Overrun
      modifies this`count, this`offset, result, stack
      ensures Valid()
      ensures match Parse(input, Start<N>(), result.Length, num)
        case Code(code) => r == None && count == |code| && result[..count] == code
        case Failed(e) => r == Some(e)
        case Overrun => false
    {
      hide ScanNumber, Reverse, PopOps, PopToBracket, Parse;
      ghost var all, max := Parse(input, Start<N>(), result.Length, num), result.Length;
      var pos := 0;
      assert input[0..] == input;
      while pos < |input| && input[pos] != '\0'
        invariant pos <= |input| && Valid() && Parse(input[pos..], Abs(), max, num) == all
      {
        ghost var t, st := input[pos..], Abs();
        assert t[0] == input[pos] && t[1..] == input[pos + 1..];
        ParseChar(t, st, max, num);
        if count >= result.Length {
          return Some(ResultFull);
        }
        if offset >= STACK_SIZE {
          return Some(StackFull);
        }
        var ch := input[pos];
        if ch == ' ' {
          pos := pos + 1;
        } else if IsDigit(ch) {
          var ok, next := OnDigit(input, pos, num);
          if !ok {
            return Some(InvalidNumber);
          }
          pos := next;
        } else if ch == '(' {
          PushInstr(BracketOpen);
          pos := pos + 1;
        } else if ch == ')' {
          MoveToBracket();
          offset := offset - 1;
          assert Abs() == DropBracket(PopToBracket(st));
          pos := pos + 1;
        } else {
          var ok := OnOperator(input, pos, num);
          if !ok {
            return Some(InvalidCharacter);
          }
          pos := pos + 1;
        }
      }
      ParseEnd(input[pos..], Abs(), max, num);
      Flush();
      return None;
    }

    method OnDigit(input: seq<char>, pos: nat, num: seq<char> -> N) returns (ok: bool, next: nat)
      requires pos < |input| && IsDigit(input[pos]) && Valid() && count < result.Length
      requires Parse(input[pos..], Abs(), result.Length, num) != Overrun
      modifies this`count, result
      ensures Valid() && pos < next <= |input|
      ensures Parse(input[pos..], old(Abs()), result.Length, num)
        == if ok then Parse(input[next..], Abs(), result.Length, num) else Failed(InvalidNumber)
    {
      hide ScanNumber, Parse;
      ghost var t := input[pos..];
      assert t[0] == input[pos];
      ParseDigit(t, Abs(), result.Length, num);
      var scan, text := ReadNumber(input, pos);
      if scan.TwoDots? {
        return false, pos + 1;
      }
      assert t[..scan.len] == text && t[scan.len..] == input[pos + scan.len..];
      AddConstant(num(text));
      return true, pos + scan.len;
    }

    method OnOperator(input: seq<char>, pos: nat, num: seq<char> -> N) returns (ok: bool)
      requires pos < |input| && !IsDigit(input[pos]) && input[pos] !in {' ', '(', ')', '\0'}
      requires Valid() && count < result.Length && Parse(input[pos..], Abs(), result.Length, num) != Overrun
      modifies this`count, this`offset, result, stack
      ensures Valid()
      ensures Parse(input[pos..], old(Abs()), result.Length, num)
        == if ok then Parse(input[pos + 1..], Abs(), result.Length, num) else Failed(InvalidCharacter)
    {
      hide PopOps, Parse;
      var ch := input[pos];
      assert input[pos..][0] == ch && input[pos..][1..] == input[pos + 1..];
      ParseOperator(input[pos..], Abs(), result.Length, num);
      MoveOps(CharPrecedence(ch));
      var op := OperationOf(ch);
      PushInstr(if op.Some? then Operator(op.value) else BracketOpen);
      return op.Some?;
    }

    method AddConstant(v: N)
      requires Valid() && count < result.Length
      modifies this`count, result
      ensures Valid() && Abs() == old(Abs()).(out := old(Abs()).out + [Constant(v)])
    {
      ghost var out := result[..count];
      result[count] := Constant(v);
      count := count + 1;
      assert result[..count] == out + [Constant(v)];
    }
  }

  // ---------- expression trees ----------

  /** An expression as it can be written, with brackets and spaces. */
  datatype Expr =
    | Num(text: seq<char>)
    | Bin(op: Operation, left: Expr, right: Expr)
    | Paren(inner: Expr)
    | Pad(before: nat, inner: Expr, after: nat)

  /** How tightly the outermost operator binds. */
  function Tightness(e: Expr): (l: int)
    ensures 1 <= l <= 3
  {
    match e
    case Num(_) => 3
    case Bin(op, _, _) => Level(op)
    case Paren(_) => 3
    case Pad(_, x, _) => Tightness(x)
  }

  predicate IsNumber(t: seq<char>, dot: bool) {
    forall i | 0 <= i < |t| :: InNumber(t[i]) && (t[i] == '.' ==> !dot && forall j | 0 <= j < i :: t[j] != '.')
  }

  predicate Numeral(t: seq<char>) { 0 < |t| < NUMBER_SIZE && IsDigit(t[0]) && IsNumber(t, false) }

  /** Written with at least the brackets that precedence and associativity to the left need. */
  ghost predicate WellFormed(e: Expr) {
    match e
    case Num(t) => Numeral(t)
    case Bin(op, l, r) => WellFormed(l) && WellFormed(r) && Tightness(l) >= Level(op) && Tightness(r) > Level(op)
    case Paren(x) => WellFormed(x)
    case Pad(_, x, _) => WellFormed(x)
  }

  function Spaces(n: nat): (t: seq<char>)
    ensures |t| == n && forall i | 0 <= i < n :: t[i] == ' '
  {
    seq(n, i => ' ')
  }

  function Print(e: Expr): seq<char> {
    match e
    case Num(t) => t
    case Bin(op, l, r) => Print(l) + [CharOf(op)] + Print(r)
    case Paren(x) => ['('] + Print(x) + [')']
    case Pad(n, x, m) => Spaces(n) + Print(x) + Spaces(m)
  }

  function Postfix<N>(e: Expr, num: seq<char> -> N): (code: seq<Instr<N>>) {
    match e
    case Num(t) => [Constant(num(t))]
    case Bin(op, l, r) => Postfix(l, num) + Postfix(r, num) + [Operator(op)]
    case Paren(x) => Postfix(x, num)
    case Pad(_, x, _) => Postfix(x, num)
  }

  /** The operators still on the stack when an expression has been read, the innermost last. */
  function Pending<N>(e: Expr): (s: seq<Instr<N>>) {
    match e
    case Num(_) => []
    case Bin(op, _, r) => [Operator(op)] + Pending<N>(r)
    case Paren(_) => []
    case Pad(_, x, _) => Pending<N>(x)
  }

  /** The code written by then. */
  function Emitted<N>(e: Expr, num: seq<char> -> N): (code: seq<Instr<N>>) {
    match e
    case Num(t) => [Constant(num(t))]
    case Bin(op, l, r) => Postfix(l, num) + Emitted(r, num)
    case Paren(x) => Postfix(x, num)
    case Pad(_, x, _) => Emitted(x, num)
  }

  lemma {:induction false} EmittedPending<N>(e: Expr, num: seq<char> -> N)
    ensures Emitted(e, num) + Reverse(Pending<N>(e)) == Postfix(e, num)
  {
    match e
    case Num(_) =>
    case Bin(op, l, r) =>
      EmittedPending(r, num);
      ReverseCons(Operator(op), Pending<N>(r));
    case Paren(_) =>
    case Pad(_, x, _) => EmittedPending(x, num);
  }

  lemma {:induction false} ReverseCons<T>(x: T, s: seq<T>)
    ensures Reverse([x] + s) == Reverse(s) + [x]
    decreases |s|
  {
    if s == [] {
      assert [x] + s == [x] && Reverse([x]) == [x];
    } else {
      var k := |s| - 1;
      assert ([x] + s)[..k + 1] == [x] + s[..k];
      ReverseCons(x, s[..k]);
    }
  }

  /** How much of the operator stack an expression needs. */
  function Depth(e: Expr): nat {
    match e
    case Num(_) => 0
    case Bin(_, l, r) => if Depth(l) > 1 + Depth(r) then Depth(l) else 1 + Depth(r)
    case Paren(x) => 1 + Depth(x)
    case Pad(_, x, _) => Depth(x)
  }

  lemma {:induction false} PendingFits<N>(e: Expr)
    ensures |Pending<N>(e)| <= Depth(e)
  {
    match e
    case Num(_) =>
    case Bin(_, _, r) => PendingFits<N>(r);
    case Paren(_) =>
    case Pad(_, x, _) => PendingFits<N>(x);
  }

  /** All of them operators that bind at least as tightly as `p`. */
  ghost predicate Tight<N>(s: seq<Instr<N>>, p: int) {
    forall i | 0 <= i < |s| :: s[i].Operator? && Precedence(s[i]) >= p
  }

  lemma {:induction false} PendingTight<N>(e: Expr)
    requires WellFormed(e)
    ensures Tight(Pending<N>(e), Tightness(e))
  {
    match e
    case Num(_) =>
    case Bin(_, _, r) => PendingTight<N>(r);
    case Paren(_) =>
    case Pad(_, x, _) => PendingTight<N>(x);
  }

  /** Nothing on the stack would be moved for an operator of precedence `p`. */
  ghost predicate Below<N>(s: seq<Instr<N>>, p: int) { s != [] ==> Precedence(s[|s| - 1]) < p }

  lemma {:induction false} PopsPending<N>(out: seq<Instr<N>>, s: seq<Instr<N>>, ops: seq<Instr<N>>, p: int)
    requires Tight(ops, p) && Below(s, p)
    ensures PopOps(PState(out, s + ops, 0), p) == PState(out + Reverse(ops), s, 0)
    decreases |ops|
  {
    if ops == [] {
      assert s + ops == s && out + Reverse(ops) == out;
    } else {
      var k := |ops| - 1;
      hide Reverse;
      assert (s + ops)[..|s| + k] == s + ops[..k] && (s + ops)[|s| + k] == ops[k];
      PopsPending(out + [ops[k]], s, ops[..k], p);
      FlushStep(out, ops, ops[k]);
    }
  }

  lemma {:induction false} PopsToBracket<N>(out: seq<Instr<N>>, s: seq<Instr<N>>, ops: seq<Instr<N>>, p: int)
    requires Tight(ops, p) && s != [] && s[|s| - 1].BracketOpen?
    ensures PopToBracket(PState(out, s + ops, 0)) == PState(out + Reverse(ops), s, 0)
    decreases |ops|
  {
    if ops == [] {
      assert s + ops == s && out + Reverse(ops) == out;
    } else {
      var k := |ops| - 1;
      hide Reverse;
      assert (s + ops)[..|s| + k] == s + ops[..k] && (s + ops)[|s| + k] == ops[k];
      PopsToBracket(out + [ops[k]], s, ops[..k], p);
      FlushStep(out, ops, ops[k]);
    }
  }

  lemma {:induction false} ScansNumber(t: seq<char>, rest: seq<char>, n: nat, dot: bool)
    requires IsNumber(t, dot) && n + |t| < NUMBER_SIZE && (rest == [] || !InNumber(rest[0]))
    ensures ScanNumber(t + rest, n, dot) == Number(n + |t|)
    decreases |t|
  {
    if t == [] {
      assert t + rest == rest;
    } else {
      assert (t + rest)[1..] == t[1..] + rest;
      var dot' := dot || t[0] == '.';
      forall i | 0 <= i < |t| - 1
        ensures InNumber(t[1..][i]) && (t[1..][i] == '.' ==> !dot' && forall j | 0 <= j < i :: t[1..][j] != '.')
      {
        assert t[1..][i] == t[i + 1];
      }
      ScansNumber(t[1..], rest, n + 1, dot');
    }
  }

  // ---------- the compiler is right ----------

  /** Whether a text can follow a number. */
  predicate Ends(t: seq<char>) { t == [] || !InNumber(t[0]) }

  lemma {:induction false} SkipsSpaces<N>(n: nat, rest: seq<char>, st: PState<N>, max: nat, num: seq<char> -> N)
    requires |st.out| < max
    ensures Parse(Spaces(n) + rest, st, max, num) == Parse(rest, st, max, num)
    decreases n
  {
    var t := Spaces(n) + rest;
    if n == 0 {
      assert t == rest;
    } else {
      assert t[0] == ' ' && t[1..] == Spaces(n - 1) + rest;
      SkipsSpaces(n - 1, rest, st, max, num);
    }
  }

  lemma ReadsNumber<N>(t: seq<char>, rest: seq<char>, st: PState<N>, max: nat, num: seq<char> -> N)
    requires Numeral(t) && Ends(rest) && |st.out| < max
    ensures Parse(t + rest, st, max, num) == Parse(rest, st.(out := st.out + [Constant(num(t))]), max, num)
  {
    ScansNumber(t, rest, 0, false);
    hide ScanNumber;
    assert (t + rest)[0] == t[0] && (t + rest)[|t|..] == rest && (t + rest)[..|t|] == t;
  }

  lemma ReadsOperator<N>(op: Operation, rest: seq<char>, st: PState<N>, max: nat, num: seq<char> -> N)
    requires var popped := PopOps(st, Level(op)); |st.out| < max && |popped.out| <= max && CanPush(popped)
    ensures Parse([CharOf(op)] + rest, st, max, num) == Parse(rest, Push(PopOps(st, Level(op)), Operator(op)), max, num)
  {
    var t := [CharOf(op)] + rest;
    assert t[0] == CharOf(op) && t[1..] == rest;
    assert !IsDigit(CharOf(op));
    hide PopOps;
  }

  lemma ReadsOpen<N>(rest: seq<char>, st: PState<N>, max: nat, num: seq<char> -> N)
    requires |st.out| < max && CanPush(st)
    ensures Parse(['('] + rest, st, max, num) == Parse(rest, Push(st, BracketOpen), max, num)
  {
    var t := ['('] + rest;
    assert t[0] == '(' && t[1..] == rest;
  }

  lemma ReadsClose<N>(rest: seq<char>, st: PState<N>, max: nat, num: seq<char> -> N)
    requires |st.out| < max && |PopToBracket(st).out| <= max
    ensures Parse([')'] + rest, st, max, num) == Parse(rest, DropBracket(PopToBracket(st)), max, num)
  {
    var t := [')'] + rest;
    assert t[0] == ')' && t[1..] == rest;
    hide PopToBracket;
  }

  /** Room for the code and the operators of an expression. */
  ghost predicate Fits<N>(e: Expr, st: PState<N>, max: nat, num: seq<char> -> N) {
    st.under == 0 && |st.out| + |Postfix(e, num)| < max && |st.stack| + Depth(e) <= STACK_SIZE
  }

  function After<N>(e: Expr, st: PState<N>, num: seq<char> -> N): PState<N> {
    PState(st.out + Emitted(e, num), st.stack + Pending<N>(e), 0)
  }

  /** Reading an expression writes part of its code and leaves the rest pending. */
  lemma {:induction false} Reads<N>(e: Expr, rest: seq<char>, st: PState<N>, max: nat, num: seq<char> -> N)
    requires WellFormed(e) && Fits(e, st, max, num) && Ends(rest) && Below(st.stack, Tightness(e))
    ensures Parse(Print(e) + rest, st, max, num) == Parse(rest, After(e, st, num), max, num)
    decreases e, 1
  {
    match e
    case Num(t) =>
      hide Parse;
      ReadsNumber(t, rest, st, max, num);
      assert st.stack + [] == st.stack;
    case Bin(op, l, r) => ReadsBin(op, l, r, rest, st, max, num);
    case Paren(x) => ReadsParen(x, rest, st, max, num);
    case Pad(n, x, m) =>
      hide Parse;
      var tail := Spaces(m) + rest;
      SkipsSpaces(n, Print(x) + tail, st, max, num);
      assert Print(e) + rest == Spaces(n) + (Print(x) + tail);
      Reads(x, tail, st, max, num);
      EmittedPending(x, num);
      SkipsSpaces(m, rest, After(x, st, num), max, num);
  }

  lemma {:induction false} ReadsBin<N>(op: Operation, l: Expr, r: Expr, rest: seq<char>, st: PState<N>, max: nat,
      num: seq<char> -> N)
    requires var e := Bin(op, l, r);
      WellFormed(e) && Fits(e, st, max, num) && Ends(rest) && Below(st.stack, Tightness(e))
    ensures Parse(Print(Bin(op, l, r)) + rest, st, max, num) == Parse(rest, After(Bin(op, l, r), st, num), max, num)
    decreases Bin(op, l, r), 0
  {
    hide Parse, PopOps, Reverse, Tight, Below;
    var p, tail := Level(op), [CharOf(op)] + (Print(r) + rest);
    assert Below(st.stack, Tightness(l)) by { BelowMore(st.stack, p, Tightness(l)); }
    var mid, ops := After(l, st, num), Pending<N>(l);
    EmittedPending(l, num);
    PendingTight<N>(l);
    PendingFits<N>(l);
    TightLess(ops, Tightness(l), p);
    PopsPending(mid.out, st.stack, ops, p);
    var next := PState(st.out + Postfix(l, num), st.stack + [Operator(op)], 0);
    BelowOperator(st.stack, op, Tightness(r));
    BinTexts(op, l, r, rest, st, num);
    hide Print, Emitted, Pending, WellFormed, Postfix;
    Reads(l, tail, st, max, num);
    ReadsOperator(op, Print(r) + rest, mid, max, num);
    Reads(r, rest, next, max, num);
  }

  lemma BinTexts<N>(op: Operation, l: Expr, r: Expr, rest: seq<char>, st: PState<N>, num: seq<char> -> N)
    ensures Print(Bin(op, l, r)) + rest == Print(l) + ([CharOf(op)] + (Print(r) + rest))
    ensures (st.out + Emitted(l, num)) + Reverse(Pending<N>(l)) == st.out + Postfix(l, num)
    ensures (st.stack + [Operator(op)]) + Pending<N>(r) == st.stack + Pending<N>(Bin(op, l, r))
    ensures (st.out + Postfix(l, num)) + Emitted(r, num) == st.out + Emitted(Bin(op, l, r), num)
  {
    EmittedPending(l, num);
    BinPrint(op, l, r, rest);
    BinStack(op, l, r, st.stack);
    BinOut(op, l, r, st.out, num);
    hide Reverse, Print, Emitted, Pending, Postfix;
    assert (st.out + Emitted(l, num)) + Reverse(Pending<N>(l)) == st.out + (Emitted(l, num) + Reverse(Pending<N>(l)));
  }

  lemma BinPrint(op: Operation, l: Expr, r: Expr, rest: seq<char>)
    ensures Print(Bin(op, l, r)) + rest == Print(l) + ([CharOf(op)] + (Print(r) + rest))
  {
  }

  lemma BinStack<N>(op: Operation, l: Expr, r: Expr, s: seq<Instr<N>>)
    ensures (s + [Operator(op)]) + Pending<N>(r) == s + Pending<N>(Bin(op, l, r))
  {
  }

  lemma BinOut<N>(op: Operation, l: Expr, r: Expr, out: seq<Instr<N>>, num: seq<char> -> N)
    ensures (out + Postfix(l, num)) + Emitted(r, num) == out + Emitted(Bin(op, l, r), num)
  {
  }

  lemma BelowMore<N>(s: seq<Instr<N>>, p: int, q: int)
    requires Below(s, p) && p <= q
    ensures Below(s, q)
  {
  }

  lemma BelowOperator<N>(s: seq<Instr<N>>, op: Operation, p: int)
    requires Level(op) < p
    ensures Below(s + [Operator(op)], p)
  {
  }

  lemma TightLess<N>(s: seq<Instr<N>>, p: int, q: int)
    requires Tight(s, p) && q <= p
    ensures Tight(s, q)
  {
  }

  lemma {:induction false} ReadsParen<N>(x: Expr, rest: seq<char>, st: PState<N>, max: nat, num: seq<char> -> N)
    requires WellFormed(Paren(x)) && Fits(Paren(x), st, max, num) && Ends(rest)
    ensures Parse(Print(Paren(x)) + rest, st, max, num) == Parse(rest, After(Paren(x), st, num), max, num)
    decreases Paren(x), 0
  {
    hide Parse, Print, Fits, After, Below, WellFormed;
    var tail := [')'] + rest;
    ParenPrint(x, rest);
    ParenInside(x, st, max, num);
    ReadsOpen(Print(x) + tail, st, max, num);
    Reads(x, tail, Push(st, BracketOpen), max, num);
    ParenEnd(x, rest, st, max, num);
  }

  lemma ParenPrint(x: Expr, rest: seq<char>)
    ensures Print(Paren(x)) + rest == ['('] + (Print(x) + ([')'] + rest))
  {
  }

  lemma ParenInside<N>(x: Expr, st: PState<N>, max: nat, num: seq<char> -> N)
    requires WellFormed(Paren(x)) && Fits(Paren(x), st, max, num)
    ensures |st.out| < max && CanPush(st) && WellFormed(x)
    ensures var inside := Push(st, BracketOpen); Fits(x, inside, max, num) && Below(inside.stack, Tightness(x))
  {
  }

  /** The closing bracket writes what is pending behind its partner. */
  lemma ParenEnd<N>(x: Expr, rest: seq<char>, st: PState<N>, max: nat, num: seq<char> -> N)
    requires WellFormed(x) && Fits(Paren(x), st, max, num)
    ensures var mid := After(x, Push(st, BracketOpen), num);
      Parse([')'] + rest, mid, max, num) == Parse(rest, After(Paren(x), st, num), max, num)
  {
    hide Parse, PopToBracket, Reverse, WellFormed, Pending, Emitted, Tight;
    var inside := Push(st, BracketOpen);
    var mid := After(x, inside, num);
    PendingTight<N>(x);
    EmittedPending(x, num);
    PopsToBracket(mid.out, inside.stack, Pending<N>(x), Tightness(x));
    assert (st.out + Emitted(x, num)) + Reverse(Pending<N>(x)) == st.out + Postfix(x, num);
    AfterParen(x, st, num);
    ReadsClose(rest, mid, max, num);
    assert inside.stack[..|inside.stack| - 1] == st.stack == st.stack + [];
  }

  lemma AfterParen<N>(x: Expr, st: PState<N>, num: seq<char> -> N)
    ensures After(Paren(x), st, num) == PState(st.out + Postfix(x, num), st.stack, 0)
    ensures |Postfix(Paren(x), num)| == |Postfix(x, num)|
  {
    assert st.stack + [] == st.stack;
  }

  /** Every expression that fits the arrays is compiled to its postfix form; a NUL and what
      follows it do not matter. */
  lemma Compiles<N>(e: Expr, junk: seq<char>, max: nat, num: seq<char> -> N)
    requires WellFormed(e) && |Postfix(e, num)| < max && Depth(e) <= STACK_SIZE
    requires junk == [] || junk[0] == '\0'
    ensures Parse(Print(e) + junk, Start<N>(), max, num) == Code(Postfix(e, num))
  {
    hide Print, Postfix, Depth, Reverse;
    Reads(e, junk, Start<N>(), max, num);
    EmittedPending(e, num);
    ReverseLength(Pending<N>(e));
    assert [] + Emitted(e, num) == Emitted(e, num) && [] + Pending<N>(e) == Pending<N>(e);
  }

  lemma ReverseLength<T>(s: seq<T>)
    ensures |Reverse(s)| == |s|
  {
  }

  // ---------- running the code ----------

  /** A number, too few numbers on the stack, or a push beyond its end. */
  datatype Ran<N> = Value(n: N) | NotEnough | Overflow

  /** The code from an instruction on; `%` is not computed but yields a fixed number. */
  function Run<N>(code: seq<Instr<N>>, s: seq<N>, arith: (Operation, N, N) -> N, noMod: N): Ran<N>
    decreases |code|
  {
    if code == [] then if s == [] then NotEnough else Value(s[|s| - 1])
    else
      match code[0]
      case BracketOpen => Run(code[1..], s, arith, noMod)
      case Constant(v) => if |s| >= NUMBER_SIZE then Overflow else Run(code[1..], s + [v], arith, noMod)
      case Operator(op) =>
        if |s| < 2 then NotEnough
        else
          var v := if op == Mod then noMod else arith(op, s[|s| - 2], s[|s| - 1]);
          Run(code[1..], s[..|s| - 2] + [v], arith, noMod)
  }

  class NumberStack<N(0)> {
    const stack: array<N>
    var offset: nat

    constructor ()
      ensures Valid() && Contents() == [] && fresh(stack)
    {
      stack := new N[NUMBER_SIZE];
      offset := 0;
    }

    ghost predicate Valid()
      reads this
    {
      stack.Length == NUMBER_SIZE && offset <= NUMBER_SIZE
    }

    ghost function Contents(): (s: seq<N>)
      reads this, stack
      requires Valid()
      ensures |s| == offset
    {
      stack[..offset]
    }

    method Push(v: N)
      requires Valid() && offset < NUMBER_SIZE
      modifies this`offset, stack
      ensures Valid() && Contents() == old(Contents()) + [v]
    {
      stack[offset] := v;
      offset := offset + 1;
    }

    method Pop() returns (r: Option<N>)
      requires Valid()
      modifies this`offset
      ensures Valid()
      ensures old(Contents()) == [] ==> r == None && Contents() == []
      ensures old(Contents()) != [] ==> r.Some? && old(Contents()) == Contents() + [r.value]
    {
      if offset == 0 {
        return None;
      }
      offset := offset - 1;
      return Some(stack[offset]);
    }
  }

  method Execute<N(0)>(ops: seq<Instr<N>>, arith: (Operation, N, N) -> N, noMod: N) returns (r: Option<N>)
    requires Run(ops, [], arith, noMod) != Overflow
    ensures var ran := Run(ops, [], arith, noMod); r == if ran.Value? then Some(ran.n) else None
  {
    var s := new NumberStack<N>();
    assert ops[0..] == ops;
    for i := 0 to |ops|
      invariant fresh(s) && fresh(s.stack) && s.Valid()
      invariant Run(ops[i..], s.Contents(), arith, noMod) == Run(ops, [], arith, noMod)
    {
      assert ops[i..][0] == ops[i] && ops[i..][1..] == ops[i + 1..];
      match ops[i] {
        case Constant(v) =>
          s.Push(v);
        case Operator(op) =>
          ghost var c := s.Contents();
          var b := s.Pop();
          if b.None? {
            return None;
          }
          var a := s.Pop();
          if a.None? {
            return None;
          }
          assert c == s.Contents() + [a.value] + [b.value];
          assert c[..|c| - 2] == s.Contents();
          s.Push(if op == Mod then noMod else arith(op, a.value, b.value));
        case BracketOpen =>
      }
    }
    r := s.Pop();
  }

  /** The value of a tree, the left operand first. */
  function ValueOf<N>(e: Expr, num: seq<char> -> N, arith: (Operation, N, N) -> N, noMod: N): N {
    match e
    case Num(t) => num(t)
    case Bin(op, l, r) =>
      if op == Mod then noMod else arith(op, ValueOf(l, num, arith, noMod), ValueOf(r, num, arith, noMod))
    case Paren(x) => ValueOf(x, num, arith, noMod)
    case Pad(_, x, _) => ValueOf(x, num, arith, noMod)
  }

  /** How many numbers are on the stack at once. */
  function Width(e: Expr): (n: nat)
    ensures n >= 1
  {
    match e
    case Num(_) => 1
    case Bin(_, l, r) => if Width(l) > 1 + Width(r) then Width(l) else 1 + Width(r)
    case Paren(x) => Width(x)
    case Pad(_, x, _) => Width(x)
  }

  /** Running the code of an expression pushes its value. */
  lemma {:induction false} Evaluates<N>(e: Expr, rest: seq<Instr<N>>, s: seq<N>,
      num: seq<char> -> N, arith: (Operation, N, N) -> N, noMod: N)
    requires |s| + Width(e) <= NUMBER_SIZE
    ensures Run(Postfix(e, num) + rest, s, arith, noMod) == Run(rest, s + [ValueOf(e, num, arith, noMod)], arith, noMod)
    decreases e
  {
    match e
    case Num(t) =>
      var code := Postfix(e, num) + rest;
      assert code[0] == Constant(num(t)) && code[1..] == rest;
    case Bin(op, l, r) =>
      var u, v := ValueOf(l, num, arith, noMod), ValueOf(r, num, arith, noMod);
      var tail := [Operator(op)] + rest;
      assert Postfix(e, num) + rest == Postfix(l, num) + (Postfix(r, num) + tail);
      Evaluates(l, Postfix(r, num) + tail, s, num, arith, noMod);
      Evaluates(r, tail, s + [u], num, arith, noMod);
      Applies(op, rest, s, u, v, arith, noMod);
    case Paren(x) => Evaluates(x, rest, s, num, arith, noMod);
    case Pad(_, x, _) => Evaluates(x, rest, s, num, arith, noMod);
  }

  lemma Applies<N>(op: Operation, rest: seq<Instr<N>>, s: seq<N>, u: N, v: N, arith: (Operation, N, N) -> N, noMod: N)
    ensures Run([Operator(op)] + rest, (s + [u]) + [v], arith, noMod) ==
      Run(rest, s + [if op == Mod then noMod else arith(op, u, v)], arith, noMod)
  {
    var code, t := [Operator(op)] + rest, (s + [u]) + [v];
    assert code[0] == Operator(op) && code[1..] == rest;
    assert t[..|t| - 2] == s && t[|t| - 2] == u && t[|t| - 1] == v;
  }

  /** An expression has one more number than it has operators. */
  lemma {:induction false} PostfixOdd<N>(e: Expr, num: seq<char> -> N)
    ensures |Postfix(e, num)| % 2 == 1
  {
    match e
    case Num(_) =>
    case Bin(_, l, r) =>
      PostfixOdd(l, num);
      PostfixOdd(r, num);
    case Paren(x) => PostfixOdd(x, num);
    case Pad(_, x, _) => PostfixOdd(x, num);
  }

  /** With the application's arrays, text that fits is compiled and run to the value of its tree. */
  lemma CalculatesTheTree<N>(e: Expr, junk: seq<char>, num: seq<char> -> N, arith: (Operation, N, N) -> N, noMod: N)
    requires WellFormed(e) && |Postfix(e, num)| <= 100 && Depth(e) <= STACK_SIZE && Width(e) <= NUMBER_SIZE
    requires junk == [] || junk[0] == '\0'
    ensures Parse(Print(e) + junk, Start<N>(), 100, num) == Code(Postfix(e, num))
    ensures Run(Postfix(e, num), [], arith, noMod) == Value(ValueOf(e, num, arith, noMod))
  {
    PostfixOdd(e, num);
    Compiles(e, junk, 100, num);
    hide Postfix, ValueOf, Print, Width;
    assert Postfix(e, num) + [] == Postfix(e, num);
    Evaluates(e, [], [], num, arith, noMod);
  }

  // ---------- texts of two and three numbers ----------

  /** An operator takes the last number pushed as its right operand. */
  lemma OneOperation<N>(a: N, b: N, op: Operation, arith: (Operation, N, N) -> N, noMod: N)
    ensures Run([Constant(a), Constant(b), Operator(op)], [], arith, noMod) ==
      Value(if op == Mod then noMod else arith(op, a, b))
  {
    var code := [Constant(a), Constant(b), Operator(op)];
    assert code[1..] == [Constant(b), Operator(op)];
    assert code[1..][1..] == [Operator(op)] + [];
    assert [] + [a] == [a] && [a] + [b] == ([] + [a]) + [b];
    Applies(op, [], [], a, b, arith, noMod);
  }

  lemma ShortTexts<N>(e: Expr, num: seq<char> -> N, code: seq<Instr<N>>)
    requires WellFormed(e) && Postfix(e, num) == code && |code| <= 5 && Depth(e) <= 5
    ensures Parse(Print(e), Start<N>(), 100, num) == Code(code)
  {
    hide Print, Parse, WellFormed, Postfix, Depth;
    Compiles(e, [], 100, num);
    assert Print(e) + [] == Print(e);
  }

  lemma NumIs<N>(t: seq<char>, num: seq<char> -> N)
    requires Numeral(t)
    ensures var e := Num(t);
      WellFormed(e) && Postfix(e, num) == [Constant(num(t))] && Depth(e) == 0 && Print(e) == t && Tightness(e) == 3
  {
  }

  lemma BinIs<N>(op: Operation, l: Expr, r: Expr, num: seq<char> -> N)
    ensures var e := Bin(op, l, r);
      && (WellFormed(e) <==> WellFormed(l) && WellFormed(r) && Tightness(l) >= Level(op) && Tightness(r) > Level(op))
      && Postfix(e, num) == Postfix(l, num) + Postfix(r, num) + [Operator(op)] && Tightness(e) == Level(op)
      && Print(e) == Print(l) + [CharOf(op)] + Print(r) && Depth(e) <= 1 + Depth(l) + Depth(r)
  {
  }

  lemma ParenIs<N>(x: Expr, num: seq<char> -> N)
    requires WellFormed(x)
    ensures var e := Paren(x);
      && WellFormed(e) && Postfix(e, num) == Postfix(x, num) && Depth(e) == 1 + Depth(x) && Tightness(e) == 3
      && Print(e) == "(" + Print(x) + ")"
  {
  }

  /** What each operator character means, between any two numbers. */
  lemma TwoNumbers<N>(t: seq<char>, u: seq<char>, num: seq<char> -> N)
    requires Numeral(t) && Numeral(u)
    ensures Parse(t + "+" + u, Start<N>(), 100, num) == Code([Constant(num(t)), Constant(num(u)), Operator(Add)])
    ensures Parse(t + "-" + u, Start<N>(), 100, num) == Code([Constant(num(t)), Constant(num(u)), Operator(Sub)])
    ensures Parse(t + "*" + u, Start<N>(), 100, num) == Code([Constant(num(t)), Constant(num(u)), Operator(Mul)])
    ensures Parse(t + "/" + u, Start<N>(), 100, num) == Code([Constant(num(t)), Constant(num(u)), Operator(Div)])
    ensures Parse(t + "%" + u, Start<N>(), 100, num) == Code([Constant(num(t)), Constant(num(u)), Operator(Mod)])
  {
    hide Parse;
    ShortTexts(Bin(Add, Num(t), Num(u)), num, [Constant(num(t)), Constant(num(u)), Operator(Add)]);
    ShortTexts(Bin(Sub, Num(t), Num(u)), num, [Constant(num(t)), Constant(num(u)), Operator(Sub)]);
    ShortTexts(Bin(Mul, Num(t), Num(u)), num, [Constant(num(t)), Constant(num(u)), Operator(Mul)]);
    ShortTexts(Bin(Div, Num(t), Num(u)), num, [Constant(num(t)), Constant(num(u)), Operator(Div)]);
    ShortTexts(Bin(Mod, Num(t), Num(u)), num, [Constant(num(t)), Constant(num(u)), Operator(Mod)]);
  }

  lemma GroupRight<T>(t: seq<T>, x: T, open: seq<T>, u: seq<T>, y: T, w: seq<T>, close: seq<T>)
    ensures t + [x] + (open + (u + [y] + w) + close) == t + [x] + open + u + [y] + w + close
  {
  }

  lemma GroupLeft<T>(t: seq<T>, x: T, open: seq<T>, u: seq<T>, y: T, w: seq<T>, close: seq<T>)
    ensures (open + (t + [x] + u) + close) + [y] + w == open + t + [x] + u + close + [y] + w
  {
  }

  lemma FiveCodes<T>(a: T, b: T, e: T, c: T, d: T)
    ensures [a] + ([b] + [e] + [d]) + [c] == [a, b, e, d, c]
    ensures ([a] + [b] + [c]) + [e] + [d] == [a, b, c, e, d]
  {
  }

  /** Multiplication, division and remainder go before addition and subtraction. */
  lemma TightFirst<N>(t: seq<char>, u: seq<char>, w: seq<char>, c: Operation, d: Operation, num: seq<char> -> N)
    requires Numeral(t) && Numeral(u) && Numeral(w) && c in {Add, Sub} && d in {Mul, Div, Mod}
    ensures Parse(t + [CharOf(c)] + u + [CharOf(d)] + w, Start<N>(), 100, num) ==
      Code([Constant(num(t)), Constant(num(u)), Constant(num(w)), Operator(d), Operator(c)])
  {
    hide Parse, CharOf, WellFormed, Postfix, Depth, Print, Tightness;
    NumIs(t, num);
    NumIs(u, num);
    NumIs(w, num);
    var f := Bin(d, Num(u), Num(w));
    BinIs(d, Num(u), Num(w), num);
    BinIs(c, Num(t), f, num);
    FiveCodes<Instr<N>>(Constant(num(t)), Constant(num(u)), Constant(num(w)), Operator(c), Operator(d));
    GroupRight(t, CharOf(c), [], u, CharOf(d), w, []);
    ShortTexts(Bin(c, Num(t), f), num,
      [Constant(num(t)), Constant(num(u)), Constant(num(w)), Operator(d), Operator(c)]);
    assert Print(Bin(c, Num(t), f)) == t + [CharOf(c)] + u + [CharOf(d)] + w;
  }

  /** Otherwise the left operator goes first. */
  lemma LeftFirst<N>(t: seq<char>, u: seq<char>, w: seq<char>, c: Operation, d: Operation, num: seq<char> -> N)
    requires Numeral(t) && Numeral(u) && Numeral(w) && !(c in {Add, Sub} && d in {Mul, Div, Mod})
    ensures Parse(t + [CharOf(c)] + u + [CharOf(d)] + w, Start<N>(), 100, num) ==
      Code([Constant(num(t)), Constant(num(u)), Operator(c), Constant(num(w)), Operator(d)])
  {
    hide Parse, CharOf, WellFormed, Postfix, Depth, Print, Tightness;
    NumIs(t, num);
    NumIs(u, num);
    NumIs(w, num);
    var f := Bin(c, Num(t), Num(u));
    BinIs(c, Num(t), Num(u), num);
    BinIs(d, f, Num(w), num);
    FiveCodes<Instr<N>>(Constant(num(t)), Constant(num(u)), Constant(num(w)), Operator(c), Operator(d));
    ShortTexts(Bin(d, f, Num(w)), num,
      [Constant(num(t)), Constant(num(u)), Operator(c), Constant(num(w)), Operator(d)]);
  }

  /** Brackets go first on either side. */
  lemma BracketsLeft<N>(t: seq<char>, u: seq<char>, w: seq<char>, c: Operation, d: Operation, num: seq<char> -> N)
    requires Numeral(t) && Numeral(u) && Numeral(w)
    ensures Parse("(" + t + [CharOf(c)] + u + ")" + [CharOf(d)] + w, Start<N>(), 100, num) ==
      Code([Constant(num(t)), Constant(num(u)), Operator(c), Constant(num(w)), Operator(d)])
  {
    hide Parse, CharOf, WellFormed, Postfix, Depth, Print, Tightness;
    NumIs(t, num);
    NumIs(u, num);
    NumIs(w, num);
    var f := Bin(c, Num(t), Num(u));
    BinIs(c, Num(t), Num(u), num);
    ParenIs(f, num);
    BinIs(d, Paren(f), Num(w), num);
    FiveCodes<Instr<N>>(Constant(num(t)), Constant(num(u)), Constant(num(w)), Operator(c), Operator(d));
    GroupLeft(t, CharOf(c), "(", u, CharOf(d), w, ")");
    ShortTexts(Bin(d, Paren(f), Num(w)), num,
      [Constant(num(t)), Constant(num(u)), Operator(c), Constant(num(w)), Operator(d)]);
  }

  lemma BracketsRight<N>(t: seq<char>, u: seq<char>, w: seq<char>, c: Operation, d: Operation, num: seq<char> -> N)
    requires Numeral(t) && Numeral(u) && Numeral(w)
    ensures Parse(t + [CharOf(c)] + "(" + u + [CharOf(d)] + w + ")", Start<N>(), 100, num) ==
      Code([Constant(num(t)), Constant(num(u)), Constant(num(w)), Operator(d), Operator(c)])
  {
    hide Parse, CharOf, WellFormed, Postfix, Depth, Print, Tightness;
    NumIs(t, num);
    NumIs(u, num);
    NumIs(w, num);
    var f := Bin(d, Num(u), Num(w));
    BinIs(d, Num(u), Num(w), num);
    ParenIs(f, num);
    BinIs(c, Num(t), Paren(f), num);
    FiveCodes<Instr<N>>(Constant(num(t)), Constant(num(u)), Constant(num(w)), Operator(c), Operator(d));
    GroupRight(t, CharOf(c), "(", u, CharOf(d), w, ")");
    ShortTexts(Bin(c, Num(t), Paren(f)), num,
      [Constant(num(t)), Constant(num(u)), Constant(num(w)), Operator(d), Operator(c)]);
  }

  lemma {:induction false} SecondPoint(t: seq<char>, n: nat, dot: bool, k: nat)
    requires k < |t| && t[k] == '.' && n + k <= NUMBER_SIZE && forall i | 0 <= i < k :: InNumber(t[i])
    requires if dot then forall i | 0 <= i < k :: t[i] != '.'
             else exists j :: 0 <= j < k && t[j] == '.' && forall i | 0 <= i < k && i != j :: t[i] != '.'
    ensures ScanNumber(t, n, dot) == TwoDots
    decreases k
  {
    if k > 0 {
      var s := t[1..];
      assert forall i | 0 <= i < k :: s[i] == t[i + 1];
      if !dot && t[0] != '.' {
        var j :| 0 <= j < k && t[j] == '.' && forall i | 0 <= i < k && i != j :: t[i] != '.';
        assert s[j - 1] == '.';
      }
      SecondPoint(s, n + 1, dot || t[0] == '.', k - 1);
    }
  }

  /** A number with a second point is refused, whatever follows. */
  lemma TwoPoints<N>(t: seq<char>, j: nat, k: nat, st: PState<N>, max: nat, num: seq<char> -> N)
    requires 0 < j < k < |t| && k <= NUMBER_SIZE && t[j] == '.' && t[k] == '.' && |st.out| < max
    requires forall i | 0 <= i < k && i != j :: '0' <= t[i] <= '9'
    ensures Parse(t, st, max, num) == Failed(InvalidNumber)
  {
    SecondPoint(t, 0, false, k);
    ParseDigit(t, st, max, num);
    hide Parse, ScanNumber;
  }

  // ---------- texts that are no expressions ----------

  lemma {:induction false} PopOpsTotal<N>(st: PState<N>, p: int)
    ensures var r := PopOps(st, p);
      |r.out| + |r.stack| == |st.out| + |st.stack| && r.under == st.under && |r.stack| <= |st.stack|
    decreases |st.stack|
  {
    if st.stack != [] && p <= Precedence(st.stack[|st.stack| - 1]) {
      PopOpsTotal(st.(out := st.out + [st.stack[|st.stack| - 1]], stack := st.stack[..|st.stack| - 1]), p);
    }
  }

  /** Behind an expression, a character that means nothing there is refused, whatever follows. */
  lemma UnknownCharacter<N>(e: Expr, c: char, rest: seq<char>, num: seq<char> -> N)
    requires WellFormed(e) && |Postfix(e, num)| <= 99 && Depth(e) < 100
    requires !('0' <= c <= '9') && c !in ". ()+-*/%\0"
    ensures Parse(Print(e) + ([c] + rest), Start<N>(), 100, num) == Failed(InvalidCharacter)
  {
    hide Parse, Print, Depth, Pending, Emitted, Postfix, Reverse, PopOps, WellFormed;
    var st, t := After(e, Start<N>(), num), [c] + rest;
    Unknown(c);
    assert t[0] == c;
    Reads(e, t, Start<N>(), 100, num);
    EmittedPending(e, num);
    ReverseLength(Pending<N>(e));
    PendingFits<N>(e);
    PopOpsTotal(st, CharPrecedence(c));
    ParseOperator(t, st, 100, num);
  }

  lemma Unknown(c: char)
    requires !('0' <= c <= '9') && c !in ". ()+-*/%\0"
    ensures OperationOf(c) == None && !IsDigit(c) && !InNumber(c) && c !in {' ', '(', ')', '\0'}
  {
    var t := ". ()+-*/%\0";
    assert c != t[0] && c != t[1] && c != t[2] && c != t[3] && c != t[9];
    assert c != t[4] && c != t[5] && c != t[6] && c != t[7] && c != t[8];
  }

  /** A bracket that is not closed, or not opened, goes unnoticed: the value is that of the expression. */
  lemma LoneBracket<N>(e: Expr, num: seq<char> -> N, arith: (Operation, N, N) -> N, noMod: N)
    requires WellFormed(e) && |Postfix(e, num)| <= 99 && Depth(e) < 100 && Width(e) <= 50
    ensures Parse(['('] + Print(e), Start<N>(), 100, num) == Code(Postfix(e, num) + [BracketOpen])
    ensures Parse(Print(e) + [')'], Start<N>(), 100, num) == Code(Postfix(e, num))
    ensures Run(Postfix(e, num) + [BracketOpen], [], arith, noMod) == Value(ValueOf(e, num, arith, noMod))
    ensures Run(Postfix(e, num), [], arith, noMod) == Value(ValueOf(e, num, arith, noMod))
  {
    hide Parse, Print, Depth, Pending, Emitted, Postfix, Reverse, WellFormed, Width, ValueOf, Run;
    OpenedOnly(e, num);
    ClosedOnly(e, num);
    Evaluates(e, [BracketOpen], [], num, arith, noMod);
    Evaluates(e, [], [], num, arith, noMod);
    EndsWith(ValueOf(e, num, arith, noMod), arith, noMod);
    assert Postfix(e, num) + [] == Postfix(e, num);
  }

  lemma EndsWith<N>(v: N, arith: (Operation, N, N) -> N, noMod: N)
    ensures Run([], [] + [v], arith, noMod) == Value(v) && Run([BracketOpen], [] + [v], arith, noMod) == Value(v)
  {
    var code: seq<Instr<N>> := [BracketOpen];
    assert code[1..] == [];
  }

  lemma OpenedOnly<N>(e: Expr, num: seq<char> -> N)
    requires WellFormed(e) && |Postfix(e, num)| <= 99 && Depth(e) < 100
    ensures Parse(['('] + Print(e), Start<N>(), 100, num) == Code(Postfix(e, num) + [BracketOpen])
  {
    var open: seq<Instr<N>> := [BracketOpen];
    var st := PState([], open, 0);
    hide Parse, Print, Depth, Pending, Emitted, Postfix, Reverse, WellFormed;
    assert Push(Start<N>(), BracketOpen).stack == open;
    ReadsOpen(Print(e), Start<N>(), 100, num);
    assert Print(e) + [] == Print(e);
    Reads(e, [], st, 100, num);
    OpenedCode(e, num);
    AtEnd(After(e, st, num), 100, num);
  }

  lemma OpenedCode<N>(e: Expr, num: seq<char> -> N)
    ensures var st := After(e, PState([], [BracketOpen], 0), num);
      st.out + Reverse(st.stack) == Postfix(e, num) + [BracketOpen] && |st.out| + |st.stack| == |Postfix(e, num)| + 1
  {
    hide Pending, Emitted, Postfix, Reverse;
    EmittedPending(e, num);
    ReverseLength(Pending<N>(e));
    ReverseCons<Instr<N>>(BracketOpen, Pending<N>(e));
    assert [] + Emitted(e, num) == Emitted(e, num);
    JoinCode(Emitted(e, num), Reverse(Pending<N>(e)), [BracketOpen]);
  }

  lemma JoinCode<T>(s: seq<T>, t: seq<T>, u: seq<T>)
    ensures s + (t + u) == (s + t) + u
  {
  }

  lemma AtEnd<N>(st: PState<N>, max: nat, num: seq<char> -> N)
    requires |st.out| + |st.stack| <= max
    ensures Parse([], st, max, num) == Code(st.out + Reverse(st.stack))
  {
  }

  lemma ClosedOnly<N>(e: Expr, num: seq<char> -> N)
    requires WellFormed(e) && |Postfix(e, num)| <= 99 && Depth(e) < 100
    ensures Parse(Print(e) + [')'], Start<N>(), 100, num) == Code(Postfix(e, num))
  {
    var st, mid, tail := Start<N>(), After(e, Start<N>(), num), [')'];
    hide Parse, Print, Depth, Pending, Emitted, Postfix, Reverse, WellFormed, PopToBracket, Tight;
    Reads(e, tail, st, 100, num);
    EmittedPending(e, num);
    ReverseLength(Pending<N>(e));
    PendingTight<N>(e);
    assert [] + Pending<N>(e) == Pending<N>(e) && [] + Emitted(e, num) == Emitted(e, num);
    PopsAll(mid.out, Pending<N>(e), Tightness(e));
    assert tail == [')'] + [];
    ReadsClose([], mid, 100, num);
    AtEnd(DropBracket(PopToBracket(mid)), 100, num);
    ReverseNone<Instr<N>>();
    assert Postfix(e, num) + [] == Postfix(e, num);
  }

  lemma ReverseNone<T>()
    ensures Reverse<T>([]) == []
  {
  }

  /** Without an opening bracket on the stack a closing one takes all of it. */
  lemma {:induction false} PopsAll<N>(out: seq<Instr<N>>, ops: seq<Instr<N>>, p: int)
    requires Tight(ops, p)
    ensures PopToBracket(PState(out, ops, 0)) == PState(out + Reverse(ops), [], 0)
    decreases |ops|
  {
    if ops == [] {
      assert out + Reverse(ops) == out;
    } else {
      var k := |ops| - 1;
      hide Reverse;
      PopsAll(out + [ops[k]], ops[..k], p);
      FlushStep(out, ops, ops[k]);
    }
  }

  /** `n` times the digit and a space. */
  function Digits(n: nat): seq<char> { if n == 0 then [] else "1 " + Digits(n - 1) }

  lemma DigitsNext(n: nat)
    requires n > 0
    ensures Digits(n) == "1" + (" " + Digits(n - 1)) && " " + Digits(n - 1) == Spaces(1) + Digits(n - 1)
    ensures Digits(n)[0] == '1' && Ends(" " + Digits(n - 1)) && IsNumber("1", false)
  {
  }

  /** A hundred numbers fill the array for the code, and the space behind the last one is refused. */
  lemma {:induction false} TooManyNumbers<N>(n: nat, st: PState<N>, num: seq<char> -> N)
    requires |st.out| + n >= 100 && |st.out| <= 100
    ensures n > 0 ==> Parse(Digits(n), st, 100, num) == Failed(ResultFull)
    decreases n
  {
    hide Parse, Digits, Spaces, Ends, IsNumber;
    if n > 0 {
      DigitsNext(n);
      if |st.out| < 100 {
        var more, next := " " + Digits(n - 1), st.(out := st.out + [Constant(num("1"))]);
        ReadsNumber("1", more, st, 100, num);
        if |next.out| == 100 {
          OutFull(more, next, num);
        } else {
          SkipsSpaces(1, Digits(n - 1), next, 100, num);
          TooManyNumbers(n - 1, next, num);
        }
      } else {
        OutFull(Digits(n), st, num);
      }
    }
  }

  lemma OutFull<N>(t: seq<char>, st: PState<N>, num: seq<char> -> N)
    requires t != [] && t[0] != '\0' && |st.out| >= 100
    ensures Parse(t, st, 100, num) == Failed(ResultFull)
  {
  }

  /** An operator without two numbers before it, or no number at all, is an error of the run. */
  lemma TooFewNumbers<N>(a: N, op: Operation, rest: seq<Instr<N>>, arith: (Operation, N, N) -> N, noMod: N)
    ensures Run([], [], arith, noMod) == NotEnough
    ensures Run([Operator(op)] + rest, [], arith, noMod) == NotEnough
    ensures Run([Constant(a), Operator(op)] + rest, [], arith, noMod) == NotEnough
  {
    var code := [Constant(a), Operator(op)] + rest;
    assert code[1..] == [Operator(op)] + rest && [] + [a] == [a];
    assert ([Operator(op)] + rest)[0] == Operator(op);
  }

  // ---------- only the brackets that are needed ----------

  ghost predicate Bare(e: Expr) {
    match e
    case Num(t) => Numeral(t)
    case Bin(_, l, r) => Bare(l) && Bare(r)
    case _ => false
  }

  function Guard(e: Expr, needed: bool): Expr { if needed then Paren(e) else e }

  /** Puts brackets where precedence and associativity to the left need them, and nowhere else. */
  function Bracketed(e: Expr): Expr {
    match e
    case Bin(op, l, r) =>
      Bin(op, Guard(Bracketed(l), Tightness(l) < Level(op)), Guard(Bracketed(r), Tightness(r) <= Level(op)))
    case _ => e
  }

  /** Any tree can be written so that the compiler accepts it with the tree's meaning. */
  lemma {:induction false} BracketedMeansTheSame<N>(e: Expr, num: seq<char> -> N, arith: (Operation, N, N) -> N,
      noMod: N)
    requires Bare(e)
    ensures WellFormed(Bracketed(e)) && Tightness(Bracketed(e)) == Tightness(e)
    ensures Postfix(Bracketed(e), num) == Postfix(e, num) && Width(Bracketed(e)) == Width(e)
    ensures ValueOf(Bracketed(e), num, arith, noMod) == ValueOf(e, num, arith, noMod)
    ensures WellFormed(e) ==> Bracketed(e) == e
  {
    match e
    case Num(_) =>
    case Bin(_, l, r) =>
      BracketedMeansTheSame(l, num, arith, noMod);
      BracketedMeansTheSame(r, num, arith, noMod);
  }

  /** Texts are unambiguous: two expressions written the same way have the same code. */
  lemma Unambiguous<N>(e: Expr, f: Expr, num: seq<char> -> N)
    requires WellFormed(e) && WellFormed(f) && Print(e) == Print(f)
    requires Depth(e) <= STACK_SIZE && Depth(f) <= STACK_SIZE
    ensures Postfix(e, num) == Postfix(f, num)
  {
    var max := |Postfix(e, num)| + |Postfix(f, num)| + 1;
    hide Parse, Postfix, Depth, WellFormed;
    Compiles(e, [], max, num);
    Compiles(f, [], max, num);
  }
}
