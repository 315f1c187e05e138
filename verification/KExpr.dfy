/**
 ext/klib/kexpr.c: the operator-precedence parser from tokens to postfix code, and the
 stack machine that evaluates the code. Values and operator meanings are parameters.
 */
module KExpr {

  datatype Op =
    | Pos | Neg | BNot | LNot
    | Pow | Mul | Div | IDiv | Mod | Add | Sub | Lsh | Rsh
    | Lt | Le | Gt | Ge | Eq | Ne | BAnd | BXor | BOr | LAnd | LOr

  /** The table `ke_op`: twice the precedence level, plus one for right-associative operators. */
  function KeOp(op: Op): nat {
    match op
    case Pos | Neg | BNot | LNot => 3
    case Pow => 5
    case Mul | Div | IDiv | Mod => 6
    case Add | Sub => 8
    case Lsh | Rsh => 10
    case Lt | Le | Gt | Ge => 12
    case Eq | Ne => 14
    case BAnd => 16
    case BXor => 18
    case BOr => 20
    case LAnd => 22
    case LOr => 24
  }

  function Level(op: Op): nat { KeOp(op) / 2 }

  predicate RightAssoc(op: Op) { KeOp(op) % 2 == 1 }

  predicate IsUnary(op: Op) { op.Pos? || op.Neg? || op.BNot? || op.LNot? }

  function NArgs(op: Op): nat { if IsUnary(op) then 1 else 2 }

  /** What is written: plus and minus are one symbol each, whether unary or binary. */
  datatype Symbol = Plus | Minus | Plain(op: Op)

  datatype Token<V> = LParen | RParen | Val(v: V) | Sym(sym: Symbol)

  /** Which operator a symbol is, given whether the last thing read was a value. */
  function Resolve(sym: Symbol, lastIsVal: bool): Op {
    match sym
    case Plus => if lastIsVal then Add else Pos
    case Minus => if lastIsVal then Sub else Neg
    case Plain(op) => op
  }

  datatype Code<V> = Push(v: V) | Apply(op: Op)

  datatype Item = Paren | Oper(op: Op)

  datatype Error = ExtraRightParen | UnmatchedLeftParen | WrongArgs

  datatype Result<V> = Ok(code: seq<Code<V>>) | Err(error: Error)

  // ---- the parser as a function -----------------------------------------------

  datatype Stacks<V> = Stacks(out: seq<Code<V>>, ops: seq<Item>)

  /** `top` stays on the stack when `op` arrives. */
  predicate Stays(top: Op, op: Op) {
    (RightAssoc(op) && Level(op) <= Level(top)) || (!RightAssoc(op) && Level(op) < Level(top))
  }

  datatype Incoming = Closing | Operator(op: Op)

  predicate Pops(top: Item, arriving: Incoming) {
    top.Oper? && (arriving.Operator? ==> !Stays(top.op, arriving.op))
  }

  /** Move operators to the output as long as what arrives pops them. */
  function Unwind<V>(s: Stacks<V>, arriving: Incoming): Stacks<V>
    decreases |s.ops|
  {
    if s.ops != [] && Pops(s.ops[|s.ops| - 1], arriving) then
      Unwind(Stacks(s.out + [Apply(s.ops[|s.ops| - 1].op)], s.ops[..|s.ops| - 1]), arriving)
    else
      s
  }

  /** How many values the code leaves, going by argument counts alone. */
  function Balance<V>(code: seq<Code<V>>): int {
    if code == [] then 0
    else Balance(code[..|code| - 1]) + match code[|code| - 1] case Push(_) => 1 case Apply(op) => 1 - NArgs(op)
  }

  function Finish<V>(s: Stacks<V>): Result<V> {
    var t := Unwind(s, Closing);
    if t.ops != [] then Err(UnmatchedLeftParen)
    else if Balance(t.out) != 1 then Err(WrongArgs)
    else Ok(t.out)
  }

  function Parse<V>(toks: seq<Token<V>>, s: Stacks<V>, lastIsVal: bool): Result<V> {
    if toks == [] then Finish(s)
    else
      match toks[0]
      case LParen => Parse(toks[1..], s.(ops := s.ops + [Paren]), lastIsVal)
      case RParen =>
        var t := Unwind(s, Closing);
        if t.ops == [] then Err(ExtraRightParen)
        else Parse(toks[1..], t.(ops := t.ops[..|t.ops| - 1]), lastIsVal)
      case Val(v) => Parse(toks[1..], s.(out := s.out + [Push(v)]), true)
      case Sym(sym) =>
        var op := Resolve(sym, lastIsVal);
        var t := Unwind(s, Operator(op));
        Parse(toks[1..], t.(ops := t.ops + [Oper(op)]), false)
  }

  // ---- the parser as written --------------------------------------------------

  method ParseCore<V>(toks: seq<Token<V>>) returns (r: Result<V>)
    ensures r == Parse(toks, Stacks([], []), false)
  {
    var out: seq<Code<V>>, op: seq<Item> := [], [];
    var lastIsVal := false;
    var p := 0;
    while p < |toks|
      invariant 0 <= p <= |toks|
      invariant Parse(toks, Stacks([], []), false) == Parse(toks[p..], Stacks(out, op), lastIsVal)
    {
      assert toks[p..][1..] == toks[p + 1..];
      hide Unwind, Resolve;
      match toks[p] {
        case LParen =>
          op := op + [Paren];
        case RParen =>
          out, op := PopGroup(out, op);
          if |op| == 0 {
            return Err(ExtraRightParen);
          }
          op := op[..|op| - 1];
        case Val(v) =>
          out := out + [Push(v)];
          lastIsVal := true;
        case Sym(sym) =>
          var v := Resolve(sym, lastIsVal);
          out, op := PopFor(out, op, v);
          op := op + [Oper(v)];
          lastIsVal := false;
      }
      p := p + 1;
    }
    out, op := PopGroup(out, op);
    if |op| > 0 {
      return Err(UnmatchedLeftParen);
    }
    var n := Left(out);
    return if n != 1 then Err(WrongArgs) else Ok(out);
  }

  /** Operators back to the last left parenthesis, or all of them. */
  method PopGroup<V>(out0: seq<Code<V>>, op0: seq<Item>) returns (out: seq<Code<V>>, op: seq<Item>)
    ensures Stacks(out, op) == Unwind(Stacks(out0, op0), Closing)
  {
    out, op := out0, op0;
    while |op| > 0 && op[|op| - 1].Oper?
      invariant Unwind(Stacks(out0, op0), Closing) == Unwind(Stacks(out, op), Closing)
      decreases |op|
    {
      out, op := out + [Apply(op[|op| - 1].op)], op[..|op| - 1];
    }
  }

  /** Operators that do not stay when `v` arrives. */
  method PopFor<V>(out0: seq<Code<V>>, op0: seq<Item>, v: Op) returns (out: seq<Code<V>>, op: seq<Item>)
    ensures Stacks(out, op) == Unwind(Stacks(out0, op0), Operator(v))
  {
    out, op := out0, op0;
    while |op| > 0 && op[|op| - 1].Oper? && !Stays(op[|op| - 1].op, v)
      invariant Unwind(Stacks(out0, op0), Operator(v)) == Unwind(Stacks(out, op), Operator(v))
      decreases |op|
    {
      out, op := out + [Apply(op[|op| - 1].op)], op[..|op| - 1];
    }
  }

  /** How many values the code leaves: the check at the end of `ke_parse_core`. */
  method Left<V>(out: seq<Code<V>>) returns (n: int)
    ensures n == Balance(out)
  {
    var i := 0;
    n := 0;
    while i < |out|
      invariant 0 <= i <= |out| && n == Balance(out[..i])
    {
      assert out[..i + 1][..i] == out[..i];
      n := match out[i] case Push(_) => n + 1 case Apply(op) => n - (NArgs(op) - 1);
      i := i + 1;
    }
    assert out[..i] == out;
  }

  // ---- expressions and how they are written -----------------------------------

  datatype Expr<V> =
    | Leaf(v: V)
    | Un(op: Op, arg: Expr<V>)
    | Bin(op: Op, left: Expr<V>, right: Expr<V>)
    | Group(inner: Expr<V>)

  /** The level of the outermost operator; 0 for what needs no parentheses anywhere. */
  function Outer<V>(e: Expr<V>): nat {
    match e
    case Leaf(_) => 0
    case Group(_) => 0
    case Un(op, _) => Level(op)
    case Bin(op, _, _) => Level(op)
  }

  /** Operators have the right number of arguments, and every argument that binds too weakly is parenthesised. */
  predicate WellWritten<V>(e: Expr<V>) {
    match e
    case Leaf(_) => true
    case Group(x) => WellWritten(x)
    case Un(op, x) => IsUnary(op) && WellWritten(x) && Outer(x) <= Level(op)
    case Bin(op, l, r) =>
      && !IsUnary(op) && WellWritten(l) && WellWritten(r)
      && (if RightAssoc(op) then Outer(l) < Level(op) else Outer(l) <= Level(op))
      && (if RightAssoc(op) then Outer(r) <= Level(op) else Outer(r) < Level(op))
  }

  function SymbolOf(op: Op): Symbol {
    match op
    case Pos | Add => Plus
    case Neg | Sub => Minus
    case _ => Plain(op)
  }

  function Print<V>(e: Expr<V>): seq<Token<V>> {
    match e
    case Leaf(v) => [Val(v)]
    case Group(x) => [LParen] + Print(x) + [RParen]
    case Un(op, x) => [Sym(SymbolOf(op))] + Print(x)
    case Bin(op, l, r) => Print(l) + [Sym(SymbolOf(op))] + Print(r)
  }

  function Postorder<V>(e: Expr<V>): seq<Code<V>> {
    match e
    case Leaf(v) => [Push(v)]
    case Group(x) => Postorder(x)
    case Un(op, x) => Postorder(x) + [Apply(op)]
    case Bin(op, l, r) => Postorder(l) + Postorder(r) + [Apply(op)]
  }

  // ---- the parser inverts the printer -----------------------------------------

  /** The operators left on the stack after reading an expression: its right spine. */
  function Spine<V>(e: Expr<V>): seq<Op> {
    match e
    case Leaf(_) => []
    case Group(_) => []
    case Un(op, x) => [op] + Spine(x)
    case Bin(op, _, r) => [op] + Spine(r)
  }

  /** The code already output by then. */
  function Emitted<V>(e: Expr<V>): seq<Code<V>> {
    match e
    case Leaf(v) => [Push(v)]
    case Group(x) => Postorder(x)
    case Un(_, x) => Emitted(x)
    case Bin(_, l, r) => Postorder(l) + Emitted(r)
  }

  function Items(ops: seq<Op>): (r: seq<Item>)
    ensures |r| == |ops| && forall i :: 0 <= i < |r| ==> r[i] == Oper(ops[i])
  {
    seq(|ops|, i requires 0 <= i < |ops| => Oper(ops[i]))
  }

  /** The code for a stack of operators, top first. */
  function Unstacked<V>(ops: seq<Op>): seq<Code<V>> {
    if ops == [] then [] else [Apply(ops[|ops| - 1])] + Unstacked(ops[..|ops| - 1])
  }

  lemma {:induction false} UnstackedCons<V>(op: Op, ops: seq<Op>)
    ensures Unstacked<V>([op] + ops) == Unstacked<V>(ops) + [Apply(op)]
  {
    if ops == [] {
      assert [op] + ops == [op];
    } else {
      var m := |ops| - 1;
      assert ([op] + ops)[..m + 1] == [op] + ops[..m];
      UnstackedCons<V>(op, ops[..m]);
    }
  }

  lemma {:induction false} SpineCompletes<V>(e: Expr<V>)
    ensures Emitted(e) + Unstacked<V>(Spine(e)) == Postorder(e)
  {
    match e
    case Leaf(_) =>
    case Group(_) =>
    case Un(op, x) =>
      SpineCompletes(x);
      UnstackedCons<V>(op, Spine(x));
    case Bin(op, l, r) =>
      SpineCompletes(r);
      UnstackedCons<V>(op, Spine(r));
  }

  /** Levels fall from the bottom of the stack to its top; operators of one level may follow each other if they associate to the right. */
  predicate Falling(ops: seq<Op>) {
    forall i :: 0 <= i < |ops| - 1 ==>
      Level(ops[i + 1]) < Level(ops[i]) || (Level(ops[i + 1]) == Level(ops[i]) && RightAssoc(ops[i + 1]))
  }

  lemma {:induction false} SpineLevels<V>(e: Expr<V>)
    requires WellWritten(e)
    ensures Falling(Spine(e))
    ensures Spine(e) != [] ==> Level(Spine(e)[0]) == Outer(e)
    ensures forall i :: 0 <= i < |Spine(e)| ==> Level(Spine(e)[i]) <= Outer(e)
  {
    match e
    case Leaf(_) =>
    case Group(_) =>
    case Un(op, x) =>
      SpineLevels(x);
      FallingCons(op, Spine(x));
    case Bin(op, _, r) =>
      SpineLevels(r);
      FallingCons(op, Spine(r));
  }

  lemma FallingCons(op: Op, ops: seq<Op>)
    requires Falling(ops)
    requires ops != [] ==> Level(ops[0]) < Level(op) || (Level(ops[0]) == Level(op) && RightAssoc(ops[0]))
    ensures Falling([op] + ops)
  {
    hide Level, RightAssoc;
    var all := [op] + ops;
    forall i | 0 <= i < |all| - 1
      ensures Level(all[i + 1]) < Level(all[i]) || (Level(all[i + 1]) == Level(all[i]) && RightAssoc(all[i + 1]))
    {
      assert all[i + 1] == ops[i] && (i > 0 ==> all[i] == ops[i - 1]);
    }
  }

  lemma UnwindStep<V>(out: seq<Code<V>>, below: seq<Item>, op: Op, arriving: Incoming)
    requires Pops(Oper(op), arriving)
    ensures Unwind(Stacks(out, below + [Oper(op)]), arriving) == Unwind(Stacks(out + [Apply(op)], below), arriving)
  {
    hide Pops;
    assert (below + [Oper(op)])[..|below|] == below;
  }

  lemma UnwindStops<V>(s: Stacks<V>, arriving: Incoming)
    requires s.ops != [] ==> !Pops(s.ops[|s.ops| - 1], arriving)
    ensures Unwind(s, arriving) == s
  {
  }

  lemma UnstackedLast<V>(out: seq<Code<V>>, ops: seq<Op>)
    requires ops != []
    ensures var m := |ops| - 1;
      out + [Apply(ops[m])] + Unstacked<V>(ops[..m]) == out + Unstacked<V>(ops)
  {
    var m := |ops| - 1;
    Appended(out, [Apply(ops[m])], Unstacked<V>(ops[..m]));
  }

  lemma Appended<T>(a: seq<T>, b: seq<T>, c: seq<T>)
    ensures a + b + c == a + (b + c)
  {
  }

  lemma ItemsLast(below: seq<Item>, ops: seq<Op>)
    requires ops != []
    ensures var m := |ops| - 1;
      below + Items(ops) == (below + Items(ops[..m])) + [Oper(ops[m])]
  {
  }

  /** An operator that pops every operator of a stack segment moves the segment to the output. */
  lemma {:induction false} UnwindSegment<V>(out: seq<Code<V>>, below: seq<Item>, ops: seq<Op>, arriving: Incoming)
    requires forall i :: 0 <= i < |ops| ==> Pops(Oper(ops[i]), arriving)
    requires below != [] ==> !Pops(below[|below| - 1], arriving)
    ensures Unwind(Stacks(out, below + Items(ops)), arriving) == Stacks(out + Unstacked<V>(ops), below)
    decreases |ops|
  {
    hide Pops, Unwind;
    if ops == [] {
      assert below + Items(ops) == below;
      UnwindStops(Stacks(out, below), arriving);
      assert out + Unstacked<V>(ops) == out;
    } else {
      var m := |ops| - 1;
      ItemsLast(below, ops);
      UnwindStep(out, below + Items(ops[..m]), ops[m], arriving);
      UnwindSegment(out + [Apply(ops[m])], below, ops[..m], arriving);
      UnstackedLast(out, ops);
    }
  }

  /** No operator of level at most `level` pops the top of this stack. */
  predicate Guarded(ops: seq<Item>, level: nat) {
    ops == [] || match ops[|ops| - 1]
                 case Paren => true
                 case Oper(c) => level < Level(c) || (level == Level(c) && RightAssoc(c))
  }

  lemma GuardedStays(ops: seq<Item>, level: nat, op: Op)
    requires Guarded(ops, level) && Level(op) <= level
    ensures ops != [] ==> !Pops(ops[|ops| - 1], Operator(op))
  {
  }

  /** Reading a well-written operand emits its code except for its right spine, which stays stacked. */
  lemma {:induction false} ReadOperand<V>(e: Expr<V>, rest: seq<Token<V>>, out: seq<Code<V>>, ops: seq<Item>)
    requires WellWritten(e) && Guarded(ops, Outer(e))
    ensures Parse(Print(e) + rest, Stacks(out, ops), false)
         == Parse(rest, Stacks(out + Emitted(e), ops + Items(Spine(e))), true)
    decreases e, 1
  {
    var toks := Print(e) + rest;
    match e
    case Leaf(v) =>
      assert toks[1..] == rest;
      assert ops + Items([]) == ops;
    case Group(x) =>
      ReadGroup(x, rest, out, ops);
      assert ops + Items([]) == ops;
    case Un(op, x) =>
      ReadUnary(op, x, rest, out, ops);
    case Bin(op, l, r) =>
      ReadBinary(op, l, r, rest, out, ops);
  }

  lemma {:induction false} ReadGroup<V>(x: Expr<V>, rest: seq<Token<V>>, out: seq<Code<V>>, ops: seq<Item>)
    requires WellWritten(x)
    ensures Parse(Print(Group(x)) + rest, Stacks(out, ops), false) == Parse(rest, Stacks(out + Postorder(x), ops), true)
    decreases x, 2
  {
    hide Emitted, Spine, Postorder, Unwind, WellWritten, Unstacked;
    var toks := Print(Group(x)) + rest;
    assert toks[1..] == Print(x) + ([RParen] + rest);
    ReadOperand(x, [RParen] + rest, out, ops + [Paren]);
    ClosingArrives(x, rest, out, ops);
  }

  /** A right parenthesis after a parenthesised expression pops the expression's spine and the left parenthesis. */
  lemma ClosingArrives<V>(x: Expr<V>, rest: seq<Token<V>>, out: seq<Code<V>>, ops: seq<Item>)
    ensures Parse([RParen] + rest, Stacks(out + Emitted(x), ops + [Paren] + Items(Spine(x))), true)
         == Parse(rest, Stacks(out + Postorder(x), ops), true)
  {
    hide Emitted, Spine, Postorder, Unwind, Unstacked;
    var toks := [RParen] + rest;
    assert toks[1..] == rest;
    UnwindSegment(out + Emitted(x), ops + [Paren], Spine(x), Closing);
    SpineCompletes(x);
    assert out + Emitted(x) + Unstacked<V>(Spine(x)) == out + Postorder(x);
    assert (ops + [Paren])[..|ops|] == ops;
  }

  lemma {:induction false} ReadUnary<V>(op: Op, x: Expr<V>, rest: seq<Token<V>>, out: seq<Code<V>>, ops: seq<Item>)
    requires WellWritten(Un(op, x))
    ensures Parse(Print(Un(op, x)) + rest, Stacks(out, ops), false)
         == Parse(rest, Stacks(out + Emitted(x), ops + Items([op] + Spine(x))), true)
    decreases x, 2
  {
    hide Emitted, Spine, Unwind;
    var toks := Print(Un(op, x)) + rest;
    assert toks[1..] == Print(x) + rest;
    UnaryArrives(op, ops);
    UnwindStops(Stacks(out, ops), Operator(op));
    ReadOperand(x, rest, out, ops + [Oper(op)]);
    assert ops + [Oper(op)] + Items(Spine(x)) == ops + Items([op] + Spine(x));
  }

  /** A unary operator pops nothing. */
  lemma UnaryArrives(op: Op, ops: seq<Item>)
    requires IsUnary(op)
    ensures Resolve(SymbolOf(op), false) == op
    ensures ops != [] ==> !Pops(ops[|ops| - 1], Operator(op))
  {
  }

  /** A binary operator after its left operand pops the operand's spine and nothing below. */
  lemma OperatorArrives<V>(op: Op, l: Expr<V>, rest: seq<Token<V>>, out: seq<Code<V>>, ops: seq<Item>)
    requires !IsUnary(op) && WellWritten(l) && Guarded(ops, Level(op))
    requires if RightAssoc(op) then Outer(l) < Level(op) else Outer(l) <= Level(op)
    ensures Parse([Sym(SymbolOf(op))] + rest, Stacks(out + Emitted(l), ops + Items(Spine(l))), true)
         == Parse(rest, Stacks(out + Postorder(l), ops + [Oper(op)]), false)
  {
    hide Guarded, WellWritten, Unstacked, Emitted, Spine, Postorder, Unwind;
    var toks := [Sym(SymbolOf(op))] + rest;
    assert toks[1..] == rest;
    assert Resolve(SymbolOf(op), true) == op;
    SpineLevels(l);
    GuardedStays(ops, Level(op), op);
    UnwindSegment(out + Emitted(l), ops, Spine(l), Operator(op));
    SpineCompletes(l);
    assert out + Emitted(l) + Unstacked<V>(Spine(l)) == out + Postorder(l);
  }

  lemma {:induction false} ReadBinary<V>(op: Op, l: Expr<V>, r: Expr<V>, rest: seq<Token<V>>, out: seq<Code<V>>, ops: seq<Item>)
    requires WellWritten(Bin(op, l, r)) && Guarded(ops, Level(op))
    ensures Parse(Print(Bin(op, l, r)) + rest, Stacks(out, ops), false)
         == Parse(rest, Stacks(out + (Postorder(l) + Emitted(r)), ops + Items([op] + Spine(r))), true)
    decreases Bin(op, l, r), 0
  {
    hide Parse, Emitted, Spine, Postorder;
    var afterOp := Print(r) + rest;
    var afterLeft := [Sym(SymbolOf(op))] + afterOp;
    assert Print(Bin(op, l, r)) + rest == Print(l) + afterLeft;
    ReadOperand(l, afterLeft, out, ops);
    OperatorArrives(op, l, afterOp, out, ops);
    ReadOperand(r, rest, out + Postorder(l), ops + [Oper(op)]);
    assert out + Postorder(l) + Emitted(r) == out + (Postorder(l) + Emitted(r));
    assert ops + [Oper(op)] + Items(Spine(r)) == ops + Items([op] + Spine(r));
  }

  lemma {:induction false} PostorderBalance<V>(e: Expr<V>, before: seq<Code<V>>)
    requires WellWritten(e)
    ensures Balance(before + Postorder(e)) == Balance(before) + 1
  {
    match e
    case Leaf(v) =>
      assert (before + [Push(v)])[..|before|] == before;
    case Group(x) =>
      PostorderBalance(x, before);
    case Un(op, x) =>
      PostorderBalance(x, before);
      assert (before + Postorder(e))[..|before + Postorder(x)|] == before + Postorder(x);
    case Bin(op, l, r) =>
      PostorderBalance(l, before);
      PostorderBalance(r, before + Postorder(l));
      assert (before + Postorder(e))[..|before + Postorder(l) + Postorder(r)|] == before + Postorder(l) + Postorder(r);
  }

  /** The parser turns every well-written expression into exactly its postorder. */
  lemma ParsePrinted<V>(e: Expr<V>)
    requires WellWritten(e)
    ensures Parse(Print(e), Stacks([], []), false) == Ok(Postorder(e))
  {
    hide Guarded, Unwind, Postorder, Emitted, Spine, Unstacked;
    assert Print(e) + [] == Print(e);
    assert Guarded([], Outer(e)) by { GuardedEmpty(Outer(e)); }
    ReadOperand(e, [], [], []);
    assert [] + Items(Spine(e)) == Items(Spine(e));
    forall i | 0 <= i < |Spine(e)|
      ensures Pops(Oper(Spine(e)[i]), Closing)
    {
    }
    UnwindSegment([] + Emitted(e), [], Spine(e), Closing);
    SpineCompletes(e);
    PostorderBalance(e, []);
    assert [] + Postorder(e) == Postorder(e);
    assert [] + Emitted(e) + Unstacked<V>(Spine(e)) == Postorder(e);
  }

  lemma GuardedEmpty(level: nat)
    ensures Guarded([], level)
  {
  }

  // ---- parentheses only where needed ------------------------------------------

  // ---- which operator binds tighter ------------------------------------------------

  /** The classes of operators, from the tightest: unary, power, product, sum, shift, order, equality, and the bitwise and logical ones. */
  function Class(op: Op): nat {
    match op
    case Pos | Neg | BNot | LNot => 1
    case Pow => 2
    case Mul | Div | IDiv | Mod => 3
    case Add | Sub => 4
    case Lsh | Rsh => 5
    case Lt | Le | Gt | Ge => 6
    case Eq | Ne => 7
    case BAnd => 8
    case BXor => 9
    case BOr => 10
    case LAnd => 11
    case LOr => 12
  }

  /** Of two operators in a row the tighter one is applied first; within a class it is the first one, save for powers. */
  lemma TwoOperators<V>(f: Op, g: Op, a: V, b: V, c: V)
    requires !IsUnary(f) && !IsUnary(g)
    ensures Parse([Val(a), Sym(SymbolOf(f)), Val(b), Sym(SymbolOf(g)), Val(c)], Stacks([], []), false) ==
      if Class(f) < Class(g) || (Class(f) == Class(g) && f != Pow)
      then Ok([Push(a), Push(b), Apply(f), Push(c), Apply(g)])
      else Ok([Push(a), Push(b), Push(c), Apply(g), Apply(f)])
  {
    TableSays(f);
    TableSays(g);
    hide *;
    WrittenLeaf(a);
    WrittenLeaf(b);
    WrittenLeaf(c);
    if Class(f) < Class(g) || (Class(f) == Class(g) && f != Pow) {
      WrittenBin(f, Leaf(a), Leaf(b));
      WrittenBin(g, Bin(f, Leaf(a), Leaf(b)), Leaf(c));
      var e := Bin(g, Bin(f, Leaf(a), Leaf(b)), Leaf(c));
      ParsePrinted(e);
      assert Print(e) == [Val(a), Sym(SymbolOf(f)), Val(b), Sym(SymbolOf(g)), Val(c)];
      assert Postorder(e) == [Push(a), Push(b), Apply(f), Push(c), Apply(g)];
    } else {
      WrittenBin(g, Leaf(b), Leaf(c));
      WrittenBin(f, Leaf(a), Bin(g, Leaf(b), Leaf(c)));
      var e := Bin(f, Leaf(a), Bin(g, Leaf(b), Leaf(c)));
      ParsePrinted(e);
      assert Print(e) == [Val(a), Sym(SymbolOf(f)), Val(b), Sym(SymbolOf(g)), Val(c)];
      assert Postorder(e) == [Push(a), Push(b), Push(c), Apply(g), Apply(f)];
    }
  }

  lemma WrittenLeaf<V>(v: V)
    ensures WellWritten(Leaf(v)) && Outer(Leaf(v)) == 0 && Print(Leaf(v)) == [Val(v)] && Postorder(Leaf(v)) == [Push(v)]
  {
  }

  lemma WrittenUn<V>(op: Op, x: Expr<V>)
    requires IsUnary(op) && WellWritten(x) && Outer(x) <= Level(op)
    ensures WellWritten(Un(op, x)) && Outer(Un(op, x)) == Level(op)
    ensures Print(Un(op, x)) == [Sym(SymbolOf(op))] + Print(x) && Postorder(Un(op, x)) == Postorder(x) + [Apply(op)]
  {
  }

  lemma WrittenBin<V>(op: Op, l: Expr<V>, r: Expr<V>)
    requires !IsUnary(op) && WellWritten(l) && WellWritten(r)
    requires if RightAssoc(op) then Outer(l) < Level(op) && Outer(r) <= Level(op) else Outer(l) <= Level(op) && Outer(r) < Level(op)
    ensures WellWritten(Bin(op, l, r)) && Outer(Bin(op, l, r)) == Level(op)
    ensures Print(Bin(op, l, r)) == Print(l) + [Sym(SymbolOf(op))] + Print(r)
    ensures Postorder(Bin(op, l, r)) == Postorder(l) + Postorder(r) + [Apply(op)]
  {
  }

  /** What the table says of an operator. */
  lemma TableSays(f: Op)
    ensures Level(f) == Class(f) >= 1 && (RightAssoc(f) <==> Class(f) <= 2)
    ensures IsUnary(f) <==> Class(f) == 1
    ensures f == Pow <==> Class(f) == 2
  {
  }

  /** A unary operator is applied before a binary one on either side of its operand. */
  lemma UnaryFirst<V>(u: Op, g: Op, a: V, b: V)
    requires IsUnary(u) && !IsUnary(g)
    ensures Parse([Sym(SymbolOf(u)), Val(a), Sym(SymbolOf(g)), Val(b)], Stacks([], []), false) ==
      Ok([Push(a), Apply(u), Push(b), Apply(g)])
    ensures Parse([Val(a), Sym(SymbolOf(g)), Sym(SymbolOf(u)), Val(b)], Stacks([], []), false) ==
      Ok([Push(a), Push(b), Apply(u), Apply(g)])
  {
    TableSays(u);
    TableSays(g);
    hide *;
    WrittenLeaf(a);
    WrittenLeaf(b);
    WrittenUn(u, Leaf(a));
    WrittenBin(g, Un(u, Leaf(a)), Leaf(b));
    WrittenUn(u, Leaf(b));
    WrittenBin(g, Leaf(a), Un(u, Leaf(b)));
    var e, d := Bin(g, Un(u, Leaf(a)), Leaf(b)), Bin(g, Leaf(a), Un(u, Leaf(b)));
    ParsePrinted(e);
    ParsePrinted(d);
    assert Print(e) == [Sym(SymbolOf(u)), Val(a), Sym(SymbolOf(g)), Val(b)];
    assert Print(d) == [Val(a), Sym(SymbolOf(g)), Sym(SymbolOf(u)), Val(b)];
    assert Postorder(e) == [Push(a), Apply(u), Push(b), Apply(g)];
    assert Postorder(d) == [Push(a), Push(b), Apply(u), Apply(g)];
  }

  // ---- which inputs are refused ----------------------------------------------------

  /** What is wrong with the parentheses of `toks`, `depth` of which are open already. */
  function ParenError<V>(toks: seq<Token<V>>, depth: nat): Option<Error> {
    if toks == [] then if depth > 0 then Some(UnmatchedLeftParen) else None
    else match toks[0]
         case LParen => ParenError(toks[1..], depth + 1)
         case RParen => if depth == 0 then Some(ExtraRightParen) else ParenError(toks[1..], depth - 1)
         case _ => ParenError(toks[1..], depth)
  }

  function Parens(ops: seq<Item>): nat {
    if ops == [] then 0 else Parens(ops[..|ops| - 1]) + if ops[|ops| - 1].Paren? then 1 else 0
  }

  /** Unwinding takes no parenthesis off the stack, and stops only at one when it is for a closing one. */
  lemma {:induction false} UnwindParens<V>(s: Stacks<V>, arriving: Incoming)
    ensures var t := Unwind(s, arriving);
      && Parens(t.ops) == Parens(s.ops)
      && (arriving.Closing? && t.ops != [] ==> t.ops[|t.ops| - 1].Paren?)
    decreases |s.ops|
  {
    if s.ops != [] && Pops(s.ops[|s.ops| - 1], arriving) {
      UnwindParens(Stacks(s.out + [Apply(s.ops[|s.ops| - 1].op)], s.ops[..|s.ops| - 1]), arriving);
    }
  }

  /** A parenthesis that does not match is reported, the first one to close too much or else one left open; all other errors are a wrong number of arguments. */
  lemma {:induction false} ParseRefuses<V>(toks: seq<Token<V>>, s: Stacks<V>, lastIsVal: bool)
    ensures match ParenError(toks, Parens(s.ops))
            case Some(error) => Parse(toks, s, lastIsVal) == Err(error)
            case None => Parse(toks, s, lastIsVal).Ok? || Parse(toks, s, lastIsVal) == Err(WrongArgs)
    decreases |toks|
  {
    UnwindParens(s, Closing);
    hide Unwind, Resolve, Balance, Parens;
    NoParens();
    if toks != [] {
      match toks[0]
      case LParen =>
        OneMore(s.ops, Paren);
        ParseRefuses(toks[1..], Stacks(s.out, s.ops + [Paren]), lastIsVal);
      case RParen =>
        var t := Unwind(s, Closing);
        if t.ops != [] {
          OneLess(t.ops);
          ParseRefuses(toks[1..], Stacks(t.out, t.ops[..|t.ops| - 1]), lastIsVal);
        }
      case Val(v) =>
        ParseRefuses(toks[1..], Stacks(s.out + [Push(v)], s.ops), true);
      case Sym(sym) =>
        var op := Resolve(sym, lastIsVal);
        UnwindParens(s, Operator(op));
        var t := Unwind(s, Operator(op));
        OneMore(t.ops, Oper(op));
        ParseRefuses(toks[1..], Stacks(t.out, t.ops + [Oper(op)]), false);
    } else {
      var t := Unwind(s, Closing);
      if t.ops != [] {
        OneLess(t.ops);
      }
    }
  }

  lemma NoParens()
    ensures Parens([]) == 0
  {
  }

  lemma OneMore(ops: seq<Item>, item: Item)
    ensures Parens(ops + [item]) == Parens(ops) + if item.Paren? then 1 else 0
  {
    assert (ops + [item])[..|ops|] == ops;
  }

  lemma OneLess(ops: seq<Item>)
    requires ops != []
    ensures var m := |ops| - 1;
      Parens(ops) == Parens(ops[..m]) + if ops[m].Paren? then 1 else 0
  {
  }

  /** An expression without parentheses; the tree itself says what belongs to what. */
  predicate IsTree<V>(e: Expr<V>) {
    match e
    case Leaf(_) => true
    case Group(_) => false
    case Un(op, x) => IsUnary(op) && IsTree(x)
    case Bin(op, l, r) => !IsUnary(op) && IsTree(l) && IsTree(r)
  }

  function Strip<V>(e: Expr<V>): Expr<V> {
    match e
    case Leaf(_) => e
    case Group(x) => Strip(x)
    case Un(op, x) => Un(op, Strip(x))
    case Bin(op, l, r) => Bin(op, Strip(l), Strip(r))
  }

  function GroupIf<V>(needed: bool, e: Expr<V>): Expr<V> {
    if needed then Group(e) else e
  }

  /** Parentheses around exactly the operands that bind too weakly. */
  function Parenthesise<V>(t: Expr<V>): Expr<V> {
    match t
    case Leaf(_) => t
    case Group(x) => Group(Parenthesise(x))
    case Un(op, x) => Un(op, GroupIf(Outer(x) > Level(op), Parenthesise(x)))
    case Bin(op, l, r) =>
      Bin(op,
          GroupIf(if RightAssoc(op) then Outer(l) >= Level(op) else Outer(l) > Level(op), Parenthesise(l)),
          GroupIf(if RightAssoc(op) then Outer(r) > Level(op) else Outer(r) >= Level(op), Parenthesise(r)))
  }

  lemma {:induction false} Parenthesised<V>(t: Expr<V>)
    requires IsTree(t)
    ensures WellWritten(Parenthesise(t)) && Outer(Parenthesise(t)) == Outer(t)
    ensures Strip(Parenthesise(t)) == t && Postorder(Parenthesise(t)) == Postorder(t)
  {
    match t
    case Leaf(_) =>
    case Un(op, x) =>
      Parenthesised(x);
    case Bin(op, l, r) =>
      Parenthesised(l);
      Parenthesised(r);
  }

  // ---- evaluation -------------------------------------------------------------

  /** What the operators mean. */
  datatype Meaning<!V> = Meaning(unary: (Op, V) -> V, binary: (Op, V, V) -> V)

  function Value<V>(m: Meaning<V>, e: Expr<V>): V {
    match e
    case Leaf(v) => v
    case Group(x) => Value(m, x)
    case Un(op, x) => m.unary(op, Value(m, x))
    case Bin(op, l, r) => m.binary(op, Value(m, l), Value(m, r))
  }

  datatype Option<T> = None | Some(value: T)

  /** One instruction of the stack machine; none when the stack is too short. */
  function Exec<V>(m: Meaning<V>, c: Code<V>, stack: seq<V>): Option<seq<V>> {
    match c
    case Push(v) => Some(stack + [v])
    case Apply(op) =>
      var n := |stack|;
      if n < NArgs(op) then None
      else if IsUnary(op) then Some(stack[..n - 1] + [m.unary(op, stack[n - 1])])
      else Some(stack[..n - 2] + [m.binary(op, stack[n - 2], stack[n - 1])])
  }

  function ExecAll<V>(m: Meaning<V>, code: seq<Code<V>>, stack: seq<V>): Option<seq<V>> {
    if code == [] then Some(stack)
    else match ExecAll(m, code[..|code| - 1], stack)
         case None => None
         case Some(s) => Exec(m, code[|code| - 1], s)
  }

  lemma {:induction false} ExecConcat<V>(m: Meaning<V>, a: seq<Code<V>>, b: seq<Code<V>>, stack: seq<V>)
    ensures ExecAll(m, a + b, stack) ==
            match ExecAll(m, a, stack) case None => None case Some(s) => ExecAll(m, b, s)
    decreases |b|
  {
    if b == [] {
      assert a + b == a;
    } else {
      var k := |b| - 1;
      assert (a + b)[..|a| + k] == a + b[..k];
      ExecConcat(m, a, b[..k], stack);
    }
  }

  lemma ExecUnary<V>(m: Meaning<V>, code: seq<Code<V>>, op: Op, stack: seq<V>, s: seq<V>, a: V)
    requires IsUnary(op) && ExecAll(m, code, stack) == Some(s + [a])
    ensures ExecAll(m, code + [Apply(op)], stack) == Some(s + [m.unary(op, a)])
  {
    hide IsUnary;
    assert (code + [Apply(op)])[..|code|] == code;
    assert (s + [a])[..|s|] == s;
  }

  lemma ExecBinary<V>(m: Meaning<V>, code: seq<Code<V>>, op: Op, stack: seq<V>, s: seq<V>, a: V, b: V)
    requires !IsUnary(op) && ExecAll(m, code, stack) == Some(s + [a] + [b])
    ensures ExecAll(m, code + [Apply(op)], stack) == Some(s + [m.binary(op, a, b)])
  {
    hide IsUnary;
    assert (code + [Apply(op)])[..|code|] == code;
    assert (s + [a] + [b])[..|s|] == s;
  }

  /** The code of an expression pushes its value. */
  lemma {:induction false} PostorderEvaluates<V>(m: Meaning<V>, e: Expr<V>, stack: seq<V>)
    requires WellWritten(e)
    ensures ExecAll(m, Postorder(e), stack) == Some(stack + [Value(m, e)])
    decreases e
  {
    hide Exec, IsUnary, Outer, Level, RightAssoc;
    match e
    case Leaf(v) =>
      ExecLeaf(m, v, stack);
    case Group(x) =>
      PostorderEvaluates(m, x, stack);
    case Un(op, x) =>
      PostorderEvaluates(m, x, stack);
      ExecUnary(m, Postorder(x), op, stack, stack, Value(m, x));
    case Bin(op, l, r) =>
      PostorderEvaluates(m, l, stack);
      PostorderEvaluates(m, r, stack + [Value(m, l)]);
      ExecConcat(m, Postorder(l), Postorder(r), stack);
      ExecBinary(m, Postorder(l) + Postorder(r), op, stack, stack, Value(m, l), Value(m, r));
  }

  lemma ExecLeaf<V>(m: Meaning<V>, v: V, stack: seq<V>)
    ensures ExecAll(m, [Push(v)], stack) == Some(stack + [v])
  {
    assert [Push(v)][..0] == [];
  }

  /** The evaluator: one array as the stack, arguments overwritten by results. */
  method Eval<V(0)>(m: Meaning<V>, code: seq<Code<V>>) returns (r: V)
    requires ExecAll(m, code, []).Some? && |ExecAll(m, code, []).value| > 0
    ensures r == ExecAll(m, code, []).value[0]
  {
    hide ExecAll, Exec;
    var stack := new V[|code|];
    var top, i := 0, 0;
    ExecNothing(m);
    while i < |code|
      invariant 0 <= i <= |code| && 0 <= top <= i
      invariant ExecAll(m, code[..i], []) == Some(stack[..top])
    {
      ghost var s := stack[..top];
      NextInstruction(m, code, i, s);
      match code[i] {
        case Push(v) =>
          stack[top] := v;
          top := top + 1;
          assert stack[..top] == s + [v];
        case Apply(op) =>
          if NArgs(op) == 2 {
            top := top - 1;
            stack[top - 1] := m.binary(op, stack[top - 1], stack[top]);
            assert stack[..top] == s[..top - 1] + [m.binary(op, s[top - 1], s[top])];
          } else {
            stack[top - 1] := m.unary(op, stack[top - 1]);
            assert stack[..top] == s[..top - 1] + [m.unary(op, s[top - 1])];
          }
      }
      i := i + 1;
    }
    assert code[..i] == code;
    r := stack[0];
  }

  lemma ExecNothing<V>(m: Meaning<V>)
    ensures ExecAll(m, [], []) == Some([])
  {
  }

  /** Code that runs to its end runs its next instruction, and the stack is long enough for it. */
  lemma NextInstruction<V>(m: Meaning<V>, code: seq<Code<V>>, i: nat, s: seq<V>)
    requires i < |code| && ExecAll(m, code, []).Some? && ExecAll(m, code[..i], []) == Some(s)
    ensures match code[i]
            case Push(v) => ExecAll(m, code[..i + 1], []) == Some(s + [v])
            case Apply(op) =>
              if NArgs(op) == 2 then
                && |s| >= 2
                && ExecAll(m, code[..i + 1], []) == Some(s[..|s| - 2] + [m.binary(op, s[|s| - 2], s[|s| - 1])])
              else
                && |s| >= 1
                && ExecAll(m, code[..i + 1], []) == Some(s[..|s| - 1] + [m.unary(op, s[|s| - 1])])
  {
    PrefixRuns(m, code, i + 1);
    assert code[..i + 1][..i] == code[..i];
  }

  lemma PrefixRuns<V>(m: Meaning<V>, code: seq<Code<V>>, i: nat)
    requires i <= |code| && ExecAll(m, code, []).Some?
    ensures ExecAll(m, code[..i], []).Some?
  {
    assert code == code[..i] + code[i..];
    ExecConcat(m, code[..i], code[i..], []);
  }

  /** Write an expression tree with the parentheses it needs, parse it, run the code: the result is the value of the tree. */
  method Calculate<V(0)>(m: Meaning<V>, t: Expr<V>) returns (r: V)
    requires IsTree(t)
    ensures r == Value(m, t)
  {
    var e := Parenthesise(t);
    Parenthesised(t);
    ParsePrinted(e);
    var parsed := ParseCore(Print(e));
    PostorderEvaluates(m, e, []);
    SameValue(m, t);
    r := Eval(m, parsed.code);
  }

  lemma {:induction false} SameValue<V>(m: Meaning<V>, t: Expr<V>)
    requires IsTree(t)
    ensures Value(m, Parenthesise(t)) == Value(m, t)
  {
    match t
    case Leaf(_) =>
    case Un(op, x) =>
      SameValue(m, x);
    case Bin(op, l, r) =>
      SameValue(m, l);
      SameValue(m, r);
  }

  /** Writing is unambiguous: two well-written expressions with the same tokens are the same tree. */
  lemma PrintUnambiguous<V(!new)>(a: Expr<V>, b: Expr<V>)
    requires WellWritten(a) && WellWritten(b) && Print(a) == Print(b)
    ensures Strip(a) == Strip(b)
  {
    ParsePrinted(a);
    ParsePrinted(b);
    PostorderDetermines(a);
    PostorderDetermines(b);
  }

  /** The stack machine over trees instead of values. */
  function Rebuild<V>(code: seq<Code<V>>): seq<Expr<V>> {
    if code == [] then []
    else
      var s := Rebuild(code[..|code| - 1]);
      match code[|code| - 1]
      case Push(v) => s + [Leaf(v)]
      case Apply(op) =>
        if |s| < NArgs(op) then []
        else if IsUnary(op) then s[..|s| - 1] + [Un(op, s[|s| - 1])]
        else s[..|s| - 2] + [Bin(op, s[|s| - 2], s[|s| - 1])]
  }

  lemma RebuildUnary<V>(code: seq<Code<V>>, op: Op, s: seq<Expr<V>>, a: Expr<V>)
    requires IsUnary(op) && Rebuild(code) == s + [a]
    ensures Rebuild(code + [Apply(op)]) == s + [Un(op, a)]
  {
    hide IsUnary;
    assert (code + [Apply(op)])[..|code|] == code;
    assert (s + [a])[..|s|] == s;
  }

  lemma RebuildBinary<V>(code: seq<Code<V>>, op: Op, s: seq<Expr<V>>, a: Expr<V>, b: Expr<V>)
    requires !IsUnary(op) && Rebuild(code) == s + [a] + [b]
    ensures Rebuild(code + [Apply(op)]) == s + [Bin(op, a, b)]
  {
    hide IsUnary;
    assert (code + [Apply(op)])[..|code|] == code;
    assert (s + [a] + [b])[..|s|] == s;
  }

  lemma RebuildLeaf<V>(code: seq<Code<V>>, v: V)
    ensures Rebuild(code + [Push(v)]) == Rebuild(code) + [Leaf(v)]
  {
    assert (code + [Push(v)])[..|code|] == code;
  }

  lemma {:induction false} RebuildPostorder<V>(before: seq<Code<V>>, e: Expr<V>)
    requires WellWritten(e)
    ensures Rebuild(before + Postorder(e)) == Rebuild(before) + [Strip(e)]
    decreases e
  {
    hide IsUnary, Outer, Level, RightAssoc, Rebuild;
    match e
    case Leaf(v) =>
      RebuildLeaf(before, v);
    case Group(x) =>
      RebuildPostorder(before, x);
    case Un(op, x) =>
      RebuildPostorder(before, x);
      RebuildUnary(before + Postorder(x), op, Rebuild(before), Strip(x));
      assert before + Postorder(x) + [Apply(op)] == before + Postorder(e);
    case Bin(op, l, r) =>
      RebuildPostorder(before, l);
      RebuildPostorder(before + Postorder(l), r);
      RebuildBinary(before + Postorder(l) + Postorder(r), op, Rebuild(before), Strip(l), Strip(r));
      assert before + Postorder(l) + Postorder(r) + [Apply(op)] == before + Postorder(e);
  }

  lemma PostorderDetermines<V>(e: Expr<V>)
    requires WellWritten(e)
    ensures Rebuild(Postorder(e)) == [Strip(e)]
  {
    RebuildPostorder([], e);
    assert [] + Postorder(e) == Postorder(e);
  }
}
