// Expression parsing of src/core/parser/impl/expr.c: the binary operator
// table and its lookup, the operator-precedence (shunting-yard) loop of
// au_parser_exec_binary_expr, the four-byte code of one binary operation,
// hex digits, integer literals and string escapes.
//
// The binary loop is modelled on the sequence of items the lexer delivers
// to it: an operand stands for one unary expression (parsed by
// au_parser_exec_unary_expr), a binary operator for a token the table
// knows, and Stop for any other token. The code the loop emits is
// modelled as the sequence of operand loads and operator applications, in
// emission order.
module Expr {
  import opened Wrappers
  import opened Arith
  import opened BcEmit
  import opened Regs
  import Lexer

  datatype Assoc = AssocLeft | AssocRight

  /** The opcodes of the binary operators. */
  datatype Opcode = BShr | BShl | BXor | BAnd | BOr | Sub | Add | Div | Mul
                  | Gt | Geq | Lt | Leq | Eq

  /** Opcode numbers from enum au_opcode (src/core/bc.h). The bitwise
      opcodes are used by expr.c but missing from that enum; they are
      numbered after AU_OP_GEQ_DOUBLE (72) here. */
  function OpcodeByte(op: Opcode): u8
  {
    match op
    case Mul => 2
    case Div => 3
    case Add => 4
    case Sub => 5
    case Eq => 10
    case Lt => 12
    case Gt => 13
    case Leq => 14
    case Geq => 15
    case BShr => 73
    case BShl => 74
    case BXor => 75
    case BAnd => 76
    case BOr => 77
  }

  /** struct operator_info. */
  datatype OperatorInfo = OperatorInfo(text: string, prec: nat, assoc: Assoc, op: Opcode)

  /** The table of au_parser_exec_binary_expr as written: "-" is declared
      right-associative. */
  const InfosAsWritten: seq<OperatorInfo> := [
    OperatorInfo(">>", 0, AssocLeft, BShr),
    OperatorInfo("<<", 0, AssocLeft, BShl),
    OperatorInfo("^", 10, AssocLeft, BXor),
    OperatorInfo("&", 10, AssocLeft, BAnd),
    OperatorInfo("|", 10, AssocLeft, BOr),
    OperatorInfo("-", 20, AssocRight, Sub),
    OperatorInfo("+", 20, AssocLeft, Add),
    OperatorInfo("/", 30, AssocLeft, Div),
    OperatorInfo("*", 30, AssocLeft, Mul),
    OperatorInfo(">", 40, AssocLeft, Gt),
    OperatorInfo(">=", 40, AssocLeft, Geq),
    OperatorInfo("<", 40, AssocLeft, Lt),
    OperatorInfo("<=", 40, AssocLeft, Leq),
    OperatorInfo("==", 40, AssocLeft, Eq)]

  /** Index of "-" in the table. */
  const MinusIdx: nat := 5

  /** The table with "-" left-associative like "+", which the rest of the
      model uses. */
  const Infos: seq<OperatorInfo> := InfosAsWritten[MinusIdx := OperatorInfo("-", 20, AssocLeft, Sub)]

  // ---- get_operator_info ------------------------------------------------------

  /** The first entry at or after from whose text is exactly text. */
  function FindOp(table: seq<OperatorInfo>, text: string, from: nat): (r: Option<nat>)
    requires from <= |table|
    ensures r.Some? ==> from <= r.value < |table| && table[r.value].text == text &&
                        forall j :: from <= j < r.value ==> table[j].text != text
    ensures r.None? <==> forall j :: from <= j < |table| ==> table[j].text != text
    decreases |table| - from
  {
    if from == |table| then None
    else if table[from].text == text then Some(from)
    else FindOp(table, text, from + 1)
  }

  /** get_operator_info: a token that is not an operator has no entry;
      otherwise the first entry whose text has the token's length and
      bytes. */
  method GetOperatorInfo(table: seq<OperatorInfo>, kind: Lexer.Kind, text: string)
    returns (r: Option<nat>)
    ensures kind != Lexer.Operator ==> r.None?
    ensures kind == Lexer.Operator ==> r == FindOp(table, text, 0)
  {
    if kind != Lexer.Operator {
      return None;
    }
    var i := 0;
    while i < |table|
      invariant 0 <= i <= |table|
      invariant FindOp(table, text, i) == FindOp(table, text, 0)
      decreases |table| - i
    {
      if |text| == |table[i].text| && text == table[i].text {
        return Some(i);
      }
      i := i + 1;
    }
    return None;
  }

  /** The precedence levels: shifts 0, bitwise 10, additive 20,
      multiplicative 30, comparisons 40; every entry but "-" is
      left-associative in the table as written, and every entry is in the
      corrected one. */
  lemma PrecedenceLevels(i: nat)
    requires i < |Infos|
    ensures Infos[i].text in {">>", "<<"} ==> Infos[i].prec == 0
    ensures Infos[i].text in {"^", "&", "|"} ==> Infos[i].prec == 10
    ensures Infos[i].text in {"-", "+"} ==> Infos[i].prec == 20
    ensures Infos[i].text in {"/", "*"} ==> Infos[i].prec == 30
    ensures Infos[i].text in {">", ">=", "<", "<=", "=="} ==> Infos[i].prec == 40
    ensures Infos[i].assoc == AssocLeft
    ensures i != MinusIdx ==> InfosAsWritten[i] == Infos[i]
    ensures InfosAsWritten[MinusIdx].assoc == AssocRight
  {
  }

  // ---- the shunting-yard loop ---------------------------------------------------

  /** What the binary loop sees next. */
  datatype Item = Operand(id: nat) | BinOp(info: OperatorInfo) | Stop

  /** What it emits: the code of an operand, or of one operator applied to
      the two topmost results. */
  datatype Event = Load(id: nat) | Apply(info: OperatorInfo)

  /** The expression tree the emitted code computes. */
  datatype Tree = Leaf(id: nat) | Node(info: OperatorInfo, left: Tree, right: Tree)

  /** The item at i; past the end the loop sees the end-of-input token,
      which is no operator. */
  function ItemAt(items: seq<Item>, i: nat): (r: Item)
    ensures r.BinOp? || r.Operand? ==> i < |items|
  {
    if i < |items| then items[i] else Stop
  }

  /** A newly read operator cur first emits the stacked operator top when
      cur is left-associative and binds no tighter, or right-associative
      and binds strictly looser (expr.c:305-318). */
  predicate ShouldPop(cur: OperatorInfo, top: OperatorInfo)
  {
    (cur.assoc == AssocLeft && cur.prec <= top.prec) ||
    (cur.assoc == AssocRight && cur.prec < top.prec)
  }

  /** The inner loop: emits stacked operators from the top while they
      should be popped. */
  function PopWhile(cur: OperatorInfo, stack: seq<OperatorInfo>, out: seq<Event>)
    : (r: (seq<OperatorInfo>, seq<Event>))
    ensures |r.0| <= |stack| && r.0 == stack[..|r.0|]
    ensures |r.0| > 0 ==> !ShouldPop(cur, r.0[|r.0| - 1])
    decreases |stack|
  {
    if |stack| > 0 && ShouldPop(cur, stack[|stack| - 1]) then
      PopWhile(cur, stack[..|stack| - 1], out + [Apply(stack[|stack| - 1])])
    else (stack, out)
  }

  /** The final loop: emits the remaining operators from top to bottom. */
  function Flush(stack: seq<OperatorInfo>, out: seq<Event>): seq<Event>
    decreases |stack|
  {
    if |stack| == 0 then out
    else Flush(stack[..|stack| - 1], out + [Apply(stack[|stack| - 1])])
  }

  /** The outer loop from item i: an operator is always consumed; anything
      else ends the expression when the last item was an operand
      (balance 1), is parsed as an operand otherwise, and fails when it is
      not one. The result is the emitted code and the number of items
      consumed. */
  function ShuntFrom(items: seq<Item>, i: nat, stack: seq<OperatorInfo>, out: seq<Event>, balance: int)
    : Result<(seq<Event>, nat), ()>
    requires i <= |items|
    decreases |items| - i
  {
    match ItemAt(items, i)
    case BinOp(cur) =>
      var (s, o) := PopWhile(cur, stack, out);
      ShuntFrom(items, i + 1, s + [cur], o, balance - 1)
    case Operand(id) =>
      if balance == 1 then Ok((Flush(stack, out), i))
      else ShuntFrom(items, i + 1, stack, out + [Load(id)], balance + 1)
    case Stop =>
      if balance == 1 then Ok((Flush(stack, out), i)) else Err(())
  }

  function Shunt(items: seq<Item>): Result<(seq<Event>, nat), ()>
  {
    ShuntFrom(items, 0, [], [], 0)
  }

  /** au_parser_exec_binary_expr on the item level. */
  method ExecBinaryExpr(items: seq<Item>) returns (r: Result<(seq<Event>, nat), ()>)
    ensures r == Shunt(items)
  {
    var stack: seq<OperatorInfo> := [];
    var out: seq<Event> := [];
    var balance := 0;
    var i := 0;
    while true
      invariant i <= |items|
      invariant ShuntFrom(items, i, stack, out, balance) == Shunt(items)
      decreases |items| - i
    {
      var it := ItemAt(items, i);
      if it.BinOp? {
        var cur := it.info;
        i := i + 1;
        ghost var s0, o0 := stack, out;
        while |stack| > 0
          invariant PopWhile(cur, stack, out) == PopWhile(cur, s0, o0)
          decreases |stack|
        {
          var top := stack[|stack| - 1];
          if ShouldPop(cur, top) {
            out := out + [Apply(top)];
            stack := stack[..|stack| - 1];
            continue;
          }
          break;
        }
        stack := stack + [cur];
        balance := balance - 1;
      } else {
        if balance == 1 {
          break;
        }
        if it.Stop? {
          return Err(());
        }
        out := out + [Load(it.id)];
        i := i + 1;
        balance := balance + 1;
      }
    }
    ghost var s1, o1 := stack, out;
    while |stack| > 0
      invariant Flush(stack, out) == Flush(s1, o1)
      decreases |stack|
    {
      out := out + [Apply(stack[|stack| - 1])];
      stack := stack[..|stack| - 1];
    }
    return Ok((out, i));
  }

  // ---- what the emitted code computes ---------------------------------------------

  /** One event on the stack of intermediate results. */
  function Step(trees: seq<Tree>, e: Event): Option<seq<Tree>>
  {
    match e
    case Load(id) => Some(trees + [Leaf(id)])
    case Apply(info) =>
      if |trees| < 2 then None
      else Some(trees[..|trees| - 2] + [Node(info, trees[|trees| - 2], trees[|trees| - 1])])
  }

  /** The results the emitted code leaves, None when an operator finds
      fewer than two. */
  function Eval(out: seq<Event>): Option<seq<Tree>>
  {
    if |out| == 0 then Some([])
    else match Eval(out[..|out| - 1])
      case None => None
      case Some(trees) => Step(trees, out[|out| - 1])
  }

  /** Running one more event. */
  lemma EvalSnoc(out: seq<Event>, e: Event)
    ensures Eval(out + [e]) == if Eval(out).None? then None else Step(Eval(out).value, e)
  {
    assert (out + [e])[..|out|] == out;
  }

  /** The items a tree was parsed from. */
  function Flatten(t: Tree): seq<Item>
  {
    match t
    case Leaf(id) => [Operand(id)]
    case Node(info, l, r) => Flatten(l) + [BinOp(info)] + Flatten(r)
  }

  /** The items a stack of results and a stack of operators were parsed
      from, interleaved: t0 op0 t1 op1 ... with one more tree than
      operators after an operand, as many after an operator. */
  function Woven(trees: seq<Tree>, ops: seq<OperatorInfo>): seq<Item>
    decreases |trees| + |ops|
  {
    if |trees| == 0 then []
    else if |trees| <= |ops| then Woven(trees, ops[..|ops| - 1]) + [BinOp(ops[|ops| - 1])]
    else Woven(trees[..|trees| - 1], ops) + Flatten(trees[|trees| - 1])
  }

  lemma WovenOperand(ts: seq<Tree>, ops: seq<OperatorInfo>, t: Tree)
    requires |ts| == |ops|
    ensures Woven(ts + [t], ops) == Woven(ts, ops) + Flatten(t)
  {
    assert (ts + [t])[..|ts|] == ts;
  }

  lemma WovenOperator(ts: seq<Tree>, ops: seq<OperatorInfo>, op: OperatorInfo)
    requires |ts| == |ops| + 1
    ensures Woven(ts, ops + [op]) == Woven(ts, ops) + [BinOp(op)]
  {
    assert (ops + [op])[..|ops|] == ops;
  }

  /** Applying the top operator to the top two results keeps the items
      they stand for. */
  lemma WovenApply(ts: seq<Tree>, ops: seq<OperatorInfo>, l: Tree, r: Tree, op: OperatorInfo)
    requires |ts| == |ops|
    ensures Woven(ts + [l, r], ops + [op]) == Woven(ts + [Node(op, l, r)], ops)
  {
    var w := Woven(ts, ops);
    calc {
      Woven(ts + [l, r], ops + [op]);
    == { assert ts + [l, r] == (ts + [l]) + [r]; WovenOperand(ts + [l], ops + [op], r); }
      Woven(ts + [l], ops + [op]) + Flatten(r);
    == { WovenOperator(ts + [l], ops, op); }
      Woven(ts + [l], ops) + [BinOp(op)] + Flatten(r);
    == { WovenOperand(ts, ops, l); }
      w + Flatten(l) + [BinOp(op)] + Flatten(r);
    == { assert w + Flatten(l) + [BinOp(op)] + Flatten(r) == w + (Flatten(l) + [BinOp(op)] + Flatten(r)); }
      w + Flatten(Node(op, l, r));
    == { WovenOperand(ts, ops, Node(op, l, r)); }
      Woven(ts + [Node(op, l, r)], ops);
    }
  }

  /** Every operator node of t is grouped as the pop rule of the loop
      demands: the operator at the root of its left operand is one it
      pops, and the operator at the root of its right operand is one that
      does not pop it. */
  predicate Grouped(t: Tree)
  {
    match t
    case Leaf(_) => true
    case Node(op, l, r) =>
      Grouped(l) && Grouped(r) &&
      (l.Node? ==> ShouldPop(op, l.info)) &&
      (r.Node? ==> !ShouldPop(r.info, op))
  }

  /** The grouping built so far: every result is grouped; each stacked
      operator pops the root of the result to its left; a stacked operator
      does not pop the one below it; and the root of the result to the
      right of a stacked operator does not pop it. */
  ghost predicate Pending(trees: seq<Tree>, stack: seq<OperatorInfo>)
  {
    (forall i :: 0 <= i < |trees| ==> Grouped(trees[i])) &&
    (forall i :: 0 <= i < |stack| && i < |trees| && trees[i].Node? ==> ShouldPop(stack[i], trees[i].info)) &&
    (forall i :: 1 <= i < |stack| ==> !ShouldPop(stack[i], stack[i - 1])) &&
    (forall i :: 1 <= i < |trees| && i <= |stack| && trees[i].Node? ==> !ShouldPop(trees[i].info, stack[i - 1]))
  }

  /** Pushing an operator keeps the grouping when it pops the root of the
      newest result and does not pop the operator below it. */
  lemma PushOperatorPending(trees: seq<Tree>, stack: seq<OperatorInfo>, cur: OperatorInfo)
    requires Pending(trees, stack) && |trees| == |stack| + 1
    requires trees[|stack|].Node? ==> ShouldPop(cur, trees[|stack|].info)
    requires |stack| > 0 ==> !ShouldPop(cur, stack[|stack| - 1])
    ensures Pending(trees, stack + [cur])
  {
    var s' := stack + [cur];
    assert forall j :: 0 <= j < |stack| ==> s'[j] == stack[j];
  }

  /** Pushing an operand keeps the grouping. */
  lemma PushOperandPending(trees: seq<Tree>, stack: seq<OperatorInfo>, id: nat)
    requires Pending(trees, stack) && |trees| == |stack|
    ensures Pending(trees + [Leaf(id)], stack)
  {
    var trees' := trees + [Leaf(id)];
    assert forall j :: 0 <= j < |trees| ==> trees'[j] == trees[j];
  }

  /** Applying the top operator to the two newest results keeps the
      grouping. */
  lemma ApplyPending(ts: seq<Tree>, stack: seq<OperatorInfo>, l: Tree, r: Tree, top: OperatorInfo)
    requires Pending(ts + [l, r], stack + [top]) && |ts| == |stack|
    ensures Pending(ts + [Node(top, l, r)], stack)
  {
    var trees := ts + [l, r];
    var s := stack + [top];
    var k := |stack|;
    assert trees[k] == l && trees[k + 1] == r && s[k] == top;
    assert Grouped(Node(top, l, r)) by {
      assert Grouped(trees[k]) && Grouped(trees[k + 1]);
    }
    var trees' := ts + [Node(top, l, r)];
    assert forall i :: 0 <= i < k ==> trees'[i] == trees[i] && s[i] == stack[i];
    assert k >= 1 ==> !ShouldPop(s[k], s[k - 1]);
  }

  /** Results and operators after consuming a prefix of the items. */
  ghost predicate Parsed(out: seq<Event>, stack: seq<OperatorInfo>, consumed: seq<Item>, balance: int)
  {
    (balance == 0 || balance == 1) &&
    Eval(out).Some? && |Eval(out).value| == |stack| + balance &&
    Woven(Eval(out).value, stack) == consumed &&
    Pending(Eval(out).value, stack)
  }

  /** The newest result is an operand, or its operator is one cur pops. */
  ghost predicate TopPopped(cur: OperatorInfo, out: seq<Event>)
  {
    Eval(out).Some? && |Eval(out).value| > 0 &&
    var t := Eval(out).value[|Eval(out).value| - 1];
    t.Leaf? || ShouldPop(cur, t.info)
  }

  /** Emitting the top operator combines the top two results under it. */
  lemma ApplyParsed(stack: seq<OperatorInfo>, out: seq<Event>, consumed: seq<Item>)
    requires Parsed(out, stack, consumed, 1) && |stack| > 0
    ensures Parsed(out + [Apply(stack[|stack| - 1])], stack[..|stack| - 1], consumed, 1)
    ensures var ts := Eval(out + [Apply(stack[|stack| - 1])]).value;
      ts[|ts| - 1].Node? && ts[|ts| - 1].info == stack[|stack| - 1]
  {
    var trees := Eval(out).value;
    var n := |trees|;
    var top := stack[|stack| - 1];
    var out' := out + [Apply(top)];
    assert out'[..|out|] == out;
    var ts := trees[..n - 2];
    assert trees == ts + [trees[n - 2], trees[n - 1]];
    assert stack == stack[..|stack| - 1] + [top];
    WovenApply(ts, stack[..|stack| - 1], trees[n - 2], trees[n - 1], top);
    ApplyPending(ts, stack[..|stack| - 1], trees[n - 2], trees[n - 1], top);
    assert Eval(out').value == ts + [Node(top, trees[n - 2], trees[n - 1])];
  }

  lemma {:induction false} PopWhileParsed(cur: OperatorInfo, stack: seq<OperatorInfo>, out: seq<Event>, consumed: seq<Item>)
    requires Parsed(out, stack, consumed, 1) && TopPopped(cur, out)
    ensures Parsed(PopWhile(cur, stack, out).1, PopWhile(cur, stack, out).0, consumed, 1)
    ensures TopPopped(cur, PopWhile(cur, stack, out).1)
    decreases |stack|
  {
    if |stack| > 0 && ShouldPop(cur, stack[|stack| - 1]) {
      ApplyParsed(stack, out, consumed);
      PopWhileParsed(cur, stack[..|stack| - 1], out + [Apply(stack[|stack| - 1])], consumed);
    }
  }

  lemma {:induction false} FlushParsed(stack: seq<OperatorInfo>, out: seq<Event>, consumed: seq<Item>)
    requires Parsed(out, stack, consumed, 1)
    ensures Parsed(Flush(stack, out), [], consumed, 1)
    decreases |stack|
  {
    if |stack| > 0 {
      ApplyParsed(stack, out, consumed);
      FlushParsed(stack[..|stack| - 1], out + [Apply(stack[|stack| - 1])], consumed);
    }
  }

  /** items[..n] alternates operand, operator, ..., operand, and the item
      after it is no operator: a complete binary expression. */
  ghost predicate Alternating(items: seq<Item>, n: nat)
  {
    n <= |items| && n % 2 == 1 &&
    (forall j :: 0 <= j < n && j % 2 == 0 ==> items[j].Operand?) &&
    (forall j :: 0 <= j < n && j % 2 == 1 ==> items[j].BinOp?) &&
    !ItemAt(items, n).BinOp?
  }

  lemma {:induction false} ShuntFromParsed(items: seq<Item>, n: nat, i: nat, stack: seq<OperatorInfo>, out: seq<Event>, balance: int)
    requires Alternating(items, n) && i <= n
    requires balance == i % 2 && Parsed(out, stack, items[..i], balance)
    requires balance == 1 ==> Eval(out).value[|Eval(out).value| - 1].Leaf?
    ensures ShuntFrom(items, i, stack, out, balance).Ok?
    ensures var (o, m) := ShuntFrom(items, i, stack, out, balance).value;
      m == n && Parsed(o, [], items[..n], 1)
    decreases |items| - i
  {
    if i == n {
      FlushParsed(stack, out, items[..i]);
    } else if i % 2 == 1 {
      var cur := items[i].info;
      assert ItemAt(items, i) == BinOp(cur);
      OperatorParsed(items, i, stack, out, cur);
      var (s, o) := PopWhile(cur, stack, out);
      ShuntFromParsed(items, n, i + 1, s + [cur], o, 0);
    } else {
      var id := items[i].id;
      assert ItemAt(items, i) == Operand(id);
      OperandParsed(items, i, stack, out, id);
      ShuntFromParsed(items, n, i + 1, stack, out + [Load(id)], 1);
    }
  }

  /** Reading an operator after an operand: the operators it pops are
      emitted and it goes on the stack. */
  lemma OperatorParsed(items: seq<Item>, i: nat, stack: seq<OperatorInfo>, out: seq<Event>, cur: OperatorInfo)
    requires i < |items| && items[i] == BinOp(cur) && Parsed(out, stack, items[..i], 1)
    requires Eval(out).value[|Eval(out).value| - 1].Leaf?
    ensures Parsed(PopWhile(cur, stack, out).1, PopWhile(cur, stack, out).0 + [cur], items[..i + 1], 0)
  {
    PopWhileParsed(cur, stack, out, items[..i]);
    var (s, o) := PopWhile(cur, stack, out);
    var trees := Eval(o).value;
    WovenOperator(trees, s, cur);
    assert items[..i + 1] == items[..i] + [BinOp(cur)];
    PushOperatorPending(trees, s, cur);
  }

  /** Reading an operand after an operator: its load is emitted and it is
      the newest result. */
  lemma OperandParsed(items: seq<Item>, i: nat, stack: seq<OperatorInfo>, out: seq<Event>, id: nat)
    requires i < |items| && items[i] == Operand(id) && Parsed(out, stack, items[..i], 0)
    ensures Parsed(out + [Load(id)], stack, items[..i + 1], 1)
    ensures Eval(out + [Load(id)]).value == Eval(out).value + [Leaf(id)]
  {
    var o := out + [Load(id)];
    assert o[..|out|] == out;
    var trees := Eval(out).value;
    WovenOperand(trees, stack, Leaf(id));
    assert items[..i + 1] == items[..i] + [Operand(id)];
    PushOperandPending(trees, stack, id);
  }

  /** On a complete binary expression the loop consumes exactly its
      items, and the emitted code leaves a single result: a tree made of
      exactly those operands and operators, in their order. */
  lemma ShuntComplete(items: seq<Item>, n: nat)
    requires Alternating(items, n)
    ensures Shunt(items).Ok? && Shunt(items).value.1 == n
    ensures var out := Shunt(items).value.0;
      Eval(out).Some? && |Eval(out).value| == 1 && Flatten(Eval(out).value[0]) == items[..n] &&
      Grouped(Eval(out).value[0])
  {
    assert items[..0] == [];
    ShuntFromParsed(items, n, 0, [], [], 0);
    var out := Shunt(items).value.0;
    var t := Eval(out).value;
    assert t == [] + [t[0]];
  }

  /** Grouping by precedence with left associativity: the root of an
      operator's left operand binds at least as tightly as it, the root of
      its right operand strictly more tightly. */
  predicate PrecedenceGrouped(t: Tree)
  {
    match t
    case Leaf(_) => true
    case Node(op, l, r) =>
      PrecedenceGrouped(l) && PrecedenceGrouped(r) &&
      (l.Node? ==> op.prec <= l.info.prec) &&
      (r.Node? ==> op.prec < r.info.prec)
  }

  /** Every operator of t is left-associative. */
  predicate LeftAssociative(t: Tree)
  {
    match t
    case Leaf(_) => true
    case Node(op, l, r) => op.assoc == AssocLeft && LeftAssociative(l) && LeftAssociative(r)
  }

  lemma {:induction false} LeftAssociativeOfItems(t: Tree)
    requires forall x :: x in Flatten(t) && x.BinOp? ==> x.info.assoc == AssocLeft
    ensures LeftAssociative(t)
  {
    match t
    case Leaf(_) =>
    case Node(op, l, r) =>
      assert Flatten(t) == Flatten(l) + [BinOp(op)] + Flatten(r);
      assert BinOp(op) in Flatten(t);
      LeftAssociativeOfItems(l);
      LeftAssociativeOfItems(r);
  }

  /** With left-associative operators only, the pop rule groups by
      precedence. */
  lemma {:induction false} GroupedByPrecedence(t: Tree)
    requires Grouped(t) && LeftAssociative(t)
    ensures PrecedenceGrouped(t)
  {
    match t
    case Leaf(_) =>
    case Node(op, l, r) =>
      GroupedByPrecedence(l);
      GroupedByPrecedence(r);
  }

  /** With the corrected table, the code the loop emits for a complete
      binary expression computes the expression grouped by precedence,
      equal levels to the left: a op1 b op2 c is (a op1 b) op2 c unless op2
      binds more tightly than op1. */
  lemma ShuntGroupsByPrecedence(items: seq<Item>, n: nat)
    requires Alternating(items, n)
    requires forall j :: 0 <= j < n && items[j].BinOp? ==> items[j].info in Infos
    ensures Shunt(items).Ok? && Shunt(items).value.1 == n
    ensures var out := Shunt(items).value.0;
      Eval(out).Some? && |Eval(out).value| == 1 && Flatten(Eval(out).value[0]) == items[..n] &&
      PrecedenceGrouped(Eval(out).value[0])
  {
    ShuntComplete(items, n);
    var t := Eval(Shunt(items).value.0).value[0];
    forall x | x in Flatten(t) && x.BinOp?
      ensures x.info.assoc == AssocLeft
    {
      var j :| 0 <= j < n && items[..n][j] == x;
      assert items[j].info in Infos;
      var k :| 0 <= k < |Infos| && Infos[k] == x.info;
      PrecedenceLevels(k);
    }
    LeftAssociativeOfItems(t);
    GroupedByPrecedence(t);
  }

  /** Every operator in a precedence-grouped tree binds at least as
      tightly as its root. */
  lemma {:induction false} OpsBindAtLeast(t: Tree, p: nat)
    requires PrecedenceGrouped(t) && (t.Node? ==> p <= t.info.prec)
    ensures forall x :: x in Flatten(t) && x.BinOp? ==> p <= x.info.prec
  {
    match t
    case Leaf(_) =>
    case Node(op, l, r) =>
      OpsBindAtLeast(l, p);
      OpsBindAtLeast(r, p);
      assert Flatten(t) == Flatten(l) + [BinOp(op)] + Flatten(r);
  }

  /** A precedence-grouped tree is determined by its items: the grouping
      the loop produces is the only one by precedence with equal levels to
      the left. */
  lemma {:induction false} PrecedenceGroupedUnique(t1: Tree, t2: Tree)
    requires PrecedenceGrouped(t1) && PrecedenceGrouped(t2) && Flatten(t1) == Flatten(t2)
    ensures t1 == t2
  {
    match t1
    case Leaf(_) =>
    case Node(op1, l1, r1) =>
      if t2.Node? {
        var op2, l2, r2 := t2.info, t2.left, t2.right;
        var f := Flatten(t1);
        var k1, k2 := |Flatten(l1)|, |Flatten(l2)|;
        assert f == Flatten(l1) + [BinOp(op1)] + Flatten(r1);
        assert f == Flatten(l2) + [BinOp(op2)] + Flatten(r2);
        if k1 != k2 {
          // The earlier root lies in the later one's left operand, so it
          // binds at least as tightly; the later root lies in the earlier
          // one's right operand, so it binds strictly more tightly.
          var a, la, b, rb := op1, l2, op2, r1;
          if k2 < k1 {
            a, la, b, rb := op2, l1, op1, r2;
          }
          var ka, kb := if k1 < k2 then k1 else k2, if k1 < k2 then k2 else k1;
          assert f[ka] == BinOp(a) && f[kb] == BinOp(b);
          assert BinOp(a) in Flatten(la) by { assert Flatten(la)[ka] == f[ka]; }
          assert BinOp(b) in Flatten(rb) by { assert Flatten(rb)[kb - ka - 1] == f[kb]; }
          OpsBindAtLeast(la, b.prec);
          OpsBindAtLeast(rb, a.prec + 1);
          assert false;
        }
        assert f[k1] == BinOp(op1) && f[k2] == BinOp(op2);
        assert Flatten(l1) == f[..k1] == Flatten(l2);
        assert Flatten(r1) == f[k1 + 1..] == Flatten(r2);
        PrecedenceGroupedUnique(l1, l2);
        PrecedenceGroupedUnique(r1, r2);
      }
  }

  /** With the corrected table, the code the loop emits computes exactly
      the one tree over the items that groups by precedence with equal
      levels to the left. */
  lemma ShuntIsPrecedenceParse(items: seq<Item>, n: nat, t: Tree)
    requires Alternating(items, n)
    requires forall j :: 0 <= j < n && items[j].BinOp? ==> items[j].info in Infos
    requires PrecedenceGrouped(t) && Flatten(t) == items[..n]
    ensures Shunt(items).Ok? && Eval(Shunt(items).value.0) == Some([t])
  {
    ShuntGroupsByPrecedence(items, n);
    var ts := Eval(Shunt(items).value.0).value;
    PrecedenceGroupedUnique(ts[0], t);
    assert ts == [ts[0]];
  }

  /** a - b - c with the table as written: the code computes a - (b - c). */
  lemma MinusAsWritten()
    ensures var m := InfosAsWritten[MinusIdx];
      var items := [Operand(0), BinOp(m), Operand(1), BinOp(m), Operand(2)];
      Shunt(items) == Ok(([Load(0), Load(1), Load(2), Apply(m), Apply(m)], 5)) &&
      Eval(Shunt(items).value.0) == Some([Node(m, Leaf(0), Node(m, Leaf(1), Leaf(2)))]) &&
      !PrecedenceGrouped(Node(m, Leaf(0), Node(m, Leaf(1), Leaf(2))))
  {
    var m := InfosAsWritten[MinusIdx];
    var items := [Operand(0), BinOp(m), Operand(1), BinOp(m), Operand(2)];
    assert ItemAt(items, 0) == Operand(0) && ItemAt(items, 1) == BinOp(m);
    assert ItemAt(items, 2) == Operand(1) && ItemAt(items, 3) == BinOp(m);
    assert ItemAt(items, 4) == Operand(2) && ItemAt(items, 5) == Stop;
    assert [] + [Load(0)] == [Load(0)] && [Load(0)] + [Load(1)] == [Load(0), Load(1)];
    assert [Load(0), Load(1)] + [Load(2)] == [Load(0), Load(1), Load(2)];
    assert [] + [m] == [m] && [m] + [m] == [m, m];
    assert !ShouldPop(m, m);
    assert PopWhile(m, [], [Load(0)]) == ([], [Load(0)]);
    assert PopWhile(m, [m], [Load(0), Load(1)]) == ([m], [Load(0), Load(1)]);
    assert ShuntFrom(items, 5, [m, m], [Load(0), Load(1), Load(2)], 1)
        == Ok((Flush([m, m], [Load(0), Load(1), Load(2)]), 5));
    assert ShuntFrom(items, 4, [m, m], [Load(0), Load(1)], 0)
        == ShuntFrom(items, 5, [m, m], [Load(0), Load(1), Load(2)], 1);
    assert ShuntFrom(items, 3, [m], [Load(0), Load(1)], 1)
        == ShuntFrom(items, 4, [m, m], [Load(0), Load(1)], 0);
    assert ShuntFrom(items, 2, [m], [Load(0)], 0)
        == ShuntFrom(items, 3, [m], [Load(0), Load(1)], 1);
    assert ShuntFrom(items, 1, [], [Load(0)], 1)
        == ShuntFrom(items, 2, [m], [Load(0)], 0);
    assert ShuntFrom(items, 0, [], [], 0) == ShuntFrom(items, 1, [], [Load(0)], 1);
    FlushTwo(m, [Load(0), Load(1), Load(2)]);
    assert [Load(0), Load(1), Load(2)] + [Apply(m), Apply(m)]
        == [Load(0), Load(1), Load(2), Apply(m), Apply(m)];
    EvalRightNested(m);
  }

  /** a - b - c with the corrected table: the code computes (a - b) - c. */
  lemma MinusCorrected()
    ensures var m := Infos[MinusIdx];
      var items := [Operand(0), BinOp(m), Operand(1), BinOp(m), Operand(2)];
      Shunt(items) == Ok(([Load(0), Load(1), Apply(m), Load(2), Apply(m)], 5)) &&
      Eval(Shunt(items).value.0) == Some([Node(m, Node(m, Leaf(0), Leaf(1)), Leaf(2))])
  {
    var m := Infos[MinusIdx];
    var items := [Operand(0), BinOp(m), Operand(1), BinOp(m), Operand(2)];
    assert ItemAt(items, 0) == Operand(0) && ItemAt(items, 1) == BinOp(m);
    assert ItemAt(items, 2) == Operand(1) && ItemAt(items, 3) == BinOp(m);
    assert ItemAt(items, 4) == Operand(2) && ItemAt(items, 5) == Stop;
    assert [] + [Load(0)] == [Load(0)] && [Load(0)] + [Load(1)] == [Load(0), Load(1)];
    assert [Load(0), Load(1)] + [Apply(m)] == [Load(0), Load(1), Apply(m)];
    assert [Load(0), Load(1), Apply(m)] + [Load(2)] == [Load(0), Load(1), Apply(m), Load(2)];
    assert [] + [m] == [m];
    assert ShouldPop(m, m);
    assert PopWhile(m, [], [Load(0)]) == ([], [Load(0)]);
    assert PopWhile(m, [m], [Load(0), Load(1)]) == ([], [Load(0), Load(1), Apply(m)]) by {
      assert [m][..0] == [];
    }
    assert ShuntFrom(items, 5, [m], [Load(0), Load(1), Apply(m), Load(2)], 1)
        == Ok((Flush([m], [Load(0), Load(1), Apply(m), Load(2)]), 5));
    assert ShuntFrom(items, 4, [m], [Load(0), Load(1), Apply(m)], 0)
        == ShuntFrom(items, 5, [m], [Load(0), Load(1), Apply(m), Load(2)], 1);
    assert ShuntFrom(items, 3, [m], [Load(0), Load(1)], 1)
        == ShuntFrom(items, 4, [m], [Load(0), Load(1), Apply(m)], 0);
    assert ShuntFrom(items, 2, [m], [Load(0)], 0)
        == ShuntFrom(items, 3, [m], [Load(0), Load(1)], 1);
    assert ShuntFrom(items, 1, [], [Load(0)], 1)
        == ShuntFrom(items, 2, [m], [Load(0)], 0);
    assert ShuntFrom(items, 0, [], [], 0) == ShuntFrom(items, 1, [], [Load(0)], 1);
    assert Flush([m], [Load(0), Load(1), Apply(m), Load(2)])
        == Flush([], [Load(0), Load(1), Apply(m), Load(2)] + [Apply(m)]) by {
      assert [m][..0] == [];
    }
    assert [Load(0), Load(1), Apply(m), Load(2)] + [Apply(m)]
        == [Load(0), Load(1), Apply(m), Load(2), Apply(m)];
    EvalLeftNested(m);
  }

  lemma FlushTwo(m: OperatorInfo, out: seq<Event>)
    ensures Flush([m, m], out) == out + [Apply(m), Apply(m)]
  {
    assert [m, m][..1] == [m] && [m][..0] == [];
    assert Flush([m, m], out) == Flush([m], out + [Apply(m)]);
    assert Flush([m], out + [Apply(m)]) == Flush([], out + [Apply(m)] + [Apply(m)]);
    assert out + [Apply(m)] + [Apply(m)] == out + [Apply(m), Apply(m)];
  }

  /** The code a b c op op computes a op (b op c). */
  lemma EvalRightNested(m: OperatorInfo)
    ensures Eval([Load(0), Load(1), Load(2), Apply(m), Apply(m)])
         == Some([Node(m, Leaf(0), Node(m, Leaf(1), Leaf(2)))])
  {
    var out := [Load(0), Load(1), Load(2), Apply(m), Apply(m)];
    EvalSnoc([], Load(0));
    assert [] + [Load(0)] == [Load(0)] && [] + [Leaf(0)] == [Leaf(0)];
    EvalSnoc([Load(0)], Load(1));
    assert [Leaf(0)] + [Leaf(1)] == [Leaf(0), Leaf(1)];
    EvalSnoc([Load(0), Load(1)], Load(2));
    assert [Load(0), Load(1)] + [Load(2)] == out[..3];
    assert [Leaf(0), Leaf(1)] + [Leaf(2)] == [Leaf(0), Leaf(1), Leaf(2)];
    EvalSnoc(out[..3], Apply(m));
    assert out[..3] + [Apply(m)] == out[..4];
    assert [Leaf(0), Leaf(1), Leaf(2)][..1] + [Node(m, Leaf(1), Leaf(2))] == [Leaf(0), Node(m, Leaf(1), Leaf(2))];
    EvalSnoc(out[..4], Apply(m));
    assert out[..4] + [Apply(m)] == out;
    assert [Leaf(0), Node(m, Leaf(1), Leaf(2))][..0] + [Node(m, Leaf(0), Node(m, Leaf(1), Leaf(2)))]
        == [Node(m, Leaf(0), Node(m, Leaf(1), Leaf(2)))];
  }

  /** The code a b op c op computes (a op b) op c. */
  lemma EvalLeftNested(m: OperatorInfo)
    ensures Eval([Load(0), Load(1), Apply(m), Load(2), Apply(m)])
         == Some([Node(m, Node(m, Leaf(0), Leaf(1)), Leaf(2))])
  {
    var out := [Load(0), Load(1), Apply(m), Load(2), Apply(m)];
    EvalSnoc([], Load(0));
    assert [] + [Load(0)] == [Load(0)] && [] + [Leaf(0)] == [Leaf(0)];
    EvalSnoc([Load(0)], Load(1));
    assert [Leaf(0)] + [Leaf(1)] == [Leaf(0), Leaf(1)];
    EvalSnoc([Load(0), Load(1)], Apply(m));
    assert [Load(0), Load(1)] + [Apply(m)] == out[..3];
    assert [Leaf(0), Leaf(1)][..0] + [Node(m, Leaf(0), Leaf(1))] == [Node(m, Leaf(0), Leaf(1))];
    EvalSnoc(out[..3], Load(2));
    assert out[..3] + [Load(2)] == out[..4];
    assert [Node(m, Leaf(0), Leaf(1))] + [Leaf(2)] == [Node(m, Leaf(0), Leaf(1)), Leaf(2)];
    EvalSnoc(out[..4], Apply(m));
    assert out[..4] + [Apply(m)] == out;
    assert [Node(m, Leaf(0), Leaf(1)), Leaf(2)][..0] + [Node(m, Node(m, Leaf(0), Leaf(1)), Leaf(2))]
        == [Node(m, Node(m, Leaf(0), Leaf(1)), Leaf(2))];
  }

  // ---- the code of one binary operation --------------------------------------------

  /** How parsing stops early: an internal abort (popping an empty register
      stack), or a BYTECODE_GEN error when no register is free. */
  datatype Failure = Abort | BytecodeGen

  /** The used flags once the right and then the left operand register are
      popped. */
  function FreeOperands(used: seq<bool>, pinned: seq<bool>, left: nat, right: nat): seq<bool>
    requires left < |used| && right < |used| && |pinned| == |used|
  {
    Release(Release(used, pinned, right), pinned, left)
  }

  /** operator_info_generate: emits the opcode, pops the right and then the
      left operand register, emits both, and emits a new result register;
      the new register is the lowest free one once both operands are
      released, and the operand registers make way for it on the stack. */
  method Generate(info: OperatorInfo, alloc: Allocator, em: Emitter) returns (r: Result<(), Failure>)
    requires alloc.Valid()
    modifies alloc, alloc.used, alloc.rstack, em
    ensures alloc.Valid() && unchanged(alloc.pinned)
    ensures r == Err(Abort) <==> old(alloc.rstackLen) < 2
    ensures old(alloc.rstackLen) >= 2 ==>
      var s := old(alloc.Stack());
      var n := |s|;
      var freed := FreeOperands(old(alloc.used[..]), alloc.pinned[..], s[n - 2], s[n - 1]);
      (r.Ok? <==> FirstFree(freed, 0).Some?) &&
      (r.Ok? ==>
        em.bc == old(em.bc) + [OpcodeByte(info.op), s[n - 2], s[n - 1], FirstFree(freed, 0).value] &&
        alloc.Stack() == s[..n - 2] + [FirstFree(freed, 0).value] &&
        alloc.used[..] == Allocate(freed)) &&
      (r.Err? ==> em.bc == old(em.bc) + [OpcodeByte(info.op), s[n - 2], s[n - 1]])
  {
    em.EmitU8(OpcodeByte(info.op));
    var operands := PopOperands(alloc);
    if operands.Err? {
      return Err(Abort);
    }
    var (left, right) := operands.value;
    em.EmitU8(left);
    em.EmitU8(right);
    r := EmitResult(alloc, em);
  }

  /** The end of operator_info_generate: a new register for the result,
      pushed and emitted, or a BYTECODE_GEN error when none is free. */
  method EmitResult(alloc: Allocator, em: Emitter) returns (r: Result<(), Failure>)
    requires alloc.Valid() && alloc.rstackLen < NumRegs
    modifies alloc, alloc.used, alloc.rstack, em
    ensures alloc.Valid() && unchanged(alloc.pinned)
    ensures r != Err(Abort)
    ensures r.Ok? <==> FirstFree(old(alloc.used[..]), 0).Some?
    ensures r.Ok? ==>
      var reg := FirstFree(old(alloc.used[..]), 0).value;
      em.bc == old(em.bc) + [reg] &&
      alloc.Stack() == old(alloc.Stack()) + [reg] &&
      alloc.used[..] == Allocate(old(alloc.used[..]))
    ensures r.Err? ==> em.bc == old(em.bc)
  {
    var res := alloc.NewReg();
    if res.None? {
      return Err(BytecodeGen);
    }
    em.EmitU8(res.value);
    return Ok(());
  }

  /** The two pops of operator_info_generate: right first, then left. */
  method PopOperands(alloc: Allocator) returns (r: Result<(u8, u8), ()>)
    requires alloc.Valid()
    modifies alloc, alloc.used
    ensures alloc.Valid() && unchanged(alloc.pinned)
    ensures r.Ok? <==> old(alloc.rstackLen) >= 2
    ensures r.Ok? ==>
      var s := old(alloc.Stack());
      var n := |s|;
      r.value == (s[n - 2], s[n - 1]) &&
      alloc.Stack() == s[..n - 2] &&
      alloc.used[..] == FreeOperands(old(alloc.used[..]), alloc.pinned[..], s[n - 2], s[n - 1])
  {
    ghost var s := alloc.Stack();
    ghost var n := |s|;
    var right := alloc.PopReg();
    if right.Err? {
      return Err(());
    }
    var left := alloc.PopReg();
    if left.Err? {
      return Err(());
    }
    assert left.value == s[n - 2] < NumRegs && right.value == s[n - 1] < NumRegs;
    assert alloc.Stack() == s[..n - 2];
    return Ok((left.value, right.value));
  }

  /** When the left operand register is not pinned, a binary operation
      always gets its result register, and it is no higher than the left
      operand's: operations never need more registers than their
      operands. */
  lemma OperandRegisterReused(used: seq<bool>, pinned: seq<bool>, left: nat, right: nat)
    requires left < |used| && right < |used| && |pinned| == |used|
    requires !pinned[left]
    ensures FirstFree(FreeOperands(used, pinned, left, right), 0).Some?
    ensures FirstFree(FreeOperands(used, pinned, left, right), 0).value <= left
  {
    FirstFreeAtMost(FreeOperands(used, pinned, left, right), 0, left);
  }

  // ---- literals -------------------------------------------------------------------

  /** hex_value. */
  function HexValue(ch: char): (r: int)
    ensures r == -1 <==> !Lexer.IsHex(ch)
    ensures Lexer.IsHex(ch) ==> 0 <= r < 16
    ensures '0' <= ch <= '9' ==> r == ch as int - '0' as int
  {
    if '0' <= ch <= '9' then ch as int - '0' as int
    else if 'a' <= ch <= 'f' then ch as int - 'a' as int + 10
    else if 'A' <= ch <= 'F' then ch as int - 'A' as int + 10
    else -1
  }

  const LowerHexDigits: string := "0123456789abcdef"
  const UpperHexDigits: string := "0123456789ABCDEF"

  /** Every digit value is read back from its lower- and upper-case digit. */
  lemma HexValueDigits(v: nat)
    requires v < 16
    ensures HexValue(LowerHexDigits[v]) == v && HexValue(UpperHexDigits[v]) == v
  {
  }

  /** The value of a digit sequence, most significant first. */
  function Horner(digits: seq<int>, base: int): int
  {
    if |digits| == 0 then 0
    else Horner(digits[..|digits| - 1], base) * base + digits[|digits| - 1]
  }

  /** The same accumulation in int32 arithmetic, wrapping at every step. */
  function HornerWrap(digits: seq<int>, base: int): Int32
  {
    if |digits| == 0 then 0
    else Wrap(HornerWrap(digits[..|digits| - 1], base) * base + digits[|digits| - 1])
  }

  /** Wrapping at every step ends where wrapping once at the end does. */
  lemma {:induction false} HornerWrapIsWrap(digits: seq<int>, base: int)
    ensures HornerWrap(digits, base) == Wrap(Horner(digits, base))
  {
    if |digits| > 0 {
      var front := digits[..|digits| - 1];
      var d := digits[|digits| - 1];
      var h := Horner(front, base);
      var w := HornerWrap(front, base);
      assert HornerWrap(digits, base) == Wrap(w * base + d);
      assert Horner(digits, base) == h * base + d;
      var k := (w - h) / Two32;
      assert w == h + k * Two32 by {
        HornerWrapIsWrap(front, base);
        WrapCongruent(h);
      }
      assert w * base + d == h * base + d + (k * base) * Two32;
      WrapShift(h * base + d, k * base);
    }
  }

  lemma WrapCongruent(x: int)
    ensures (Wrap(x) - x) % Two32 == 0
  {
  }

  lemma WrapShift(x: int, k: int)
    ensures Wrap(x + k * Two32) == Wrap(x)
  {
    WrapUnique(x + k * Two32, Wrap(x));
  }

  /** An int token is hex when it starts with "0x". */
  predicate IsHexLiteral(text: string)
  {
    |text| >= 2 && text[0] == '0' && text[1] == 'x'
  }

  /** The digit values the literal loops accumulate. */
  function LiteralDigits(text: string): (r: seq<int>)
    ensures IsHexLiteral(text) ==> |r| == |text| - 2
    ensures !IsHexLiteral(text) ==> |r| == |text|
  {
    if IsHexLiteral(text) then seq(|text| - 2, i requires 0 <= i < |text| - 2 => HexValue(text[i + 2]))
    else seq(|text|, i requires 0 <= i < |text| => text[i] as int - '0' as int)
  }

  function LiteralBase(text: string): int
  {
    if IsHexLiteral(text) then 16 else 10
  }

  /** The int32_t num of au_parser_exec_value for an int token. */
  function LiteralValue(text: string): Int32
  {
    HornerWrap(LiteralDigits(text), LiteralBase(text))
  }

  /** The int-literal loops of au_parser_exec_value: num = num * 16 +
      hex_value(ch) after "0x", num = num * 10 + (ch - '0') otherwise, in
      int32 arithmetic. */
  method DecodeInt(text: string) returns (num: Int32)
    ensures num == LiteralValue(text)
    ensures num == Wrap(Horner(LiteralDigits(text), LiteralBase(text)))
  {
    num := 0;
    ghost var digits := LiteralDigits(text);
    var base := if IsHexLiteral(text) then 16 else 10;
    var skip := if IsHexLiteral(text) then 2 else 0;
    assert base == LiteralBase(text);
    var i := skip;
    while i < |text|
      invariant skip <= i <= |text| && |digits| == |text| - skip
      invariant num == HornerWrap(digits[..i - skip], base)
      decreases |text| - i
    {
      var d := if IsHexLiteral(text) then HexValue(text[i]) else text[i] as int - '0' as int;
      LiteralDigitAt(text, i - skip);
      assert d == digits[i - skip];
      HornerWrapSnoc(digits, i - skip, base);
      num := Wrap(num * base + d);
      i := i + 1;
    }
    assert digits[..|text| - skip] == digits;
    HornerWrapIsWrap(digits, base);
  }

  lemma LiteralDigitAt(text: string, j: nat)
    requires j < |LiteralDigits(text)|
    ensures IsHexLiteral(text) ==> LiteralDigits(text)[j] == HexValue(text[j + 2])
    ensures !IsHexLiteral(text) ==> LiteralDigits(text)[j] == text[j] as int - '0' as int
  {
  }

  lemma HornerWrapSnoc(digits: seq<int>, k: nat, base: int)
    requires k < |digits|
    ensures HornerWrap(digits[..k + 1], base) == Wrap(HornerWrap(digits[..k], base) * base + digits[k])
  {
    assert digits[..k + 1][..k] == digits[..k];
  }

  /** AU_OP_MOV_U16 and AU_OP_LOAD_CONST. */
  const MovU16Op: u8 := 1
  const LoadConstOp: u8 := 20

  /** The code of an int literal: a new register, then MOV_U16 with the
      value truncated to 16 bits when num <= 0x8000, otherwise LOAD_CONST
      with the index of the constant (constIdx, from the program data). A
      literal in 0..0x8000 is loaded as itself. */
  method EmitIntLiteral(num: Int32, constIdx: nat, alloc: Allocator, em: Emitter) returns (r: Result<(), Failure>)
    requires alloc.Valid()
    modifies alloc, alloc.used, alloc.rstack, em
    ensures alloc.Valid() && unchanged(alloc.pinned)
    ensures r.Ok? <==> old(alloc.rstackLen) < NumRegs && FirstFree(old(alloc.used[..]), 0).Some?
    ensures r.Err? ==> r.error == BytecodeGen && em.bc == old(em.bc)
    ensures r.Ok? ==>
      var reg := FirstFree(old(alloc.used[..]), 0).value;
      alloc.Stack() == old(alloc.Stack()) + [reg] &&
      em.bc == old(em.bc) + (if num <= 0x8000 then [MovU16Op, reg] + U16Bytes(num % U16Limit)
                             else [LoadConstOp, reg] + U16Bytes(constIdx % U16Limit))
    ensures r.Ok? && 0 <= num <= 0x8000 ==> ReadU16(em.bc, old(|em.bc|) + 2) == num
    ensures r.Ok? && num > 0x8000 && constIdx < U16Limit ==> ReadU16(em.bc, old(|em.bc|) + 2) == constIdx
  {
    var reg := alloc.NewReg();
    if reg.None? {
      return Err(BytecodeGen);
    }
    if num <= 0x8000 {
      em.EmitU8(MovU16Op);
      em.EmitU8(reg.value);
      em.EmitU16(num % U16Limit);
    } else {
      em.EmitU8(LoadConstOp);
      em.EmitU8(reg.value);
      em.EmitU16(constIdx % U16Limit);
    }
    return Ok(());
  }

  /** A decimal literal whose value fits in int32 decodes to that value. */
  lemma DecimalLiteral(text: string)
    requires !IsHexLiteral(text) && forall i :: 0 <= i < |text| ==> Lexer.IsDigit(text[i])
    requires Horner(LiteralDigits(text), 10) <= Int32Max
    ensures LiteralValue(text) == Horner(LiteralDigits(text), 10)
  {
    HornerNonNegative(LiteralDigits(text), 10);
    HornerWrapIsWrap(LiteralDigits(text), 10);
    WrapUnique(Horner(LiteralDigits(text), 10), Horner(LiteralDigits(text), 10));
  }

  lemma {:induction false} HornerNonNegative(digits: seq<int>, base: nat)
    requires forall i :: 0 <= i < |digits| ==> 0 <= digits[i]
    ensures Horner(digits, base) >= 0
  {
    if |digits| > 0 {
      HornerNonNegative(digits[..|digits| - 1], base);
    }
  }

  // ---- string escapes -------------------------------------------------------------

  /** The character an escape sequence stands for. */
  function EscapeChar(ch: char): char
  {
    if ch == 'n' then '\n' else ch
  }

  /** The string-escape loop of au_parser_exec_value from index i: inEscape
      after a backslash; formatted is None until the first escape, when it
      starts as the text before that backslash. */
  function UnescapeFrom(text: string, i: nat, inEscape: bool, formatted: Option<string>): Option<string>
    requires i <= |text| && (inEscape ==> 0 < i)
    decreases |text| - i
  {
    if i == |text| then formatted
    else if text[i] == '\\' && !inEscape then UnescapeFrom(text, i + 1, true, formatted)
    else if inEscape then
      var base := if formatted.None? then text[..i - 1] else formatted.value;
      UnescapeFrom(text, i + 1, false, Some(base + [EscapeChar(text[i])]))
    else if formatted.Some? then UnescapeFrom(text, i + 1, false, Some(formatted.value + [text[i]]))
    else UnescapeFrom(text, i + 1, false, None)
  }

  /** The string constant: the formatted string when there was an escape,
      the token text otherwise. */
  function Unescaped(text: string): string
  {
    match UnescapeFrom(text, 0, false, None)
    case None => text
    case Some(s) => s
  }

  /** The string-escape loop itself. */
  method Unescape(text: string) returns (r: string)
    ensures r == Unescaped(text)
  {
    var formatted: Option<string> := None;
    var inEscape := false;
    var i := 0;
    while i < |text|
      invariant i <= |text| && (inEscape ==> 0 < i)
      invariant UnescapeFrom(text, i, inEscape, formatted) == UnescapeFrom(text, 0, false, None)
      decreases |text| - i
    {
      if text[i] == '\\' && !inEscape {
        inEscape := true;
        i := i + 1;
        continue;
      }
      if inEscape {
        if formatted.None? {
          formatted := Some(text[..i - 1]);
        }
        formatted := Some(formatted.value + [EscapeChar(text[i])]);
        inEscape := false;
      } else if formatted.Some? {
        formatted := Some(formatted.value + [text[i]]);
      }
      i := i + 1;
    }
    r := if formatted.None? then text else formatted.value;
  }

  /** Escape sequences read pairwise: a backslash and the character after
      it stand for one character, any other character for itself. */
  function Decode(s: string): string
  {
    if |s| == 0 then []
    else if s[0] == '\\' && |s| >= 2 then [EscapeChar(s[1])] + Decode(s[2..])
    else [s[0]] + Decode(s[1..])
  }

  /** The text ends in a backslash that escapes nothing. */
  predicate EndsInEscape(s: string)
  {
    if |s| == 0 then false
    else if s[0] == '\\' then |s| == 1 || EndsInEscape(s[2..])
    else EndsInEscape(s[1..])
  }

  lemma {:induction false} DecodePlain(s: string)
    requires '\\' !in s
    ensures Decode(s) == s
  {
    if |s| > 0 {
      assert s[0] in s;
      assert forall c :: c in s[1..] ==> c in s;
      DecodePlain(s[1..]);
    }
  }

  lemma {:induction false} UnescapeFromFormatted(text: string, i: nat, a: string)
    requires i <= |text| && !EndsInEscape(text[i..])
    ensures UnescapeFrom(text, i, false, Some(a)) == Some(a + Decode(text[i..]))
    decreases |text| - i
  {
    if i == |text| {
      assert a + [] == a;
    } else if text[i] == '\\' {
      var rest := text[i..];
      assert rest[0] == '\\' && |rest| >= 2 && !EndsInEscape(rest[2..]);
      assert rest[2..] == text[i + 2..] && rest[1] == text[i + 1];
      var e := EscapeChar(text[i + 1]);
      assert Decode(rest) == [e] + Decode(text[i + 2..]);
      UnescapeFromFormatted(text, i + 2, a + [e]);
      assert UnescapeFrom(text, i, false, Some(a)) == UnescapeFrom(text, i + 2, false, Some(a + [e]));
      assert a + [e] + Decode(text[i + 2..]) == a + Decode(rest);
    } else {
      var rest := text[i..];
      assert rest[0] == text[i] && rest[1..] == text[i + 1..];
      assert !EndsInEscape(text[i + 1..]);
      assert Decode(rest) == [text[i]] + Decode(text[i + 1..]);
      UnescapeFromFormatted(text, i + 1, a + [text[i]]);
      assert a + [text[i]] + Decode(text[i + 1..]) == a + Decode(rest);
    }
  }

  lemma {:induction false} UnescapeFromPlain(text: string, i: nat)
    requires i <= |text| && !EndsInEscape(text[i..])
    ensures UnescapeFrom(text, i, false, None) ==
      if '\\' in text[i..] then Some(text[..i] + Decode(text[i..])) else None
    decreases |text| - i
  {
    if i == |text| {
    } else if text[i] == '\\' {
      var rest := text[i..];
      assert rest[0] == '\\' && |rest| >= 2 && !EndsInEscape(rest[2..]);
      assert rest[2..] == text[i + 2..] && rest[1] == text[i + 1];
      assert text[i] in rest;
      var e := EscapeChar(text[i + 1]);
      assert Decode(rest) == [e] + Decode(text[i + 2..]);
      UnescapeFromFormatted(text, i + 2, text[..i] + [e]);
      assert UnescapeFrom(text, i, false, None) == UnescapeFrom(text, i + 2, false, Some(text[..i] + [e]));
      assert text[..i] + [e] + Decode(text[i + 2..]) == text[..i] + Decode(rest);
    } else {
      var rest := text[i..];
      assert rest[0] == text[i] && rest[1..] == text[i + 1..];
      assert rest == [text[i]] + text[i + 1..];
      assert !EndsInEscape(text[i + 1..]);
      assert Decode(rest) == [text[i]] + Decode(text[i + 1..]);
      assert text[..i + 1] == text[..i] + [text[i]];
      UnescapeFromPlain(text, i + 1);
      assert ('\\' in rest) == ('\\' in text[i + 1..]);
      assert text[..i + 1] + Decode(text[i + 1..]) == text[..i] + Decode(rest);
    }
  }

  /** Unless the text ends in an unpaired backslash, the escape loop
      decodes exactly the pairwise reading: "\n" becomes a newline, any
      other escaped character stands for itself, and the backslash is
      dropped. */
  lemma UnescapedDecodes(text: string)
    requires !EndsInEscape(text)
    ensures Unescaped(text) == Decode(text)
  {
    assert text[0..] == text;
    UnescapeFromPlain(text, 0);
    if '\\' !in text {
      DecodePlain(text);
    }
  }
}
