/** What a label stands for: the value of its expression on a given input. */
module LabelValues {
  import opened Base
  import opened Labels
  import opened Z3Expr

  /** An input, the meaning of the bit-vector operators, and the constant buffers that memcmp labels compare with. */
  datatype World = World(input: Input, arith: ArithMeaning, content: nat -> nat)

  /** The number of bytes a Load reads. */
  function LoadSize(n: nat): nat { if n == 0 then 1 else n }

  /** The width in bits of a label's value; one for truth values. */
  function LabelBits(table: seq<LabelInfo>, l: nat): nat
    requires Ordered(table) && l < |table|
    decreases l
  {
    if l == 0 then 0
    else
      var info := table[l];
      match info.op
      case Input => 8
      case Load => 8 * LoadSize(info.l2)
      case Fmemcmp => 32
      case IntToPtr => LabelBits(table, info.l1)
      case Neg => LabelBits(table, info.l2)
      case Not => 1
      case ICmp(_) => 1
      case Concat =>
        (if info.l1 == 0 then ConcatRest(table, info, info.l2) else LabelBits(table, info.l1))
        + (if info.l2 == 0 then ConcatRest(table, info, info.l1) else LabelBits(table, info.l2))
      case _ => info.size
  }

  /** What the symbolic operand of a Concat leaves for its constant operand. */
  function ConcatRest(table: seq<LabelInfo>, info: LabelInfo, other: nat): nat
    requires other < |table|
  {
    (info.size - table[other].size) % 0x100
  }

  /** Consecutive bytes as one number, the first byte lowest. */
  function Bytes(input: Input, first: Offset, n: nat): nat {
    if n <= 1 then input(first) % 256
    else Bytes(input, first, n - 1) + Times(input((first.0, first.1 + n - 1)) % 256, Pow2(8 * (n - 1)))
  }

  predicate IsBitwise(op: Op) {
    op == And || op == Or
  }

  /** The value of label `l`.  Operands are taken at the width of the operator. */
  function Value(w: World, table: seq<LabelInfo>, l: nat): nat
    requires Ordered(table) && l < |table|
    decreases l, 1
  {
    if l == 0 then 0
    else
      var info := table[l];
      match info.op
      case Input => w.input((info.op2, info.op1)) % 256
      case Load => Bytes(w.input, (table[info.l1].op2, table[info.l1].op1), info.l2)
      case ZExt => Value(w, table, info.l1)
      case IntToPtr => Value(w, table, info.l1)
      case SExt => SignExtend(Value(w, table, info.l1), LabelBits(table, info.l1),
                              if info.size < LabelBits(table, info.l1) then 0 else info.size - LabelBits(table, info.l1))
      case Trunc => Value(w, table, info.l1) % Pow2(info.size)
      case Extract => Value(w, table, info.l1) / Pow2(info.op2) % Pow2(info.size)
      case Not => B(Value(w, table, info.l2) == 0)
      case Neg => w.arith(Neg, LabelBits(table, info.l2), 0, Value(w, table, info.l2)) % Pow2(LabelBits(table, info.l2))
      case Fmemcmp =>
        B((if info.l1 == 0 then w.content(l) else Value(w, table, info.l1)) != Value(w, table, info.l2))
      case Concat =>
        if info.l1 == 0 then
          info.op1 % Pow2(ConcatRest(table, info, info.l2))
          + Times(Value(w, table, info.l2), Pow2(ConcatRest(table, info, info.l2)))
        else
          Value(w, table, info.l1)
          + Times(if info.l2 == 0 then info.op2 % Pow2(ConcatRest(table, info, info.l1)) else Value(w, table, info.l2),
                  Pow2(LabelBits(table, info.l1)))
      case ICmp(p) => B(Holds(p, Operand(w, table, l, false), Operand(w, table, l, true), info.size))
      case _ =>
        if info.size == 1 && IsBitwise(info.op) then
          LogicValue(info.op, Operand(w, table, l, false), Operand(w, table, l, true))
        else
          w.arith(info.op, info.size, Operand(w, table, l, false), Operand(w, table, l, true)) % Pow2(info.size)
  }

  /** An operand of label `l`, cut to the width of the operator. */
  function Operand(w: World, table: seq<LabelInfo>, l: nat, second: bool): nat
    requires Ordered(table) && 0 < l < |table|
    decreases l, 0
  {
    var info := table[l];
    var k := if second then info.l2 else info.l1;
    var c := if second then info.op2 else info.op1;
    if k != 0 then Value(w, table, k) % Pow2(info.size)
    else if info.size == 1 then B(c == 1)
    else c % Pow2(info.size)
  }
}
