/** The bit-vector expressions that the Z3 parser builds, with their sorts, their values and the input bytes they read. */
module Z3Expr {
  import opened Base
  import opened Labels

  /** An input byte: input id and offset. */
  type Offset = (nat, nat)

  datatype Sort = BvSort(bits: nat) | BoolSort

  datatype Expr =
    | InputByte(off: Offset)
    | BvVal(v: nat, bits: nat)
    | BoolVal(b: bool)
    | IteBit(e: Expr)                          // a boolean as one bit
    | Zext(e: Expr, k: nat)
    | Sext(e: Expr, k: nat)
    | Slice(e: Expr, hi: nat, lo: nat)
    | Join(high: Expr, low: Expr)
    | LNot(e: Expr)
    | Negative(e: Expr)
    | Differs(x: Expr, y: Expr)                // ite(x == y, 0, 1) on 32 bits
    | Logic(op: Op, x: Expr, y: Expr)          // boolean and, or, xor
    | Arith(op: Op, x: Expr, y: Expr)          // bit-vector operators
    | Cmp(pred: Predicate, x: Expr, y: Expr)
    | Equals(x: Expr, y: Expr)
    | NotEquals(x: Expr, y: Expr)

  predicate IsBvSort(s: Option<Sort>) {
    s.Some? && s.value.BvSort?
  }

  function Width(s: Option<Sort>): nat {
    if IsBvSort(s) then s.value.bits else 1
  }

  /** The sort of an expression; None means that Z3 throws when it is built. */
  function SortOf(e: Expr): Option<Sort>
  {
    match e
    case InputByte(_) => Some(BvSort(8))
    case BvVal(_, bits) => if bits > 0 then Some(BvSort(bits)) else None
    case BoolVal(_) => Some(BoolSort)
    case IteBit(x) => if SortOf(x) == Some(BoolSort) then Some(BvSort(1)) else None
    case Zext(x, k) => if IsBvSort(SortOf(x)) then Some(BvSort(Width(SortOf(x)) + k)) else None
    case Sext(x, k) => if IsBvSort(SortOf(x)) then Some(BvSort(Width(SortOf(x)) + k)) else None
    case Slice(x, hi, lo) => if IsBvSort(SortOf(x)) && lo <= hi < Width(SortOf(x)) then Some(BvSort(hi - lo + 1)) else None
    case Join(h, l) =>
      if IsBvSort(SortOf(h)) && IsBvSort(SortOf(l)) then Some(BvSort(Width(SortOf(h)) + Width(SortOf(l)))) else None
    case LNot(x) => if SortOf(x) == Some(BoolSort) then Some(BoolSort) else None
    case Negative(x) => if IsBvSort(SortOf(x)) then SortOf(x) else None
    case Differs(x, y) => if SortOf(x) == SortOf(y) && SortOf(x).Some? then Some(BvSort(32)) else None
    case Logic(_, x, y) => if SortOf(x) == SortOf(y) == Some(BoolSort) then Some(BoolSort) else None
    case Arith(_, x, y) => if IsBvSort(SortOf(x)) && SortOf(x) == SortOf(y) then SortOf(x) else None
    case Cmp(p, x, y) =>
      if SortOf(x) == SortOf(y) && SortOf(x).Some? && (IsBvSort(SortOf(x)) || p == Bveq || p == Bvneq) then Some(BoolSort)
      else None
    case Equals(x, y) => if SortOf(x) == SortOf(y) && SortOf(x).Some? then Some(BoolSort) else None
    case NotEquals(x, y) => if SortOf(x) == SortOf(y) && SortOf(x).Some? then Some(BoolSort) else None
  }

  predicate IsBv(e: Expr) {
    IsBvSort(SortOf(e))
  }

  predicate IsBool(e: Expr) {
    SortOf(e) == Some(BoolSort)
  }

  function Bits(e: Expr): nat {
    Width(SortOf(e))
  }

  /** What a bit-vector operator of a given width computes; any function will do. */
  type ArithMeaning = (Op, nat, nat, nat) -> nat

  type Input = Offset -> nat

  function Times(x: nat, y: nat): nat { x * y }

  /** Fills `k` more high bits with the sign bit. */
  function SignExtend(x: nat, bits: nat, k: nat): nat {
    if bits > 0 && x >= Pow2(bits - 1) then x + Times(Pow2(bits), Pow2(k) - 1) else x
  }

  predicate Holds(p: Predicate, x: nat, y: nat, bits: nat) {
    match p
    case Bveq => x == y
    case Bvneq => x != y
    case Bvugt => x > y
    case Bvuge => x >= y
    case Bvult => x < y
    case Bvule => x <= y
    case Bvsgt => Signed(x, bits) > Signed(y, bits)
    case Bvsge => Signed(x, bits) >= Signed(y, bits)
    case Bvslt => Signed(x, bits) < Signed(y, bits)
    case Bvsle => Signed(x, bits) <= Signed(y, bits)
  }

  function LogicValue(op: Op, x: nat, y: nat): nat {
    match op
    case And => B(x != 0 && y != 0)
    case Or => B(x != 0 || y != 0)
    case _ => B((x != 0) != (y != 0))
  }

  /** The value of an expression on an input; booleans are 0 and 1. */
  function Eval(m: ArithMeaning, input: Input, e: Expr): nat {
    match e
    case InputByte(off) => input(off) % 256
    case BvVal(v, bits) => v % Pow2(bits)
    case BoolVal(b) => B(b)
    case IteBit(x) => Eval(m, input, x)
    case Zext(x, _) => Eval(m, input, x)
    case Sext(x, k) => SignExtend(Eval(m, input, x), Bits(x), k)
    case Slice(x, hi, lo) => if lo <= hi then Eval(m, input, x) / Pow2(lo) % Pow2(hi - lo + 1) else 0
    case Join(h, l) => Times(Eval(m, input, h), Pow2(Bits(l))) + Eval(m, input, l)
    case LNot(x) => B(Eval(m, input, x) == 0)
    case Negative(x) => m(Neg, Bits(x), 0, Eval(m, input, x)) % Pow2(Bits(x))
    case Differs(x, y) => B(Eval(m, input, x) != Eval(m, input, y))
    case Logic(op, x, y) => LogicValue(op, Eval(m, input, x), Eval(m, input, y))
    case Arith(op, x, y) => m(op, Bits(x), Eval(m, input, x), Eval(m, input, y)) % Pow2(Bits(x))
    case Cmp(p, x, y) => B(Holds(p, Eval(m, input, x), Eval(m, input, y), Bits(x)))
    case Equals(x, y) => B(Eval(m, input, x) == Eval(m, input, y))
    case NotEquals(x, y) => B(Eval(m, input, x) != Eval(m, input, y))
  }

  predicate True(m: ArithMeaning, input: Input, e: Expr) {
    Eval(m, input, e) != 0
  }

  /** The input bytes an expression mentions. */
  function Reads(e: Expr): set<Offset> {
    match e
    case InputByte(off) => {off}
    case BvVal(_, _) => {}
    case BoolVal(_) => {}
    case IteBit(x) => Reads(x)
    case Zext(x, _) => Reads(x)
    case Sext(x, _) => Reads(x)
    case Slice(x, _, _) => Reads(x)
    case Join(h, l) => Reads(h) + Reads(l)
    case LNot(x) => Reads(x)
    case Negative(x) => Reads(x)
    case Differs(x, y) => Reads(x) + Reads(y)
    case Logic(_, x, y) => Reads(x) + Reads(y)
    case Arith(_, x, y) => Reads(x) + Reads(y)
    case Cmp(_, x, y) => Reads(x) + Reads(y)
    case Equals(x, y) => Reads(x) + Reads(y)
    case NotEquals(x, y) => Reads(x) + Reads(y)
  }

  ghost predicate Agree(s: set<Offset>, a: Input, b: Input) {
    forall o :: o in s ==> a(o) == b(o)
  }

  /** The value of an expression depends on the bytes it reads and on nothing else. */
  lemma {:induction false} ReadsSuffice(m: ArithMeaning, a: Input, b: Input, e: Expr)
    requires Agree(Reads(e), a, b)
    ensures Eval(m, a, e) == Eval(m, b, e)
  {
    match e
    case InputByte(_) =>
    case BvVal(_, _) =>
    case BoolVal(_) =>
    case IteBit(x) => ReadsSuffice(m, a, b, x);
    case Zext(x, _) => ReadsSuffice(m, a, b, x);
    case Sext(x, _) => ReadsSuffice(m, a, b, x);
    case Slice(x, _, _) => ReadsSuffice(m, a, b, x);
    case Join(h, l) => ReadsSuffice(m, a, b, h); ReadsSuffice(m, a, b, l);
    case LNot(x) => ReadsSuffice(m, a, b, x);
    case Negative(x) => ReadsSuffice(m, a, b, x);
    case Differs(x, y) => ReadsSuffice(m, a, b, x); ReadsSuffice(m, a, b, y);
    case Logic(_, x, y) => ReadsSuffice(m, a, b, x); ReadsSuffice(m, a, b, y);
    case Arith(_, x, y) => ReadsSuffice(m, a, b, x); ReadsSuffice(m, a, b, y);
    case Cmp(_, x, y) => ReadsSuffice(m, a, b, x); ReadsSuffice(m, a, b, y);
    case Equals(x, y) => ReadsSuffice(m, a, b, x); ReadsSuffice(m, a, b, y);
    case NotEquals(x, y) => ReadsSuffice(m, a, b, x); ReadsSuffice(m, a, b, y);
  }

  // ---- widths ----

  lemma {:induction false} TimesMonotone(a: nat, b: nat, q: nat)
    requires a <= b
    ensures a * q <= b * q
  {
    assert b * q == a * q + (b - a) * q;
  }

  lemma {:induction false} ProductBound(h: nat, p: nat, l: nat, q: nat)
    requires h < p && l < q
    ensures h * q + l < p * q
  {
    TimesMonotone(h + 1, p, q);
    assert (h + 1) * q == h * q + q;
  }

  lemma {:induction false} JoinRange(h: nat, l: nat, a: nat, b: nat)
    requires h < Pow2(a) && l < Pow2(b)
    ensures Times(h, Pow2(b)) + l < Pow2(a + b)
  {
    Pow2Add(a, b);
    ProductBound(h, Pow2(a), l, Pow2(b));
  }

  lemma {:induction false} SignExtendRange(x: nat, bits: nat, k: nat)
    requires x < Pow2(bits)
    ensures SignExtend(x, bits, k) < Pow2(bits + k)
  {
    Pow2Add(bits, k);
    Pow2Monotone(bits, bits + k);
    assert Pow2(bits) * (Pow2(k) - 1) == Pow2(bits) * Pow2(k) - Pow2(bits);
  }

  lemma {:induction false} OneBit(b: bool, n: nat)
    requires n > 0
    ensures B(b) < Pow2(n)
  {
    Pow2Monotone(1, n);
    assert Pow2(1) == 2;
  }
}
