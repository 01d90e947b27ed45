/** Definitions used throughout. */
module Base {

  datatype Option<+T> = None | Some(value: T)

  const WRAP8: nat := 0x100
  const WRAP16: nat := 0x1_0000
  const WRAP32: nat := 0x1_0000_0000
  const WRAP64: nat := 0x1_0000_0000_0000_0000

  function B(b: bool): nat { if b then 1 else 0 }

  function Pow2(n: nat): (r: nat)
    ensures r > 0
  {
    if n == 0 then 1 else 2 * Pow2(n - 1)
  }

  lemma {:induction false} Pow2Monotone(m: nat, n: nat)
    requires m <= n
    ensures Pow2(m) <= Pow2(n)
    decreases n
  {
    if m < n { Pow2Monotone(m, n - 1); }
  }

  lemma {:induction false} Pow2Add(m: nat, n: nat)
    ensures Pow2(m + n) == Pow2(m) * Pow2(n)
    decreases n
  {
    if n > 0 {
      Pow2Add(m, n - 1);
      assert Pow2(m + n) == 2 * Pow2(m + (n - 1));
    }
  }

  lemma {:induction false} Pow2Small()
    ensures Pow2(0) == 1 && Pow2(1) == 2
  {
  }

  lemma {:induction false} Pow2Of8()
    ensures Pow2(8) == 256
  {
    assert Pow2(4) == 16;
    Pow2Add(4, 4);
  }

  lemma {:induction false} Pow2Of64()
    ensures Pow2(64) == WRAP64
  {
    hide Pow2;
    Pow2Of8();
    Pow2Add(8, 8);
    Pow2Add(16, 16);
    Pow2Add(32, 32);
  }

  lemma {:induction false} ModSmall(x: nat, m: nat)
    requires x < m
    ensures x % m == x
  {
  }

  lemma {:induction false} DivOne(x: nat)
    ensures x / Pow2(0) == x
  {
    assert Pow2(0) == 1;
  }

  /** The two's complement reading of an n-bit value. */
  function Signed(x: nat, bits: nat): int {
    if bits > 0 && x >= Pow2(bits - 1) then x - Pow2(bits) else x
  }
}

/** The label table entries shared by the runtime and the parsers (runtime/dfsan/dfsan.h). */
module Labels {
  import opened Base

  datatype Predicate = Bveq | Bvneq | Bvugt | Bvuge | Bvult | Bvule | Bvsgt | Bvsge | Bvslt | Bvsle

  /** The operators.  LLVM opcodes without a case of their own are `Other`; `Input` is opcode 0. */
  datatype Op =
    | Input | Not | Neg
    | Add | Sub | Mul | UDiv | SDiv | URem | SRem
    | Shl | LShr | AShr | And | Or | Xor
    | Alloca | Free | Load
    | Trunc | ZExt | SExt | PtrToInt | IntToPtr | BitCast
    | ICmp(pred: Predicate)
    | Extract | Concat | Fmemcmp | Fsize | Fatoi
    | Other(code: nat)

  /** Comparisons, which give truth values. */
  predicate IsCompare(op: Op) {
    op.ICmp? || op == Fmemcmp
  }

  /** For `Load`, `l2` is a number of bytes; everywhere else `l1` and `l2` are labels, 0 meaning a constant
      operand whose value is in `op1` or `op2`. */
  datatype LabelInfo = LabelInfo(l1: nat, l2: nat, op1: nat, op2: nat, op: Op, size: nat)

  const CONST_OFFSET: nat := 1
  const INITIALIZING: nat := 0xFFFF_FFFF

  /** Children were allocated before their parent. */
  ghost predicate Ordered(table: seq<LabelInfo>) {
    && |table| > 0
    && forall l :: 0 < l < |table| ==> table[l].l1 < l && table[l].l2 < l
  }
}
