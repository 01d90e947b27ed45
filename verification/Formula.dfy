/** parsers/rgd-parser.cpp, to_nnf and to_dnf: from a boolean formula over comparison leaves to clauses of literals. */
module Formula {
  import opened Base
  import opened Ast

  /** The values that decide the leaves: the operands of every comparison label and the outcome of every memcmp. */
  datatype Env = Env(lhs: nat -> nat, rhs: nat -> nat, bits: nat -> nat, differs: nat -> bool)

  predicate CompareLeaf(d: Data, env: Env) {
    Compare(d.kind, env.lhs(d.node), env.rhs(d.node), env.bits(d.node))
  }

  /** The meaning of a formula as find_roots builds it: Memcmp is true when the two buffers differ. */
  predicate Eval(t: Tree, env: Env) {
    match t
    case T0(d) => if d.kind == Memcmp then env.differs(d.node) else CompareLeaf(d, env)
    case T1(d, s) => d.kind == LNot && !Eval(s, env)
    case T2(d, l, r) =>
      || (d.kind == LAnd && Eval(l, env) && Eval(r, env))
      || (d.kind == LOr && (Eval(l, env) || Eval(r, env)))
      || (d.kind == Xor && Eval(l, env) != Eval(r, env))
  }

  /** LAnd / LOr / LNot over relational and memcmp leaves. */
  predicate IsFormula(t: Tree) {
    match t
    case T0(d) => IsRelational(d.kind) || d.kind == Memcmp
    case T1(d, s) => d.kind == LNot && IsFormula(s)
    case T2(d, l, r) => (d.kind == LAnd || d.kind == LOr) && IsFormula(l) && IsFormula(r)
  }

  /** A leaf as a literal of a clause: here Memcmp asks for equal buffers and MemcmpN for different ones. */
  predicate LiteralTrue(d: Data, env: Env) {
    if d.kind == Memcmp then !env.differs(d.node)
    else if d.kind == MemcmpN then env.differs(d.node)
    else CompareLeaf(d, env)
  }

  predicate IsLiteral(d: Data) {
    IsRelational(d.kind) || d.kind == Memcmp || d.kind == MemcmpN
  }

  // ---- negation normal form ----

  /** What to_nnf turns a tree into; None is the INVALID_NODE return. */
  function Nnf(expected: bool, t: Tree): Option<Tree>
    decreases t
  {
    if t.data.kind == LNot then
      if t.T1? then Nnf(!expected, t.sub) else None
    else if !expected && (t.data.kind == LAnd || t.data.kind == LOr) then
      if t.T2? then
        Pair(t.data.(kind := if t.data.kind == LAnd then LOr else LAnd), Nnf(false, t.left), Nnf(false, t.right))
      else None
    else if !expected then
      if IsRelational(t.data.kind) then Some(t.(data := t.data.(kind := NegateCmp(t.data.kind))))
      else if t.data.kind == Memcmp then Some(t)
      else None
    else if t.data.kind == Memcmp then
      Some(t.(data := t.data.(kind := MemcmpN)))
    else
      match t
      case T0(_) => Some(t)
      case T1(d, s) => (match Nnf(true, s) case Some(s') => Some(T1(d, s')) case None => None)
      case T2(d, l, r) => Pair(d, Nnf(true, l), Nnf(true, r))
  }

  function Pair(d: Data, l: Option<Tree>, r: Option<Tree>): Option<Tree> {
    if l.Some? && r.Some? then Some(T2(d, l.value, r.value)) else None
  }

  /** A formula without LNot whose leaves are literals. */
  predicate IsNnf(t: Tree) {
    match t
    case T0(d) => IsLiteral(d)
    case T1(_, _) => false
    case T2(d, l, r) => (d.kind == LAnd || d.kind == LOr) && IsNnf(l) && IsNnf(r)
  }

  predicate EvalNnf(t: Tree, env: Env) {
    match t
    case T0(d) => LiteralTrue(d, env)
    case T1(_, _) => false
    case T2(d, l, r) => if d.kind == LAnd then EvalNnf(l, env) && EvalNnf(r, env) else EvalNnf(l, env) || EvalNnf(r, env)
  }

  lemma {:induction false} NegateCmpNegates(k: Kind, x: nat, y: nat, bits: nat)
    requires IsRelational(k)
    ensures IsRelational(NegateCmp(k)) && NegateCmp(NegateCmp(k)) == k
    ensures Compare(NegateCmp(k), x, y, bits) == !Compare(k, x, y, bits)
  {
  }

  /** to_nnf never fails on a formula, and its result holds exactly when the formula has the expected value. */
  lemma {:induction false} NnfMeaning(expected: bool, t: Tree, env: Env)
    requires IsFormula(t)
    ensures Nnf(expected, t).Some? && IsNnf(Nnf(expected, t).value)
    ensures EvalNnf(Nnf(expected, t).value, env) <==> Eval(t, env) == expected
    decreases t
  {
    match t
    case T0(d) => NnfLeaf(expected, d, env);
    case T1(d, s) => NnfMeaning(!expected, s, env);
    case T2(d, l, r) => NnfMeaning(expected, l, env); NnfMeaning(expected, r, env);
  }

  lemma {:induction false} NnfLeaf(expected: bool, d: Data, env: Env)
    requires IsFormula(T0(d))
    ensures Nnf(expected, T0(d)).Some? && IsNnf(Nnf(expected, T0(d)).value)
    ensures EvalNnf(Nnf(expected, T0(d)).value, env) <==> Eval(T0(d), env) == expected
  {
    if IsRelational(d.kind) { NegateCmpNegates(d.kind, env.lhs(d.node), env.rhs(d.node), env.bits(d.node)); }
  }

  // ---- disjunctive normal form ----

  type Clause = seq<Data>

  /** Every clause of `left` joined with every clause of `right`, in the order of the two nested loops. */
  function Product(left: seq<Clause>, right: seq<Clause>): seq<Clause> {
    if left == [] then [] else Times(left[0], right) + Product(left[1..], right)
  }

  function Times(c: Clause, right: seq<Clause>): seq<Clause> {
    seq(|right|, i requires 0 <= i < |right| => c + right[i])
  }

  /** The clauses of a missing child: reading it yields the arena's dummy node, which counts as a leaf. */
  const MISSING: seq<Clause> := [[EMPTY.data]]

  function Dnf(t: Tree): (f: seq<Clause>)
    ensures f != []
  {
    var left := if t.T0? then MISSING else if t.T1? then Dnf(t.sub) else Dnf(t.left);
    var right := if t.T2? then Dnf(t.right) else MISSING;
    if t.data.kind == LAnd then
      ProductNonEmpty(left, right);
      Product(left, right)
    else if t.data.kind == LOr then
      left + right
    else
      [[t.data]]
  }

  lemma {:induction false} ProductNonEmpty(left: seq<Clause>, right: seq<Clause>)
    requires left != [] && right != []
    ensures Product(left, right) != []
  {
    assert |Times(left[0], right)| > 0;
  }

  predicate ClauseTrue(c: Clause, env: Env) {
    forall d :: d in c ==> LiteralTrue(d, env)
  }

  /** Some clause has all its literals true. */
  ghost predicate Satisfied(f: seq<Clause>, env: Env) {
    exists i :: 0 <= i < |f| && ClauseTrue(f[i], env)
  }

  lemma {:induction false} SatisfiedConcat(f: seq<Clause>, g: seq<Clause>, env: Env)
    ensures Satisfied(f + g, env) <==> Satisfied(f, env) || Satisfied(g, env)
  {
    if Satisfied(f, env) {
      var i :| 0 <= i < |f| && ClauseTrue(f[i], env);
      assert (f + g)[i] == f[i];
    }
    if Satisfied(g, env) {
      var i :| 0 <= i < |g| && ClauseTrue(g[i], env);
      assert (f + g)[|f| + i] == g[i];
    }
  }

  lemma {:induction false} SatisfiedTimes(c: Clause, right: seq<Clause>, env: Env)
    ensures Satisfied(Times(c, right), env) <==> ClauseTrue(c, env) && Satisfied(right, env)
  {
    forall i | 0 <= i < |right|
      ensures ClauseTrue(c + right[i], env) <==> ClauseTrue(c, env) && ClauseTrue(right[i], env)
    {
      if ClauseTrue(c + right[i], env) {
        forall d | d in c || d in right[i] ensures LiteralTrue(d, env) { assert d in c + right[i]; }
      }
    }
    var f := Times(c, right);
    assert forall i :: 0 <= i < |right| ==> f[i] == c + right[i];
    if ClauseTrue(c, env) && Satisfied(right, env) {
      var i :| 0 <= i < |right| && ClauseTrue(right[i], env);
      assert ClauseTrue(f[i], env);
    }
    if Satisfied(f, env) {
      var i :| 0 <= i < |f| && ClauseTrue(f[i], env);
      assert ClauseTrue(right[i], env);
    }
  }

  lemma {:induction false} SatisfiedProduct(left: seq<Clause>, right: seq<Clause>, env: Env)
    ensures Satisfied(Product(left, right), env) <==> Satisfied(left, env) && Satisfied(right, env)
  {
    if left == [] {
    } else {
      SatisfiedTimes(left[0], right, env);
      SatisfiedProduct(left[1..], right, env);
      SatisfiedConcat(Times(left[0], right), Product(left[1..], right), env);
      assert left == [left[0]] + left[1..];
      SatisfiedConcat([left[0]], left[1..], env);
      assert Satisfied([left[0]], env) <==> ClauseTrue(left[0], env) by {
        if ClauseTrue(left[0], env) { assert ClauseTrue([left[0]][0], env); }
      }
    }
  }

  lemma {:induction false} DnfMeaning(t: Tree, env: Env)
    requires IsNnf(t)
    ensures Satisfied(Dnf(t), env) <==> EvalNnf(t, env)
  {
    match t
    case T0(d) =>
      assert Dnf(t)[0] == [d];
      if LiteralTrue(d, env) { assert ClauseTrue(Dnf(t)[0], env); }
    case T2(d, l, r) =>
      DnfMeaning(l, env);
      DnfMeaning(r, env);
      if d.kind == LAnd { SatisfiedProduct(Dnf(l), Dnf(r), env); }
      else { SatisfiedConcat(Dnf(l), Dnf(r), env); }
  }

  /** The clauses to solve in order to make formula `t` evaluate to `expected`. */
  function Clauses(expected: bool, t: Tree): seq<Clause>
    requires Nnf(expected, t).Some?
  {
    Dnf(Nnf(expected, t).value)
  }

  /** Some clause is satisfied exactly when the formula evaluates to the expected value. */
  lemma {:induction false} ClausesMeaning(expected: bool, t: Tree, env: Env)
    requires IsFormula(t)
    ensures Nnf(expected, t).Some?
    ensures Satisfied(Clauses(expected, t), env) <==> Eval(t, env) == expected
  {
    NnfMeaning(expected, t, env);
    DnfMeaning(Nnf(expected, t).value, env);
  }

  // ---- where literals come from ----

  /** The labels of the nodes of a tree. */
  function Leaves(t: Tree): set<nat> {
    {t.data.node}
    + match t
      case T0(_) => {}
      case T1(_, s) => Leaves(s)
      case T2(_, l, r) => Leaves(l) + Leaves(r)
  }

  /** Neither negation normal form nor clauses introduce labels, other than 0 for a missing child. */
  lemma {:induction false} NnfLeaves(expected: bool, t: Tree)
    requires Nnf(expected, t).Some?
    ensures Leaves(Nnf(expected, t).value) <= Leaves(t)
    decreases t
  {
    if t.data.kind == LNot {
      if t.T1? { NnfLeaves(!expected, t.sub); }
    } else if expected || t.data.kind == LAnd || t.data.kind == LOr {
      if t.data.kind != Memcmp {
        match t
        case T0(_) =>
        case T1(_, s) => NnfLeaves(expected, s);
        case T2(_, l, r) => NnfLeaves(expected, l); NnfLeaves(expected, r);
      }
    }
  }

  ghost predicate Occurs(clauses: seq<Clause>, d: Data) {
    exists c :: c in clauses && d in c
  }

  lemma {:induction false} ProductOccurs(left: seq<Clause>, right: seq<Clause>, d: Data)
    requires Occurs(Product(left, right), d)
    ensures Occurs(left, d) || Occurs(right, d)
    decreases |left|
  {
    if left != [] {
      var c :| c in Product(left, right) && d in c;
      if c in Times(left[0], right) {
        var i :| 0 <= i < |right| && c == left[0] + right[i];
        assert left[0] in left && right[i] in right;
      } else {
        assert c in Product(left[1..], right);
        ProductOccurs(left[1..], right, d);
      }
    }
  }

  lemma {:induction false} JoinOccurs(left: seq<Clause>, right: seq<Clause>, d: Data)
    requires Occurs(left + right, d)
    ensures Occurs(left, d) || Occurs(right, d)
  {
    var c :| c in left + right && d in c;
    assert c in left || c in right;
  }

  lemma {:induction false} DnfLeaves(t: Tree, d: Data)
    requires Occurs(Dnf(t), d) && d.node != 0
    ensures d.node in Leaves(t)
    decreases t
  {
    var left := if t.T0? then MISSING else if t.T1? then Dnf(t.sub) else Dnf(t.left);
    var right := if t.T2? then Dnf(t.right) else MISSING;
    if t.data.kind == LAnd || t.data.kind == LOr {
      if t.data.kind == LAnd { ProductOccurs(left, right, d); } else { JoinOccurs(left, right, d); }
      assert !Occurs(MISSING, d);
      if Occurs(left, d) {
        if t.T1? { DnfLeaves(t.sub, d); } else { DnfLeaves(t.left, d); }
      } else {
        DnfLeaves(t.right, d);
      }
    }
  }

  lemma {:induction false} ClauseLeaves(expected: bool, t: Tree, d: Data)
    requires Nnf(expected, t).Some? && Occurs(Clauses(expected, t), d) && d.node != 0
    ensures d.node in Leaves(t)
  {
    NnfLeaves(expected, t);
    DnfLeaves(Nnf(expected, t).value, d);
  }

  // ---- the in-place code ----

  const INVALID_NODE: nat := 2

  /** Replacing one node's data leaves the trees below it alone. */
  lemma {:induction false} SetData(a: seq<Node>, p: nat, hi: nat, d: Data)
    requires WellFormed(a, p, hi)
    ensures WellFormed(a[p := a[p].(data := d)], p, hi)
    ensures TreeOf(a[p := a[p].(data := d)], p, hi) == TreeOf(a, p, hi).(data := d)
  {
    var b := a[p := a[p].(data := d)];
    if a[p].child0 != 0 {
      if a[p].child1 == 0 {
        Frame(a, b, a[p].child0, hi);
      } else {
        Frame(a, b, a[p].child0, a[p].child1);
        Frame(a, b, a[p].child1, hi);
      }
    }
  }

  /** Copying a node of the same arena over an earlier one makes both stand for the same tree. */
  lemma {:induction false} CopyUp(a: seq<Node>, p: nat, c: nat, hi: nat)
    requires p < c && WellFormed(a, c, hi)
    ensures WellFormed(a[p := a[c]], p, hi)
    ensures TreeOf(a[p := a[c]], p, hi) == TreeOf(a, c, hi)
  {
    var b := a[p := a[c]];
    if a[c].child0 != 0 {
      if a[c].child1 == 0 {
        Frame(a, b, a[c].child0, hi);
      } else {
        Frame(a, b, a[c].child0, a[c].child1);
        Frame(a, b, a[c].child1, hi);
      }
    }
  }

  /** Rewriting the left part, then the right part, of a two-child node. */
  lemma {:induction false} TwoChildren(a: seq<Node>, b: seq<Node>, c: seq<Node>, p: nat, hi: nat)
    requires p < |a| == |b| == |c| && a[p] == b[p] == c[p]
    requires a[p].child0 != 0 && a[p].child1 != 0 && p < a[p].child0 < a[p].child1 < hi <= |a|
    requires WellFormed(b, a[p].child0, a[p].child1) && WellFormed(c, a[p].child1, hi)
    requires forall k :: a[p].child0 <= k < a[p].child1 ==> c[k] == b[k]
    ensures WellFormed(c, p, hi) && WellFormed(c, a[p].child0, a[p].child1)
    ensures TreeOf(c, p, hi) == T2(a[p].data, TreeOf(b, a[p].child0, a[p].child1), TreeOf(c, a[p].child1, hi))
  {
    Frame(b, c, a[p].child0, a[p].child1);
  }

  lemma {:induction false} OneChild(a: seq<Node>, b: seq<Node>, p: nat, hi: nat)
    requires p < |a| == |b| && a[p] == b[p] && hi <= |a|
    requires a[p].child0 != 0 && a[p].child1 == 0 && p < a[p].child0 < hi && WellFormed(b, a[p].child0, hi)
    ensures WellFormed(b, p, hi) && TreeOf(b, p, hi) == T1(a[p].data, TreeOf(b, a[p].child0, hi))
  {
  }

  /** How the tree at `p` relates to the node stored there. */
  lemma {:induction false} Shape(a: seq<Node>, p: nat, hi: nat)
    requires WellFormed(a, p, hi)
    ensures p < hi <= |a| && TreeOf(a, p, hi).data == a[p].data
    ensures TreeOf(a, p, hi).T0? <==> ChildrenSize(a[p]) == 0
    ensures TreeOf(a, p, hi).T1? <==> ChildrenSize(a[p]) == 1
    ensures ChildrenSize(a[p]) == 1 ==>
      && p < a[p].child0 < hi && a[p].child1 == 0 && WellFormed(a, a[p].child0, hi)
      && TreeOf(a, p, hi).sub == TreeOf(a, a[p].child0, hi)
    ensures ChildrenSize(a[p]) == 2 ==>
      && p < a[p].child0 < a[p].child1 < hi
      && WellFormed(a, a[p].child0, a[p].child1) && WellFormed(a, a[p].child1, hi)
      && TreeOf(a, p, hi).left == TreeOf(a, a[p].child0, a[p].child1)
      && TreeOf(a, p, hi).right == TreeOf(a, a[p].child1, hi)
  {
  }

  /** to_nnf on the node at `p`, whose subtree is p .. hi. */
  method ToNnf(ast: Arena, expected: bool, p: nat, ghost hi: nat) returns (ret: nat)
    requires ast.Valid() && WellFormed(ast.nodes, p, hi)
    modifies ast
    ensures ast.Valid() && |ast.nodes| == old(|ast.nodes|)
    ensures forall k :: 0 <= k < |ast.nodes| && !(p <= k < hi) ==> ast.nodes[k] == old(ast.nodes)[k]
    ensures ret == 0 <==> Nnf(expected, old(TreeOf(ast.nodes, p, hi))).Some?
    ensures ret == 0 ==>
      WellFormed(ast.nodes, p, hi) && TreeOf(ast.nodes, p, hi) == Nnf(expected, old(TreeOf(ast.nodes, p, hi))).value
    decreases hi - p
  {
    Shape(ast.nodes, p, hi);
    hide WellFormed, TreeOf;
    var node := ast.nodes[p];
    var kind := node.data.kind;
    if kind == LNot {
      if ChildrenSize(node) != 1 { return INVALID_NODE; }
      ret := ToNnf(ast, !expected, node.child0, hi);
      if ret != 0 { return ret; }
      CopyUp(ast.nodes, p, node.child0, hi);
      ast.nodes := ast.nodes[p := ast.nodes[node.child0]];
      return 0;
    }
    if !expected && (kind == LAnd || kind == LOr) {
      if ChildrenSize(node) != 2 { return INVALID_NODE; }
      var flipped := node.data.(kind := if kind == LAnd then LOr else LAnd);
      SetData(ast.nodes, p, hi, flipped);
      ast.nodes := ast.nodes[p := node.(data := flipped)];
      ret := ToNnfBoth(ast, false, p, hi);
      return ret;
    }
    if !expected {
      if IsRelational(kind) {
        SetData(ast.nodes, p, hi, node.data.(kind := NegateCmp(kind)));
        ast.nodes := ast.nodes[p := node.(data := node.data.(kind := NegateCmp(kind)))];
        return 0;
      } else if kind == Memcmp {
        return 0;
      } else {
        return INVALID_NODE;
      }
    }
    if kind == Memcmp {
      SetData(ast.nodes, p, hi, node.data.(kind := MemcmpN));
      ast.nodes := ast.nodes[p := node.(data := node.data.(kind := MemcmpN))];
      return 0;
    }
    if ChildrenSize(node) == 2 {
      ret := ToNnfBoth(ast, true, p, hi);
      return ret;
    }
    if ChildrenSize(node) == 1 {
      ghost var a := ast.nodes;
      ret := ToNnf(ast, true, node.child0, hi);
      if ret == 0 { OneChild(a, ast.nodes, p, hi); }
      return ret;
    }
    return 0;
  }

  /** The two recursive calls of to_nnf on the children of a two-child node. */
  method ToNnfBoth(ast: Arena, expected: bool, p: nat, ghost hi: nat) returns (ret: nat)
    requires ast.Valid() && WellFormed(ast.nodes, p, hi) && ChildrenSize(ast.nodes[p]) == 2
    modifies ast
    ensures ast.Valid() && |ast.nodes| == old(|ast.nodes|)
    ensures forall k :: 0 <= k < |ast.nodes| && !(p < k < hi) ==> ast.nodes[k] == old(ast.nodes)[k]
    ensures
      var was := old(TreeOf(ast.nodes, p, hi));
      var now := Pair(was.data, Nnf(expected, was.left), Nnf(expected, was.right));
      (ret == 0 <==> now.Some?) && (ret == 0 ==> WellFormed(ast.nodes, p, hi) && TreeOf(ast.nodes, p, hi) == now.value)
    decreases hi - p, 0
  {
    Shape(ast.nodes, p, hi);
    hide WellFormed, TreeOf;
    var node := ast.nodes[p];
    ghost var a := ast.nodes;
    ret := ToNnf(ast, expected, node.child0, node.child1);
    if ret != 0 { return ret; }
    ghost var b := ast.nodes;
    Frame(a, b, node.child1, hi);
    ret := ToNnf(ast, expected, node.child1, hi);
    if ret != 0 { return ret; }
    TwoChildren(a, b, ast.nodes, p, hi);
  }

  /** The LAnd case of to_dnf, two nested loops over the clauses of the children. */
  method Multiply(left: seq<Clause>, right: seq<Clause>, formula: seq<Clause>) returns (out: seq<Clause>)
    requires left != []
    ensures out == formula + Product(left, right)
  {
    out := formula;
    for i := 0 to |left|
      invariant out == formula + Product(left[..i], right)
    {
      ghost var before := out;
      for j := 0 to |right|
        invariant out == before + Times(left[i], right[..j])
      {
        var clause := left[i] + right[j];
        assert Times(left[i], right[..j + 1]) == Times(left[i], right[..j]) + [clause];
        out := out + [clause];
      }
      assert right[..|right|] == right;
      ProductSnoc(left[..i], left[i], right);
      assert left[..i + 1] == left[..i] + [left[i]];
    }
    assert left[..|left|] == left;
  }

  /** to_dnf: appends the clauses of the node at `p` to `formula`. */
  method ToDnf(nodes: seq<Node>, p: nat, ghost hi: nat, formula: seq<Clause>) returns (out: seq<Clause>)
    requires WellFormed(nodes, p, hi)
    ensures out == formula + Dnf(TreeOf(nodes, p, hi))
    decreases hi - p, 1
  {
    Shape(nodes, p, hi);
    hide WellFormed, TreeOf;
    var node := nodes[p];
    ghost var t := TreeOf(nodes, p, hi);
    if node.data.kind == LAnd {
      var left := ToDnfChild(nodes, p, hi, false, []);
      var right := ToDnfChild(nodes, p, hi, true, []);
      assert left == ChildClauses(t, false) && right == ChildClauses(t, true);
      out := Multiply(left, right, formula);
      if |left| == 0 {
        out := right;
      }
    } else if node.data.kind == LOr {
      out := ToDnfChild(nodes, p, hi, false, formula);
      var both := ToDnfChild(nodes, p, hi, true, out);
      assert both == formula + (ChildClauses(t, false) + ChildClauses(t, true));
      out := both;
    } else {
      out := formula + [[node.data]];
    }
  }

  ghost function ChildClauses(t: Tree, second: bool): seq<Clause> {
    if second then (if t.T2? then Dnf(t.right) else MISSING)
    else if t.T0? then MISSING else if t.T1? then Dnf(t.sub) else Dnf(t.left)
  }

  /** to_dnf on one of the children of `p`, which may be missing. */
  method ToDnfChild(nodes: seq<Node>, p: nat, ghost hi: nat, second: bool, formula: seq<Clause>) returns (out: seq<Clause>)
    requires WellFormed(nodes, p, hi)
    ensures out == formula + ChildClauses(TreeOf(nodes, p, hi), second)
    ensures ChildClauses(TreeOf(nodes, p, hi), second) != []
    decreases hi - p, 0
  {
    Shape(nodes, p, hi);
    hide WellFormed, TreeOf;
    var node := nodes[p];
    var child := if second then node.child1 else node.child0;
    if child == 0 {
      out := formula + MISSING;
    } else {
      out := ToDnf(nodes, child, if !second && node.child1 != 0 then node.child1 else hi, formula);
    }
  }

  lemma {:induction false} ProductSnoc(left: seq<Clause>, c: Clause, right: seq<Clause>)
    ensures Product(left + [c], right) == Product(left, right) + Times(c, right)
  {
    if left == [] {
      assert [c][1..] == [];
    } else {
      ProductSnoc(left[1..], c, right);
      assert (left + [c])[1..] == left[1..] + [c];
    }
  }
}
