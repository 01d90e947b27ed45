/** include/ast.h: the node arena, and the boolean formulas stored in it. */
module Ast {
  import opened Base

  datatype Kind =
    | Bool | Constant | Read | Concat | Extract | ZExt | SExt
    | Add | Sub | Mul | UDiv | SDiv | URem | SRem | Neg
    | Not | And | Or | Xor | Shl | LShr | AShr
    | Equal | Distinct | Ult | Ule | Ugt | Uge | Slt | Sle | Sgt | Sge
    | LOr | LAnd | LNot
    | Ite | Load | Memcmp | MemcmpN

  predicate IsRelational(k: Kind) {
    k.Equal? || k.Distinct? || k.Ult? || k.Ule? || k.Ugt? || k.Uge? || k.Slt? || k.Sle? || k.Sgt? || k.Sge?
  }

  function NegateCmp(k: Kind): Kind {
    match k
    case Equal => Distinct
    case Distinct => Equal
    case Ult => Uge
    case Ule => Ugt
    case Ugt => Ule
    case Uge => Ult
    case Slt => Sge
    case Sle => Sgt
    case Sgt => Sle
    case Sge => Slt
    case _ => Bool
  }

  /** What a relational kind says about two operands. */
  predicate Compare(k: Kind, x: nat, y: nat, bits: nat) {
    match k
    case Equal => x == y
    case Distinct => x != y
    case Ult => x < y
    case Ule => x <= y
    case Ugt => x > y
    case Uge => x >= y
    case Slt => Signed(x, bits) < Signed(y, bits)
    case Sle => Signed(x, bits) <= Signed(y, bits)
    case Sgt => Signed(x, bits) > Signed(y, bits)
    case Sge => Signed(x, bits) >= Signed(y, bits)
    case _ => false
  }

  // ---- the arena ----

  /** The fields of a node other than its children.  `node` is the label the node stands for. */
  datatype Data = Data(kind: Kind, bits: nat, index: nat, boolvalue: bool, node: nat)

  /** Children are positions in the arena, 0 meaning none. */
  datatype Node = Node(data: Data, child0: nat, child1: nat)

  const EMPTY := Node(Data(Bool, 0, 0, false, 0), 0, 0)

  function ChildrenSize(n: Node): nat {
    (if n.child0 != 0 then 1 else 0) + (if n.child1 != 0 then 1 else 0)
  }

  /** set_boolvalue keeps the complement of its argument. */
  function SetBoolvalue(d: Data, value: bool): Data {
    d.(boolvalue := !value)
  }

  /** The subtree at `i` occupies positions i .. hi: the left child's part comes first, then the right child's. */
  ghost predicate WellFormed(a: seq<Node>, i: nat, hi: nat)
    decreases hi - i
  {
    && i < hi <= |a|
    && (a[i].child0 == 0 ==> a[i].child1 == 0)
    && (a[i].child0 != 0 && a[i].child1 == 0 ==> i < a[i].child0 < hi && WellFormed(a, a[i].child0, hi))
    && (a[i].child0 != 0 && a[i].child1 != 0 ==>
         && i < a[i].child0 < a[i].child1 < hi
         && WellFormed(a, a[i].child0, a[i].child1) && WellFormed(a, a[i].child1, hi))
  }

  datatype Tree = T0(data: Data) | T1(data: Data, sub: Tree) | T2(data: Data, left: Tree, right: Tree)

  ghost function TreeOf(a: seq<Node>, i: nat, hi: nat): Tree
    requires WellFormed(a, i, hi)
    decreases hi - i
  {
    if a[i].child0 == 0 then T0(a[i].data)
    else if a[i].child1 == 0 then T1(a[i].data, TreeOf(a, a[i].child0, hi))
    else T2(a[i].data, TreeOf(a, a[i].child0, a[i].child1), TreeOf(a, a[i].child1, hi))
  }

  function Count(t: Tree): nat {
    match t
    case T0(_) => 1
    case T1(_, s) => 1 + Count(s)
    case T2(_, l, r) => 1 + Count(l) + Count(r)
  }

  /** A subtree only depends on its own part of the arena. */
  lemma {:induction false} Frame(a: seq<Node>, b: seq<Node>, i: nat, hi: nat)
    requires WellFormed(a, i, hi) && hi <= |b| && forall k :: i <= k < hi ==> b[k] == a[k]
    ensures WellFormed(b, i, hi) && TreeOf(b, i, hi) == TreeOf(a, i, hi)
    decreases hi - i
  {
    if a[i].child0 != 0 {
      if a[i].child1 == 0 {
        Frame(a, b, a[i].child0, hi);
      } else {
        Frame(a, b, a[i].child0, a[i].child1);
        Frame(a, b, a[i].child1, hi);
      }
    }
  }

  lemma {:induction false} CountFits(a: seq<Node>, i: nat, hi: nat)
    requires WellFormed(a, i, hi)
    ensures Count(TreeOf(a, i, hi)) <= hi - i
    decreases hi - i
  {
    if a[i].child0 != 0 {
      if a[i].child1 == 0 {
        CountFits(a, a[i].child0, hi);
      } else {
        CountFits(a, a[i].child0, a[i].child1);
        CountFits(a, a[i].child1, hi);
      }
    }
  }

  /** Node `p` with one more child, in its first free place. */
  function Linked(a: seq<Node>, p: nat, c: nat): seq<Node>
    requires p < |a|
  {
    if a[p].child0 == 0 then a[p := a[p].(child0 := c)] else a[p := a[p].(child1 := c)]
  }

  /** A tree of nodes.  Position 0 is the node the object was created as; positions from 1 on are the vector it
      owns, whose own position 0 is a dummy that nothing refers to.  `capacity` is what was reserved for it. */
  class Arena {
    var nodes: seq<Node>
    const capacity: nat

    ghost predicate Valid()
      reads this
    {
      0 < |nodes| <= capacity
    }

    constructor (size: nat)
      ensures Valid() && capacity == size + 1 && nodes == [EMPTY]
    {
      capacity := size + 1;
      nodes := [EMPTY];
    }

    /** Appends a child to node `p`; 0 stands for the null pointer. */
    method AddChild(p: nat) returns (c: nat)
      requires Valid() && p < |nodes|
      modifies this
      ensures Valid()
      ensures c == 0 <==> old(|nodes|) == capacity || (old(nodes)[p].child0 != 0 && old(nodes)[p].child1 != 0)
      ensures c == 0 ==> nodes == old(nodes)
      ensures c != 0 ==> c == old(|nodes|) && nodes == Linked(old(nodes), p, c) + [EMPTY]
    {
      var size := |nodes|;
      if size >= capacity { return 0; }
      if nodes[p].child0 == 0 {
        nodes := nodes[p := nodes[p].(child0 := size)];
      } else if nodes[p].child1 == 0 {
        nodes := nodes[p := nodes[p].(child1 := size)];
      } else {
        return 0;
      }
      nodes := nodes + [EMPTY];
      return size;
    }

    /** Deep copy of the tree at position `s` of another arena into the empty last node `p`.
        The copy never outgrows the reserved capacity, so no node moves while it is being filled. */
    method CopyTree(src: seq<Node>, s: nat, ghost hi: nat, p: nat)
      requires Valid() && WellFormed(src, s, hi)
      requires p == |nodes| - 1 && nodes[p].child0 == 0 == nodes[p].child1
      requires |nodes| + Count(TreeOf(src, s, hi)) <= capacity + 1
      modifies this
      ensures Valid() && |nodes| == old(|nodes|) + Count(TreeOf(src, s, hi)) - 1
      ensures forall k :: 0 <= k < p ==> nodes[k] == old(nodes)[k]
      ensures WellFormed(nodes, p, |nodes|) && TreeOf(nodes, p, |nodes|) == TreeOf(src, s, hi)
      decreases hi - s
    {
      if src[s].child0 == 0 {
        nodes := nodes[p := nodes[p].(data := src[s].data)];
        return;
      }
      var c := |nodes|;
      nodes := nodes[p := nodes[p].(child0 := c)];
      nodes := nodes + [EMPTY];
      CopyTree(src, src[s].child0, if src[s].child1 == 0 then hi else src[s].child1, c);
      ghost var a := nodes;
      if src[s].child1 == 0 {
        CopiedOne(a, p, c, src[s].data);
      } else {
        var d := |nodes|;
        nodes := nodes[p := nodes[p].(child1 := d)];
        nodes := nodes + [EMPTY];
        CopyTree(src, src[s].child1, hi, d);
        CopiedTwo(a, nodes, p, c, d, src[s].data);
      }
      nodes := nodes[p := nodes[p].(data := src[s].data)];
    }

    static lemma {:induction false} CopiedOne(a: seq<Node>, p: nat, c: nat, d: Data)
      requires p < c && WellFormed(a, c, |a|) && a[p].child0 == c && a[p].child1 == 0
      ensures WellFormed(a[p := a[p].(data := d)], p, |a|)
      ensures TreeOf(a[p := a[p].(data := d)], p, |a|) == T1(d, TreeOf(a, c, |a|))
    {
      Frame(a, a[p := a[p].(data := d)], c, |a|);
    }

    static lemma {:induction false} CopiedTwo(a: seq<Node>, b: seq<Node>, p: nat, c: nat, e: nat, d: Data)
      requires p < c < e == |a| < |b| && WellFormed(a, c, e) && WellFormed(b, e, |b|)
      requires b[p].child0 == c && b[p].child1 == e && forall k :: c <= k < e ==> b[k] == a[k]
      ensures WellFormed(b[p := b[p].(data := d)], p, |b|)
      ensures TreeOf(b[p := b[p].(data := d)], p, |b|) == T2(d, TreeOf(a, c, e), TreeOf(b, e, |b|))
    {
      Frame(a, b[p := b[p].(data := d)], c, e);
      Frame(b, b[p := b[p].(data := d)], e, |b|);
    }
  }
}
