/** parsers/rgd-parser.cpp: the RGD parser's caches, find_roots, get_root_expr and parse_cond. */
module RgdParser {
  import opened Base
  import L = Labels
  import opened Ast
  import opened Formula
  import opened FindRoots
  import opened Traversal
  import S = ScanLabels
  import Z = AstSizes
  import N = NodeCount

  // ---- rewriting one finished node in place ----

  /** mutable_children: position 0 is the arena's dummy node. */
  function ReadNode(a: seq<Node>, i: nat): Node
    requires i < |a|
  {
    if i == 0 then EMPTY else a[i]
  }

  ghost predicate InRange(a: seq<Node>) {
    forall i :: 0 <= i < |a| ==> a[i].child0 < |a| && a[i].child1 < |a|
  }

  lemma {:induction false} Widen(a: seq<Node>, i: nat, lo: nat, hi: nat)
    requires WellFormed(a, i, lo) && lo <= hi <= |a|
    ensures WellFormed(a, i, hi) && TreeOf(a, i, hi) == TreeOf(a, i, lo)
    decreases lo - i
  {
    if a[i].child0 != 0 {
      if a[i].child1 == 0 { Widen(a, a[i].child0, lo, hi); }
      else { Widen(a, a[i].child1, lo, hi); }
    }
  }

  predicate IsJunction(op: L.Op) {
    op == L.And || op == L.Or || op == L.Xor
  }

  /** The children of a waiting node, as find_roots tells left from right. */
  function Kids(c: Config, l: nat, n: Node): (nat, nat)
    requires Scanned(c) && 0 < l < |c.nest|
  {
    var info := c.table[l];
    if IsJunction(info.op) then
      if c.nest[info.l1] > 0 then (n.child0, n.child1) else (0, n.child0)
    else if n.child1 != 0 || c.nest[info.l1] > 0 then (n.child0, n.child1)
    else (0, n.child0)
  }

  predicate SeesLeft(c: Config, l: nat, n: Node)
    requires Scanned(c) && 0 < l < |c.nest|
  {
    var info := c.table[l];
    if IsJunction(info.op) then c.nest[info.l1] > 0
    else Kids(c, l, n).0 != 0
  }

  predicate SeesRight(c: Config, l: nat, n: Node)
    requires Scanned(c) && 0 < l < |c.nest|
  {
    var info := c.table[l];
    if IsJunction(info.op) then c.nest[info.l2] > 0
    else Kids(c, l, n).1 != 0
  }

  /** The decision on the node at `p`, from the data of its children. */
  function DecideAt(c: Config, l: nat, a: seq<Node>, p: nat): Action
    requires Scanned(c) && 0 < l < |c.nest| && p < |a| && InRange(a)
  {
    var (x, y) := Kids(c, l, a[p]);
    if IsJunction(c.table[l].op) && ChildrenSize(a[p]) == 0 then Fail
    else Decide(c, l, if SeesLeft(c, l, a[p]) then Some(ReadNode(a, x).data) else None,
                      if SeesRight(c, l, a[p]) then Some(ReadNode(a, y).data) else None)
  }

  function Rewritten(c: Config, l: nat, a: seq<Node>, p: nat): Node
    requires Scanned(c) && 0 < l < |c.nest| && p < |a| && InRange(a)
  {
    var (x, y) := Kids(c, l, a[p]);
    match DecideAt(c, l, a, p)
    case Fail => a[p]
    case Fold(value) => Node(Constantly(value).data, 0, 0)
    case CopyLeft => ReadNode(a, x)
    case CopyRight => ReadNode(a, y)
    case Keep(d) => a[p].(data := d)
  }

  /** The children of the node are the compiled children of label `l`, and it is otherwise still empty. */
  ghost predicate ReadyNode(c: Config, l: nat, a: seq<Node>, p: nat, left: Option<Tree>, right: Option<Tree>)
    requires Ok(c) && 0 < l < |c.nest|
  {
    && (left.Some? <==> HasLeft(c, l)) && (right.Some? <==> HasRight(c, l))
    && WellFormed(a, p, |a|) && TreeOf(a, p, |a|) == Build(EMPTY.data, left, right)
  }

  lemma {:induction false} KidsOfReady(c: Config, l: nat, a: seq<Node>, p: nat, left: Option<Tree>, right: Option<Tree>)
    requires Ok(c) && 0 < l < |c.nest| && InRange(a) && ReadyNode(c, l, a, p, left, right)
    ensures SeesLeft(c, l, a[p]) <==> left.Some?
    ensures SeesRight(c, l, a[p]) <==> right.Some?
    ensures var (x, y) := Kids(c, l, a[p]);
      var mid := if right.Some? then y else |a|;
      && (left.Some? ==> p < x && WellFormed(a, x, mid) && TreeOf(a, x, mid) == left.value)
      && (right.Some? ==> p < y && WellFormed(a, y, |a|) && TreeOf(a, y, |a|) == right.value)
  {
    ChildFacts(c, l);
  }

  /** Rewriting a node in place does to its tree what `Simplify` does. */
  lemma {:induction false} RewriteMeaning(c: Config, l: nat, a: seq<Node>, p: nat, left: Option<Tree>, right: Option<Tree>)
    requires Ok(c) && 0 < l < |c.nest| && InRange(a) && ReadyNode(c, l, a, p, left, right)
    ensures DecideAt(c, l, a, p) == Fail <==> Simplify(c, l, left, right).None?
    ensures DecideAt(c, l, a, p) != Fail ==>
      && WellFormed(a[p := Rewritten(c, l, a, p)], p, |a|)
      && TreeOf(a[p := Rewritten(c, l, a, p)], p, |a|) == Simplify(c, l, left, right).value
  {
    KidsOfReady(c, l, a, p, left, right);
    var (x, y) := Kids(c, l, a[p]);
    var act := DecideAt(c, l, a, p);
    assert act == Decide(c, l, DataOf(left), DataOf(right));
    hide Decide, Kids, SeesLeft, SeesRight;
    match act
    case Fail =>
    case Fold(value) =>
    case CopyLeft =>
      var mid := if right.Some? then y else |a|;
      CopyUp(a, p, x, mid);
      Widen(a[p := a[x]], p, mid, |a|);
    case CopyRight => CopyUp(a, p, y, |a|);
    case Keep(d) => SetData(a, p, |a|, d);
  }

  // ---- the arena during the traversal, whatever the shape of the condition ----

  /** Node `p` waits for its last child `q`; an earlier child is finished and lies between them. */
  ghost predicate Parent(a: seq<Node>, p: nat, q: nat) {
    && p < q < |a|
    && if a[p].child1 == 0 then a[p].child0 == q
       else a[p].child1 == q && p < a[p].child0 < q && WellFormed(a, a[p].child0, q)
  }

  ghost predicate ParentAt(a: seq<Node>, ps: seq<nat>, k: nat)
    requires k + 1 < |ps|
  {
    Parent(a, ps[k], ps[k + 1])
  }

  ghost predicate Spine(a: seq<Node>, ps: seq<nat>) {
    && |ps| > 0 && ps[0] == 0
    && (forall k :: 0 <= k < |ps| ==> ps[k] < |a|)
    && (forall k :: 0 <= k < |ps| - 1 ==> ParentAt(a, ps, k))
  }

  lemma {:induction false} SpineIncreasing(a: seq<Node>, ps: seq<nat>, k: nat)
    requires Spine(a, ps) && k < |ps|
    ensures ps[k] <= Last(ps)
    decreases |ps| - k
  {
    if k < |ps| - 1 {
      assert ParentAt(a, ps, k);
      SpineIncreasing(a, ps, k + 1);
    }
  }

  lemma {:induction false} SpineFrame(a: seq<Node>, b: seq<Node>, ps: seq<nat>)
    requires Spine(a, ps) && |a| <= |b| && forall i :: 0 <= i < Last(ps) ==> b[i] == a[i]
    ensures Spine(b, ps)
  {
    forall k | 0 <= k < |ps| - 1
      ensures ParentAt(b, ps, k)
    {
      assert ParentAt(a, ps, k);
      SpineIncreasing(a, ps, k + 1);
      if a[ps[k]].child1 != 0 { Frame(a, b, a[ps[k]].child0, ps[k + 1]); }
    }
  }

  lemma {:induction false} SpineExtend(a: seq<Node>, ps: seq<nat>, q: nat)
    requires Spine(a, ps) && Parent(a, Last(ps), q)
    ensures Spine(a, ps + [q])
  {
    forall k | 0 <= k < |ps|
      ensures ParentAt(a, ps + [q], k)
    {
      if k < |ps| - 1 { assert ParentAt(a, ps, k); }
    }
  }

  lemma {:induction false} SpineShrink(a: seq<Node>, ps: seq<nat>)
    requires Spine(a, ps) && |ps| > 1
    ensures Spine(a, ps[..|ps| - 1]) && Parent(a, ps[|ps| - 2], Last(ps))
  {
    var front := ps[..|ps| - 1];
    forall k | 0 <= k < |front| - 1
      ensures ParentAt(a, front, k)
    {
      assert ParentAt(a, ps, k);
    }
    assert ParentAt(a, ps, |ps| - 2);
  }

  /** While going down, the last node is new and bare; while going up, everything below the top node is in place. */
  ghost predicate Shaped(a: seq<Node>, nodeStack: seq<nat>, down: bool, rootNode: nat) {
    if down then Spine(a, nodeStack + [rootNode]) && rootNode == |a| - 1 && ChildrenSize(a[rootNode]) == 0
    else if nodeStack == [] then WellFormed(a, 0, |a|)
    else Spine(a, nodeStack) && WellFormed(a, Last(nodeStack), |a|)
  }

  /** The child that was waited for is finished, so its parent's part of the arena is complete so far. */
  lemma {:induction false} ParentComplete(a: seq<Node>, p: nat, q: nat)
    requires Parent(a, p, q) && WellFormed(a, q, |a|)
    ensures WellFormed(a, p, |a|)
  {
  }

  lemma {:induction false} ShapedEnter(a: seq<Node>, nodeStack: seq<nat>, rootNode: nat)
    requires Shaped(a, nodeStack, true, rootNode)
    ensures Shaped(a, nodeStack + [rootNode], false, rootNode)
  {
  }

  lemma {:induction false} ShapedSkip(a: seq<Node>, nodeStack: seq<nat>, rootNode: nat)
    requires Shaped(a, nodeStack, true, rootNode) && nodeStack != []
    ensures Shaped(a, nodeStack, false, rootNode)
  {
    SpineShrink(a, nodeStack + [rootNode]);
    assert (nodeStack + [rootNode])[..|nodeStack|] == nodeStack;
    ParentComplete(a, Last(nodeStack), rootNode);
  }

  lemma {:induction false} ShapedGrow(a: seq<Node>, nodeStack: seq<nat>, rootNode: nat)
    requires Shaped(a, nodeStack, false, rootNode) && nodeStack != []
    requires Last(nodeStack) < |a| && a[Last(nodeStack)].child1 == 0
    ensures Shaped(Linked(a, Last(nodeStack), |a|) + [EMPTY], nodeStack, true, |a|)
  {
    var p := Last(nodeStack);
    var b := Linked(a, p, |a|) + [EMPTY];
    SpineFrame(a, b, nodeStack);
    if a[p].child0 != 0 { Frame(a, b, a[p].child0, |a|); }
    SpineExtend(b, nodeStack, |a|);
  }

  lemma {:induction false} ShapedLeave(a: seq<Node>, b: seq<Node>, nodeStack: seq<nat>, rootNode: nat)
    requires Shaped(a, nodeStack, false, rootNode) && nodeStack != [] && |b| == |a|
    requires forall i :: 0 <= i < Last(nodeStack) ==> b[i] == a[i]
    requires WellFormed(b, Last(nodeStack), |b|)
    ensures Shaped(b, nodeStack[..|nodeStack| - 1], false, rootNode)
  {
    SpineFrame(a, b, nodeStack);
    if |nodeStack| > 1 {
      SpineShrink(b, nodeStack);
      ParentComplete(b, nodeStack[|nodeStack| - 2], Last(nodeStack));
    }
  }

  /** A node rewritten in place stays the root of a well-formed tree, even when a child it reads is missing. */
  lemma {:induction false} RewriteWellFormed(c: Config, l: nat, a: seq<Node>, p: nat)
    requires Scanned(c) && 0 < l < |c.nest| && InRange(a) && WellFormed(a, p, |a|)
    ensures WellFormed(a[p := Rewritten(c, l, a, p)], p, |a|)
  {
    var (x, y) := Kids(c, l, a[p]);
    var act := DecideAt(c, l, a, p);
    hide DecideAt;
    match act
    case Fail => assert a[p := a[p]] == a;
    case Fold(value) =>
    case CopyLeft => RewriteCopy(a, p, x);
    case CopyRight => RewriteCopy(a, p, y);
    case Keep(d) => SetData(a, p, |a|, d);
  }

  lemma {:induction false} RewriteCopy(a: seq<Node>, p: nat, x: nat)
    requires WellFormed(a, p, |a|) && (x == 0 || x == a[p].child0 || x == a[p].child1)
    ensures x < |a| && WellFormed(a[p := ReadNode(a, x)], p, |a|)
  {
    if x != 0 {
      var hi := if x == a[p].child1 || a[p].child1 == 0 then |a| else a[p].child1;
      CopyUp(a, p, x, hi);
      Widen(a[p := a[x]], p, hi, |a|);
    }
  }

  // ---- the traversal ----

  /** The labels that can still be visited. */
  ghost function Labels(n: nat): (r: set<nat>)
    ensures forall l :: l in r <==> 0 < l < n
  {
    if n <= 1 then {} else Labels(n - 1) + {n - 1}
  }

  /** The variables of find_roots' loop. */
  datatype Vars = Vars(
    stack: seq<nat>, nodeStack: seq<nat>,
    root: nat, rootNode: nat,
    prev: nat, visited: set<nat>)

  ghost function St(v: Vars, rightDone: bool): State {
    State(v.stack, v.nodeStack, v.root, v.rootNode, v.prev, v.visited, rightDone)
  }

  /** What keeps the loop's accesses in bounds, whatever the shape of the condition. */
  ghost predicate Sane(c: Config, a: seq<Node>, s: State)
    requires Scanned(c)
  {
    && |s.stack| == |s.nodeStack| && InRange(a) && |a| > 0
    && (forall k :: 0 <= k < |s.stack| ==> 0 < s.stack[k] < |c.nest| && s.nodeStack[k] < |a| && s.stack[k] !in s.visited)
    && (forall j, k :: 0 <= j < k < |s.stack| ==> s.stack[k] < s.stack[j])
    && s.visited <= Labels(|c.nest|)
    && s.rootNode < |a| && Shaped(a, s.nodeStack, s.root != 0, s.rootNode)
    && (s.root != 0 ==> s.root < |c.nest|)
    && (s.root != 0 ==> if s.stack == [] then s.visited == {} else s.root < Last(s.stack))
  }

  ghost predicate Pending(c: Config, s: State)
    requires Scanned(c) && s.stack != [] && Last(s.stack) < |c.nest| && c.table[Last(s.stack)].l2 < |c.nest|
  {
    var z := Strip(c.table, c.table[Last(s.stack)].l2);
    c.nest[z] > 0 && s.prev != z
  }

  /** Falls with every round that visits no new label. */
  ghost function Measure(c: Config, a: seq<Node>, s: State): nat
    requires Scanned(c) && Sane(c, a, s)
  {
    if s.root != 0 && s.root !in s.visited then 8 * s.root + 7
    else if s.stack == [] then 0
    else
      8 * Last(s.stack) +
      (if s.root == 0 then (if Pending(c, s) then 3 else 1)
       else if s.root == Strip(c.table, c.table[Last(s.stack)].l2) then 2 else 4)
  }

  lemma {:induction false} SaneFacts(c: Config, a: seq<Node>, s: State)
    requires Scanned(c) && Sane(c, a, s)
    ensures |s.stack| == |s.nodeStack| && InRange(a) && s.rootNode < |a| && s.visited <= Labels(|c.nest|)
    ensures s.root != 0 ==> s.root < |c.nest| && c.table[s.root].l1 < s.root
    ensures s.stack != [] ==>
      && 0 < Last(s.stack) < |c.nest| && Last(s.nodeStack) < |a|
      && c.table[Last(s.stack)].l1 < |c.nest| && c.table[Last(s.stack)].l2 < |c.nest|
      && Last(s.stack) !in s.visited
      && (s.root == 0 ==> WellFormed(a, Last(s.nodeStack), |a|))
    ensures s.root == 0 && s.stack == [] ==> WellFormed(a, 0, |a|)
  {
  }

  lemma {:induction false} NotVisited(c: Config, a: seq<Node>, goal: nat, s: State)
    requires Ok(c) && Inv(c, a, goal, s) && s.root != 0
    ensures s.root !in s.visited
  {
    BelowContains(c, s.root);
  }

  /** When no right child is to come, the top node is ready to be rewritten into its label's formula. */
  lemma {:induction false} ReadyTop(c: Config, a: seq<Node>, goal: nat, s: State)
    requires Ok(c) && Inv(c, a, goal, s) && s.root == 0 && s.stack != [] && InRange(a)
    requires 0 < Last(s.stack) < |c.nest| && Last(s.nodeStack) < |a|
    requires HasRight(c, Last(s.stack)) ==> s.rightDone
    ensures
      var l, p := Last(s.stack), Last(s.nodeStack);
      && (DecideAt(c, l, a, p) == Fail <==> Compile(c, l).None?)
      && (DecideAt(c, l, a, p) != Fail ==> Compiled(c, a[p := Rewritten(c, l, a, p)], l, p, |a|))
  {
    var l, p := Last(s.stack), Last(s.nodeStack);
    var left := Done(c, HasLeft(c, l), LeftOf(c, l));
    var right := Done(c, HasRight(c, l), RightOf(c, l));
    assert Compile(c, l) == Simplify(c, l, left, right);
    RewriteMeaning(c, l, a, p, left, right);
  }

  /** A label rewritten without a child of its own has no nested comparison below it. */
  lemma {:induction false} ReadyLeaf(c: Config, a: seq<Node>, goal: nat, s: State)
    requires Ok(c) && Inv(c, a, goal, s) && s.root == 0 && s.stack != []
    requires 0 < Last(s.stack) < |c.nest| && Last(s.nodeStack) < |a|
    requires HasRight(c, Last(s.stack)) ==> s.rightDone
    requires ChildrenSize(a[Last(s.nodeStack)]) == 0
    ensures !HasLeft(c, Last(s.stack)) && !HasRight(c, Last(s.stack))
  {
  }

  /** One round keeps the loop in bounds and makes progress. */
  ghost predicate Progress(c: Config, a: seq<Node>, s: State, b: seq<Node>, t: State)
    requires Scanned(c) && Sane(c, a, s)
  {
    && Sane(c, b, t)
    && (t.visited > s.visited || (t.visited == s.visited && Measure(c, b, t) < Measure(c, a, s)))
  }

  lemma {:induction false} SkipVisited(c: Config, a: seq<Node>, s: State)
    requires Scanned(c) && Sane(c, a, s) && s.root != 0 && s.root in s.visited
    ensures Progress(c, a, s, a, s.(prev := s.root, root := 0))
  {
    ShapedSkip(a, s.nodeStack, s.rootNode);
    hide Shaped;
  }

  ghost function Pushed(s: State): State {
    s.(stack := s.stack + [s.root], nodeStack := s.nodeStack + [s.rootNode], root := 0, rightDone := false)
  }

  lemma {:induction false} EnterLabel(c: Config, a: seq<Node>, s: State)
    requires Scanned(c) && Sane(c, a, s) && s.root != 0 && s.root !in s.visited
    ensures Progress(c, a, s, a, Pushed(s)) && Last(Pushed(s).stack) == s.root
  {
    ShapedEnter(a, s.nodeStack, s.rootNode);
    hide Shaped;
    assert forall k :: 0 <= k < |s.stack| ==> s.stack[k] >= Last(s.stack);
  }

  lemma {:induction false} GrowArena(a: seq<Node>, p: nat)
    requires InRange(a) && p < |a|
    ensures InRange(Linked(a, p, |a|) + [EMPTY])
  {
  }

  /** Going down from the top label to one of its children. */
  lemma {:induction false} GoDown(c: Config, a: seq<Node>, s: State, p: nat, child: nat)
    requires Scanned(c) && Sane(c, a, s) && s.root == 0 && s.stack != [] && 0 < child < Last(s.stack)
    requires p == Last(s.nodeStack) && a[p].child1 == 0
    ensures Sane(c, Linked(a, p, |a|) + [EMPTY], s.(root := child, rootNode := |a|))
    ensures
      var m := Measure(c, Linked(a, p, |a|) + [EMPTY], s.(root := child, rootNode := |a|));
      m < 8 * Last(s.stack) + 5 && (child == Strip(c.table, c.table[Last(s.stack)].l2) ==> m < 8 * Last(s.stack) + 3)
  {
    GrowArena(a, p);
    ShapedGrow(a, s.nodeStack, s.rootNode);
    hide Shaped, InRange;
  }

  lemma {:induction false} EnterLeft(c: Config, a: seq<Node>, s: State, child: nat)
    requires Scanned(c) && Sane(c, a, s) && s.root != 0 && s.root !in s.visited && 0 < child < s.root
    ensures Progress(c, a, s, Linked(a, s.rootNode, |a|) + [EMPTY], Pushed(s).(root := child, rootNode := |a|))
  {
    EnterLabel(c, a, s);
    assert a[s.rootNode].child1 == 0;
    hide Shaped, InRange;
    GoDown(c, a, Pushed(s), s.rootNode, child);
  }

  lemma {:induction false} EnterRight(c: Config, a: seq<Node>, s: State)
    requires Scanned(c) && Sane(c, a, s) && s.root == 0 && s.stack != [] && Pending(c, s)
    requires a[Last(s.nodeStack)].child1 == 0
    requires 0 < Strip(c.table, c.table[Last(s.stack)].l2)
    ensures Progress(c, a, s, Linked(a, Last(s.nodeStack), |a|) + [EMPTY],
                     s.(root := Strip(c.table, c.table[Last(s.stack)].l2), rootNode := |a|))
  {
    GoDown(c, a, s, Last(s.nodeStack), Strip(c.table, c.table[Last(s.stack)].l2));
  }

  lemma {:induction false} LeaveLabel(c: Config, a: seq<Node>, s: State, b: seq<Node>, rightDone: bool)
    requires Scanned(c) && Sane(c, a, s) && s.root == 0 && s.stack != []
    requires |b| == |a| && InRange(b) && forall i :: 0 <= i < Last(s.nodeStack) ==> b[i] == a[i]
    requires WellFormed(b, Last(s.nodeStack), |b|)
    ensures Progress(c, a, s, b, Popped(s, rightDone))
  {
    ShapedLeave(a, b, s.nodeStack, s.rootNode);
    hide Shaped;
  }

  lemma {:induction false} RewriteInRange(c: Config, l: nat, a: seq<Node>, p: nat)
    requires Scanned(c) && 0 < l < |c.nest| && p < |a| && InRange(a)
    ensures InRange(a[p := Rewritten(c, l, a, p)])
  {
  }

  /** Two configurations decide alike on a node when they agree on the sizes around its label. */
  lemma {:induction false} DecideSame(c: Config, d: Config, l: nat, a: seq<Node>, p: nat)
    requires Scanned(c) && Scanned(d) && 0 < l < |c.nest| && p < |a| && InRange(a)
    requires d == c.(size := d.size, concretize := d.concretize)
    requires c.table[l].op.ICmp? && ChildrenSize(a[p]) == 0 ==> Concretized(c, l) == Concretized(d, l)
    ensures DecideAt(d, l, a, p) == DecideAt(c, l, a, p)
    ensures Rewritten(d, l, a, p) == Rewritten(c, l, a, p)
  {
  }

  /** Concretization has only touched comparisons that were visited. */
  ghost predicate CachesKept(c: Config, size: seq<nat>, concretize: map<nat, (bool, bool)>, visited: set<nat>)
    requires Scanned(c)
  {
    && |size| == |c.size|
    && forall l :: 0 <= l < |size| && !(l in visited && c.table[l].op.ICmp?) ==>
      size[l] == c.size[l] && (l in concretize <==> l in c.concretize) && (l in concretize ==> concretize[l] == c.concretize[l])
  }

  /** Visiting one more label, with or without concretizing it. */
  lemma {:induction false} KeptNext(c: Config, d: Config, visited: set<nat>, l: nat)
    requires Scanned(c) && Scanned(d) && d == c.(size := d.size, concretize := d.concretize) && 0 < l < |c.nest|
    requires CachesKept(c, d.size, d.concretize, visited)
    ensures CachesKept(c, d.size, d.concretize, visited + {l}) && |d.size| == |d.nest| <= |d.table|
    ensures c.table[l].op.ICmp? ==>
      var (n, which) := Concretized(d, l);
      && CachesKept(c, d.size[l := n], d.concretize[l := which], visited + {l})
      && Scanned(d.(size := d.size[l := n], concretize := d.concretize[l := which]))
  {
    hide Concretized;
  }

  lemma {:induction false} LeafCaches(c: Config, d: Config, l: nat, visited: set<nat>)
    requires Ok(c) && Scanned(d) && 0 < l < |c.nest| && l !in visited
    requires d == c.(size := d.size, concretize := d.concretize)
    requires CachesKept(c, d.size, d.concretize, visited)
    requires !HasLeft(c, l) && !HasRight(c, l)
    ensures Concretized(c, l) == Concretized(d, l)
  {
    hide HasLeft, HasRight, Ok;
    NoComparedChildren(c, l);
  }

  lemma {:induction false} NoComparedChildren(c: Config, l: nat)
    requires Ok(c) && 0 < l < |c.nest| && !HasLeft(c, l) && !HasRight(c, l)
    ensures c.table[l].l1 < |c.nest| && c.table[l].l2 < |c.nest|
    ensures !c.table[c.table[l].l1].op.ICmp? && !c.table[c.table[l].l2].op.ICmp?
  {
    ChildFacts(c, l);
  }

  ghost function AfterPop(c: Config, s: State): State
    requires Ok(c) && |s.stack| == |s.nodeStack| > 0
  {
    var n := |s.stack|;
    Popped(s, n > 1 && 0 < s.stack[n - 2] < |c.nest| && !InLeft(c, s.stack[n - 2], Last(s.stack)))
  }

  /** The post-order step, decided with the caches as they are by now, on a tree-shaped condition. */
  lemma {:induction false} FinishGood(c: Config, d: Config, a: seq<Node>, goal: nat, s: State)
    requires Ok(c) && Scanned(d) && d == c.(size := d.size, concretize := d.concretize)
    requires CachesKept(c, d.size, d.concretize, s.visited) && Sane(c, a, s)
    requires Inv(c, a, goal, s) && s.root == 0 && s.stack != []
    requires HasRight(c, Last(s.stack)) ==> s.rightDone
    ensures Last(s.nodeStack) < |a| && InRange(a)
    ensures
      var l, p := Last(s.stack), Last(s.nodeStack);
      && 0 < l < |c.nest| && (DecideAt(d, l, a, p) == Fail ==> Compile(c, l).None?)
      && (DecideAt(d, l, a, p) != Fail ==> Inv(c, a[p := Rewritten(d, l, a, p)], goal, AfterPop(c, s)))
  {
    SaneFacts(c, a, s);
    hide Sane;
    var l, p := Last(s.stack), Last(s.nodeStack);
    if ChildrenSize(a[p]) == 0 {
      ReadyLeaf(c, a, goal, s);
      LeafCaches(c, d, l, s.visited);
    }
    DecideSame(c, d, l, a, p);
    ReadyTop(c, a, goal, s);
    if DecideAt(d, l, a, p) != Fail {
      var b := a[p := Rewritten(c, l, a, p)];
      if |s.stack| == 1 {
        StepPopLast(c, a, b, goal, s);
      } else {
        StepPop(c, a, b, goal, s);
      }
    }
  }

  lemma {:induction false} SaneDescends(c: Config, a: seq<Node>, s: State)
    requires Scanned(c) && Sane(c, a, s)
    ensures N.Descends(s)
  {
  }

  /** A condition that find_roots gives up on: it holds an unsuitable label, or more labels than the arena has nodes. */
  ghost predicate Hopeless(c: Config, goal: nat, capacity: nat)
    requires Ok(c) && 0 < goal < |c.nest|
  {
    !Suitable(c, goal) || |Below(c, goal)| > capacity
  }

  lemma {:induction false} NotHopeless(c: Config, a: seq<Node>, goal: nat, capacity: nat)
    requires Ok(c) && Compiled(c, a, goal, 0, |a|) && |a| == |Below(c, goal)| && |a| <= capacity
    ensures !Hopeless(c, goal, capacity)
  {
    CompilesIff(c, goal);
  }

  lemma {:induction false} SaneStart(c: Config, goal: nat)
    requires Scanned(c) && 0 < goal < |c.nest|
    ensures Sane(c, [EMPTY], State([], [], goal, 0, 0, {}, false)) && CachesKept(c, c.size, c.concretize, {})
  {
  }

  lemma {:induction false} ProgressSane(c: Config, a: seq<Node>, s: State, b: seq<Node>, t: State)
    requires Scanned(c) && Sane(c, a, s) && Progress(c, a, s, b, t)
    ensures Sane(c, b, t) && t.visited <= Labels(|c.nest|)
    ensures t.visited > s.visited || (t.visited == s.visited && Measure(c, b, t) < Measure(c, a, s))
  {
  }

  /** There is no node for the left child. */
  lemma {:induction false} LeftHopeless(c: Config, a: seq<Node>, goal: nat, s: State)
    requires Ok(c) && 0 < goal < |c.nest| && Sane(c, a, s) && Inv(c, a, goal, s) && N.Counted(c, |a|, goal, s)
    requires s.root != 0 && s.root < |c.nest| && HasLeft(c, s.root)
    ensures Hopeless(c, goal, |a|) && s.rootNode < |a| && a[s.rootNode] == EMPTY
  {
    hide Below, Compile, HasLeft, LeftOf;
    SaneDescends(c, a, s);
    N.NewLeft(c, a, goal, s);
    N.NoRoom(c, |a|, goal, s, LeftOf(c, s.root));
  }

  lemma {:induction false} RightHopeless(c: Config, a: seq<Node>, goal: nat, s: State)
    requires Ok(c) && 0 < goal < |c.nest| && Sane(c, a, s) && Inv(c, a, goal, s) && N.Counted(c, |a|, goal, s)
    requires s.root == 0 && s.stack != [] && 0 < Last(s.stack) < |c.nest| && !s.rightDone && HasRight(c, Last(s.stack))
    ensures Hopeless(c, goal, |a|) && Last(s.nodeStack) < |a| && a[Last(s.nodeStack)].child1 == 0
  {
    StepRight(c, a, goal, s);
    hide Below, Compile, HasLeft, HasRight, LeftOf, RightOf;
    SaneDescends(c, a, s);
    N.NewRight(c, a, goal, s);
    N.NoRoom(c, |a|, goal, s, RightOf(c, Last(s.stack)));
  }

  lemma {:induction false} FailHopeless(c: Config, a: seq<Node>, goal: nat, s: State, capacity: nat)
    requires Ok(c) && Inv(c, a, goal, s) && s.root == 0 && s.stack != [] && 0 < Last(s.stack) < |c.nest|
    requires Compile(c, Last(s.stack)).None?
    ensures 0 < goal < |c.nest| && Hopeless(c, goal, capacity)
  {
    hide Inv, Below, Compile;
    N.TopIsBelow(c, a, goal, s);
    N.FailureSpreads(c, goal, Last(s.stack));
    CompilesIff(c, goal);
  }

  /** Going down to a label, and to its left child if it has one. */
  lemma {:induction false} CountDown(c: Config, a: seq<Node>, goal: nat, s: State, t: State)
    requires Ok(c) && 0 < goal < |c.nest| && Sane(c, a, s) && Inv(c, a, goal, s) && N.Counted(c, |a|, goal, s)
    requires 0 < s.root < |c.nest| && t.stack == s.stack + [s.root] && t.visited == s.visited
    requires t.root == if HasLeft(c, s.root) then LeftOf(c, s.root) else 0
    ensures N.Counted(c, if HasLeft(c, s.root) then |a| + 1 else |a|, goal, t)
  {
    hide Inv, Sane, Below, HasLeft, LeftOf, N.Counted, N.Seen;
    SaneDescends(c, a, s);
    if HasLeft(c, s.root) { N.NewLeft(c, a, goal, s); }
    N.CountEnter(c, |a|, goal, s, t);
  }

  lemma {:induction false} CountOver(c: Config, a: seq<Node>, goal: nat, s: State, t: State)
    requires Ok(c) && 0 < goal < |c.nest| && Sane(c, a, s) && Inv(c, a, goal, s) && N.Counted(c, |a|, goal, s)
    requires s.root == 0 && s.stack != [] && 0 < Last(s.stack) < |c.nest| && !s.rightDone && HasRight(c, Last(s.stack))
    requires t.stack == s.stack && t.visited == s.visited && t.root == RightOf(c, Last(s.stack))
    ensures N.Counted(c, |a| + 1, goal, t)
  {
    hide Inv, Sane, Below, HasRight, N.Counted, N.Seen;
    SaneDescends(c, a, s);
    N.NewRight(c, a, goal, s);
    ChildFacts(c, Last(s.stack));
    N.CountRight(c, |a|, goal, s, t);
  }

  lemma {:induction false} CountUp(c: Config, a: seq<Node>, goal: nat, s: State, t: State)
    requires Ok(c) && 0 < goal < |c.nest| && Sane(c, a, s) && Inv(c, a, goal, s) && N.Counted(c, |a|, goal, s)
    requires s.root == 0 == t.root && s.stack != [] && 0 < Last(s.stack) < |c.nest|
    requires HasRight(c, Last(s.stack)) ==> s.rightDone
    requires t.stack == s.stack[..|s.stack| - 1] && t.visited == s.visited + {Last(s.stack)}
    ensures N.Counted(c, |a|, goal, t)
  {
    hide Inv, Sane, Below, HasRight, RightOf, N.Counted, N.Seen;
    SaneDescends(c, a, s);
    N.TopIsBelow(c, a, goal, s);
    N.CountPop(c, |a|, goal, s, t);
  }

  lemma {:induction false} InvEnd(c: Config, a: seq<Node>, goal: nat, s: State)
    requires Ok(c) && Inv(c, a, goal, s) && s.root == 0 && s.stack == []
    ensures Compiled(c, a, goal, 0, |a|)
  {
  }

  // ---- the comparisons that become leaves ----

  /** The node of a comparison below `n` that is never folded, or of no label. */
  ghost predicate DataFormed(table: seq<L.LabelInfo>, maxSize: nat, n: nat, d: Data) {
    d.node != 0 ==>
      && L.Ordered(table) && d.node < n <= |table| && L.IsCompare(table[d.node].op)
      && Z.Formed(table, maxSize, d.node)
  }

  ghost predicate NodesFormed(table: seq<L.LabelInfo>, maxSize: nat, n: nat, a: seq<Node>) {
    forall i :: 0 <= i < |a| ==> DataFormed(table, maxSize, n, a[i].data)
  }

  lemma {:induction false} LinkedFormed(table: seq<L.LabelInfo>, maxSize: nat, n: nat, a: seq<Node>, p: nat)
    requires NodesFormed(table, maxSize, n, a) && p < |a|
    ensures NodesFormed(table, maxSize, n, Linked(a, p, |a|) + [EMPTY])
  {
    var b := Linked(a, p, |a|) + [EMPTY];
    hide DataFormed;
    EmptyFormed(table, maxSize, n);
    forall i | 0 <= i < |b| ensures DataFormed(table, maxSize, n, b[i].data) {
      if i < |a| { assert b[i].data == a[i].data && DataFormed(table, maxSize, n, a[i].data); }
    }
  }

  lemma {:induction false} EmptyFormed(table: seq<L.LabelInfo>, maxSize: nat, n: nat)
    ensures DataFormed(table, maxSize, n, EMPTY.data) && NodesFormed(table, maxSize, n, [EMPTY])
  {
  }

  lemma {:induction false} KeptFormed(c: Config, twice: set<nat>, l: nat, left: Option<Data>, right: Option<Data>)
    requires Scanned(c) && 0 < l < |c.nest| && Z.SizesKept(c.table, c.size, c.concretize, c.maxSize, twice)
    requires Decide(c, l, left, right).Keep?
    ensures DataFormed(c.table, c.maxSize, |c.nest|, Decide(c, l, left, right).data)
  {
    hide Z.SizesKept, Z.Formed, Folds;
    if c.table[l].op.ICmp? && left.None? && right.None? {
      Z.UnfoldedIsFormed(c, twice, l);
    } else if c.table[l].op == L.Fmemcmp {
      MemcmpFormed(c.table, c.maxSize, l);
    }
  }

  lemma {:induction false} MemcmpFormed(table: seq<L.LabelInfo>, maxSize: nat, l: nat)
    requires L.Ordered(table) && l < |table| && table[l].op == L.Fmemcmp
    ensures Z.Formed(table, maxSize, l)
  {
  }

  lemma {:induction false} RewriteFormed(c: Config, twice: set<nat>, l: nat, a: seq<Node>, p: nat)
    requires Scanned(c) && 0 < l < |c.nest| && p < |a| && InRange(a)
    requires Z.SizesKept(c.table, c.size, c.concretize, c.maxSize, twice)
    requires NodesFormed(c.table, c.maxSize, |c.nest|, a)
    ensures NodesFormed(c.table, c.maxSize, |c.nest|, a[p := Rewritten(c, l, a, p)])
  {
    EmptyFormed(c.table, c.maxSize, |c.nest|);
    var n := Rewritten(c, l, a, p);
    if DecideAt(c, l, a, p).Keep? {
      var (x, y) := Kids(c, l, a[p]);
      KeptFormed(c, twice, l, if SeesLeft(c, l, a[p]) then Some(ReadNode(a, x).data) else None,
                 if SeesRight(c, l, a[p]) then Some(ReadNode(a, y).data) else None);
    } else if DecideAt(c, l, a, p).Fold? {
      assert n.data.node == 0;
    }
    hide DataFormed, Z.SizesKept, Scanned, Decide;
    assert DataFormed(c.table, c.maxSize, |c.nest|, n.data);
  }

  lemma {:induction false} LeavesFormed(table: seq<L.LabelInfo>, maxSize: nat, n: nat, a: seq<Node>, i: nat, hi: nat)
    requires NodesFormed(table, maxSize, n, a) && WellFormed(a, i, hi)
    ensures forall k :: k in Leaves(TreeOf(a, i, hi)) && k != 0 ==>
      L.Ordered(table) && k < n <= |table| && L.IsCompare(table[k].op) && Z.Formed(table, maxSize, k)
    decreases hi - i
  {
    assert DataFormed(table, maxSize, n, a[i].data);
    hide Z.Formed;
    if a[i].child0 != 0 && a[i].child1 == 0 {
      LeavesFormed(table, maxSize, n, a, a[i].child0, hi);
    } else if a[i].child0 != 0 {
      LeavesFormed(table, maxSize, n, a, a[i].child0, a[i].child1);
      LeavesFormed(table, maxSize, n, a, a[i].child1, hi);
    }
  }

  /** The leaves of a compiled condition have no comparisons below them, going by the counts. */
  lemma {:induction false} CompiledLeaves(c: Config, l: nat, k: nat)
    requires Ok(c) && 0 < l < |c.nest| && Compile(c, l).Some? && k in Leaves(Compile(c, l).value) && k != 0
    ensures 0 < k < |c.nest| && c.nest[c.table[k].l1] == 0 && c.nest[c.table[k].l2] == 0
    decreases l
  {
    ChildFacts(c, l);
    var left := if HasLeft(c, l) then Compile(c, LeftOf(c, l)) else None;
    var right := if HasRight(c, l) then Compile(c, RightOf(c, l)) else None;
    SimplifiedLeaves(c, l, left, right, k);
    if left.Some? && k in Leaves(left.value) {
      CompiledLeaves(c, LeftOf(c, l), k);
    } else if right.Some? && k in Leaves(right.value) {
      CompiledLeaves(c, RightOf(c, l), k);
    }
  }

  lemma {:induction false} SimplifiedLeaves(c: Config, l: nat, left: Option<Tree>, right: Option<Tree>, k: nat)
    requires Ok(c) && 0 < l < |c.nest| && Simplify(c, l, left, right).Some?
    requires k in Leaves(Simplify(c, l, left, right).value) && k != 0
    ensures
      || (left.Some? && k in Leaves(left.value)) || (right.Some? && k in Leaves(right.value))
      || (k == l && left.None? && right.None?)
  {
    hide Ok, Decide, Scanned;
    OkScanned(c);
    match Decide(c, l, DataOf(left), DataOf(right))
    case Fold(_) =>
    case Keep(d) => KeepsLabel(c, l, DataOf(left), DataOf(right));
    case _ =>
  }

  lemma {:induction false} OkScanned(c: Config)
    requires Ok(c)
    ensures Scanned(c)
  {
  }

  lemma {:induction false} KeepsLabel(c: Config, l: nat, left: Option<Data>, right: Option<Data>)
    requires Scanned(c) && 0 < l < |c.nest| && Decide(c, l, left, right).Keep?
    ensures Decide(c, l, left, right).data.node != 0 ==>
      left.None? && right.None? && Decide(c, l, left, right).data.node == l
  {
    hide Folds, Scanned;
  }

  lemma {:induction false} UncountedIsPure(table: seq<L.LabelInfo>, l: nat)
    requires L.Ordered(table) && l < |table| && S.CmpCount(table, l) == 0
    ensures Z.Pure(table, l)
    decreases l
  {
    if l > 0 && !Z.IsRead(table[l].op) {
      UncountedIsPure(table, table[l].l1);
      UncountedIsPure(table, table[l].l2);
    }
  }

  /** An answer of scan_labels, or an access past the end of a cache. */
  datatype Rescan = Yes | No | PastTheEnd

  class Parser {
    const table: seq<L.LabelInfo>
    const sizes: seq<nat>                          // the length of every input
    const maxSize: nat
    var size: seq<nat>                             // ast_size_cache
    var nest: seq<nat>                             // nested_cmp_cache
    var bytes: seq<set<nat>>                       // branch_to_inputs
    var concretize: map<nat, (bool, bool)>         // concretize_node

    var roots: map<nat, Arena>                     // root_expr_cache
    ghost var built: map<nat, Config>              // the caches when each cached formula was built
    ghost var twice: set<nat>                      // comparisons reduced again after their concretization

    function Cfg(): Config
      reads this
    {
      Config(table, nest, size, concretize, maxSize)
    }

    /** The caches describe the same, accepted, labels. */
    ghost predicate Aligned()
      reads this
    {
      && L.Ordered(table) && table[0].op == L.Input
      && |size| == |nest| == |bytes| <= |table| && S.CachesOk(table, sizes, nest, bytes)
      && forall k :: 0 < k < |nest| ==> S.Acceptable(table, sizes, k)
    }

    /** The sizes are those of the labels' trees. */
    ghost predicate Sized()
      reads this`size, this`concretize, this`twice
    {
      Z.SizesKept(table, size, concretize, maxSize, twice)
    }

    /** What the cached formula of label `l` is. */
    ghost predicate CachedOk(l: nat)
      reads this, if l in roots then {roots[l]} else {}
    {
      l in roots ==>
        && l in built && Scanned(built[l]) && built[l].table == table && 0 < l < |built[l].nest|
        && roots[l].Valid() && roots[l].capacity == 33 && built[l].nest <= nest
        && NodesFormed(table, maxSize, |built[l].nest|, roots[l].nodes)
        && WellFormed(roots[l].nodes, 0, |roots[l].nodes|)
        && (Ok(built[l]) && TreeShaped(built[l], l) ==> Compiled(built[l], roots[l].nodes, l, 0, |roots[l].nodes|))
    }

    ghost predicate Valid()
      reads this, roots.Values
    {
      Aligned() && Sized() && forall l :: l in roots ==> CachedOk(l)
    }

    constructor (table: seq<L.LabelInfo>, sizes: seq<nat>, maxSize: nat)
      requires L.Ordered(table) && table[0].op == L.Input
      ensures Valid() && this.table == table && this.sizes == sizes && this.maxSize == maxSize
      ensures nest == [] && roots == map[]
    {
      this.table, this.sizes, this.maxSize := table, sizes, maxSize;
      size, nest, bytes, concretize, roots, built, twice := [], [], [], map[], map[], map[], {};
      Z.NoSizes(table, maxSize);
    }

    /** The caches satisfy what the formula compiler relies on as long as no comparison count has reached 256,
        where the 8-bit counters wrap around. */
    lemma {:induction false} NoWrapIsOk()
      requires Aligned() && |nest| > 0 && table[0].size == 8
      requires forall l :: 0 < l < |table| && table[l].op == L.ZExt ==> table[l].l2 == 0
      requires forall l :: 0 <= l < |nest| ==> S.CmpCount(table, l) < WRAP8
      ensures Ok(Cfg())
    {
      S.ConstantEntry(table, sizes, nest, bytes);
      forall l | 0 < l < |nest|
        ensures table[l].op == L.ZExt ==> nest[l] == nest[table[l].l1]
        ensures L.IsCompare(table[l].op) ==> nest[l] > 0
      {
        S.CountEntry(table, sizes, nest, bytes, l);
        S.CountEntry(table, sizes, nest, bytes, table[l].l1);
      }
      hide S.CachesOk, S.CmpCount;
    }

    /** One round of scan_labels.  A label that reads outside the inputs is refused after its size was cached. */
    method ScanOne() returns (ok: bool)
      requires Aligned() && Sized() && |nest| < |table|
      modifies this`size, this`nest, this`bytes
      ensures Sized() && size == old(size) + [S.ScanSize(table, old(size), old(|size|))]
      ensures ok <==> old(|nest|) == 0 || S.Acceptable(table, sizes, old(|nest|))
      ensures ok ==> Aligned() && |nest| == old(|nest|) + 1 && old(nest) <= nest
      ensures !ok ==> nest == old(nest) && bytes == old(bytes)
    {
      hide S.CachesOk, S.EntryOk, Z.SizesKept, S.ScanSize;
      Z.ScanKeeps(table, size, concretize, maxSize, twice);
      var entrySize, nested, bits;
      ok, entrySize, nested, bits := ScanEntry();
      size := size + [entrySize];
      if !ok { return; }
      S.CachesExtend(table, sizes, nest, bytes, nested, bits);
      bytes := bytes + [bits];
      nest := nest + [nested];
    }

    /** What a round finds out about the next label. */
    method ScanEntry() returns (ok: bool, entrySize: nat, nested: nat, bits: set<nat>)
      requires Aligned() && |nest| < |table|
      ensures entrySize == S.ScanSize(table, size, |size|)
      ensures ok <==> |nest| == 0 || S.Acceptable(table, sizes, |nest|)
      ensures ok ==> S.EntryOk(table, sizes, |nest|, nested, bits)
    {
      hide S.CachesOk, S.EntryOk;
      var i := |size|;
      var info := table[i];
      ok, entrySize, nested, bits := true, 1, 0, {};
      if i == 0 {
        S.FirstEntry(table, sizes);
      } else if info.op == L.Input {
        if info.op2 >= |sizes| || info.op1 >= sizes[info.op2] { return false, 1, 0, {}; }
        var idx := S.InputToDepIdx(sizes, info.op2, info.op1);
        bits := {idx};
        S.InputEntry(table, sizes, i);
      } else if info.op == L.Load {
        var first := table[info.l1];
        if first.op2 >= |sizes| || first.op1 + info.l2 > sizes[first.op2] { return false, 1, 0, {}; }
        var idx := S.InputToDepIdx(sizes, first.op2, first.op1);
        bits := S.SetBits(idx, info.l2);
        S.LoadEntry(table, sizes, i, bits);
      } else {
        var left := if info.l1 == 0 then 1 else size[info.l1];
        var right := if info.l2 == 0 then 1 else size[info.l2];
        entrySize := (left + right + 1) % WRAP32;
        bits := (if info.l1 != 0 then bytes[info.l1] else {}) + (if info.l2 != 0 then bytes[info.l2] else {});
        nested := (if info.l1 == 0 then 0 else nest[info.l1]) + (if info.l2 == 0 then 0 else nest[info.l2]);
        nested := (nested + B(L.IsCompare(info.op))) % WRAP8;
        S.OperatorEntry(table, sizes, nest, bytes, i);
        S.ConstantEntry(table, sizes, nest, bytes);
      }
    }

    /** After a refusal the size cache is ahead of the others. */
    ghost predicate Ahead()
      reads this`size, this`nest, this`bytes
    {
      L.Ordered(table) && |nest| == |bytes| < |size| <= |table|
    }

    /** scan_labels: extends the caches up to `goal`, unless a label on the way reads outside the inputs.
        In that case the size cache is left one entry longer than the others. */
    method ScanLabels(goal: nat) returns (ok: bool)
      requires Aligned() && Sized() && goal < |table|
      modifies this`size, this`nest, this`bytes
      ensures Sized() && old(nest) <= nest
      ensures ok <==> forall k :: old(|nest|) <= k <= goal && k > 0 ==> S.Acceptable(table, sizes, k)
      ensures ok ==> Aligned() && |nest| > goal && old(size) <= size
      ensures !ok ==> Ahead() && |size| == |nest| + 1 && 0 < |nest| <= goal && !S.Acceptable(table, sizes, |nest|)
      ensures !ok ==> forall k :: old(|nest|) <= k < |nest| && k > 0 ==> S.Acceptable(table, sizes, k)
    {
      hide S.CachesOk, S.Acceptable;
      while |size| <= goal
        invariant Aligned() && Sized() && old(nest) <= nest && old(size) <= size
        decreases goal + 1 - |size|
      {
        ghost var i := |nest|;
        ok := ScanOne();
        if !ok { assert !S.Acceptable(table, sizes, i); return; }
      }
      return true;
    }

    /** scan_labels after a refusal.  The loop goes on behind the refused label.  For a goal before that nothing is done
        and the answer is yes, although the other caches may not cover it; otherwise the next label is refused as well, or
        its new set of bytes is looked for past the end of the cache.  No label is ever scanned again. */
    method ScanAgain(goal: nat) returns (r: Rescan)
      requires Ahead() && goal < |table|
      modifies this`size
      ensures Ahead() && old(size) <= size
      ensures r == Yes <==> goal < old(|size|)
      ensures r == Yes ==> size == old(size)
      ensures r != Yes ==> size == old(size) + [S.ScanSize(table, old(size), old(|size|))]
      ensures r == PastTheEnd <==> goal >= old(|size|) && S.Acceptable(table, sizes, old(|size|))
    {
      var i := |size|;
      if i > goal { return Yes; }
      size := size + [S.ScanSize(table, size, i)];
      if !S.Acceptable(table, sizes, i) { return No; }
      assert i >= |bytes| + 1;
      return PastTheEnd;
    }

    /** The post-order step on label `l`, whose node is `p`: an oversized comparison is concretized, then the
        node is rewritten. */
    method FinishLabel(ast: Arena, l: nat, p: nat, ghost c: Config, ghost visited: set<nat>) returns (ok: bool)
      requires Scanned(c) && Scanned(Cfg()) && Cfg() == c.(size := size, concretize := concretize)
      requires CachesKept(c, size, concretize, visited)
      requires ast.Valid() && 0 < l < |nest| && p < |ast.nodes| && InRange(ast.nodes)
      requires Sized() && NodesFormed(table, maxSize, |nest|, ast.nodes)
      modifies ast, this`size, this`concretize, this`twice
      ensures Sized() && NodesFormed(table, maxSize, |nest|, ast.nodes)
      ensures ast.Valid() && Scanned(Cfg()) && Cfg() == c.(size := size, concretize := concretize)
      ensures CachesKept(c, size, concretize, visited + {l})
      ensures
        var (newSize, which) := Concretized(old(Cfg()), l);
        var reduced := table[l].op.ICmp? && ChildrenSize(old(ast.nodes)[p]) == 0 && old(size)[l] > maxSize;
        && size == (if reduced then old(size)[l := newSize] else old(size))
        && concretize == (if reduced then old(concretize)[l := which] else old(concretize))
        && twice == if reduced then Z.Twice(old(concretize), old(twice), l) else old(twice)
      ensures ok <==> DecideAt(old(Cfg()), l, old(ast.nodes), p) != Fail
      ensures ok ==> ast.nodes == old(ast.nodes)[p := Rewritten(old(Cfg()), l, old(ast.nodes), p)]
    {
      hide DecideAt, Rewritten, InRange, Z.SizesKept, NodesFormed, Z.Twice, CachesKept, Scanned, Concretized;
      var act := DecideAt(Cfg(), l, ast.nodes, p);
      var node := Rewritten(Cfg(), l, ast.nodes, p);
      RewriteFormed(Cfg(), twice, l, ast.nodes, p);
      KeptNext(c, Cfg(), visited, l);
      if table[l].op.ICmp? && ChildrenSize(ast.nodes[p]) == 0 && size[l] > maxSize {
        var (newSize, which) := Concretized(Cfg(), l);
        Z.ReduceKeeps(Cfg(), twice, l);
        twice := Z.Twice(concretize, twice, l);
        size := size[l := newSize];
        concretize := concretize[l := which];
      }
      if act == Fail { return false; }
      ast.nodes := ast.nodes[p := node];
      return true;
    }

    /** The half of the loop body that goes down to label v.root and, if it has one, to its left child. */
    method GoDownStep(goal: nat, ast: Arena, v: Vars, ghost c: Config, ghost good: bool, ghost done: bool)
      returns (ok: bool, w: Vars, ghost done': bool)
      requires Scanned(c) && c.table == table && c.nest == nest && ast.Valid() && Sane(c, ast.nodes, St(v, done)) && v.root != 0
      requires good ==> Ok(c) && Inv(c, ast.nodes, goal, St(v, done))
      requires good ==> 0 < goal < |nest| && N.Counted(c, |ast.nodes|, goal, St(v, done))
      requires NodesFormed(table, maxSize, |nest|, ast.nodes)
      modifies ast
      ensures ok && good ==> N.Counted(c, |ast.nodes|, goal, St(w, done'))
      ensures !ok && good ==> Hopeless(c, goal, ast.capacity)
      ensures ast.Valid() && NodesFormed(table, maxSize, |nest|, ast.nodes)
      ensures ok ==> Progress(c, old(ast.nodes), St(v, done), ast.nodes, St(w, done')) && w.visited == v.visited
      ensures ok && good ==> Inv(c, ast.nodes, goal, St(w, done'))
    {
      hide Inv, Sane, Measure, Ok, InRange, NodesFormed, N.Counted, Hopeless, Progress, Strip, DataFormed;
      ghost var s := St(v, done);
      ghost var a := ast.nodes;
      SaneFacts(c, a, s);
      ok, done' := true, false;
      if v.root in v.visited {
        if good { NotVisited(c, a, goal, s); assert false; }
        SkipVisited(c, a, s);
        return true, v.(prev := v.root, root := 0), done;
      }
      EnterLabel(c, a, s);
      w := v.(stack := v.stack + [v.root], nodeStack := v.nodeStack + [v.rootNode], root := 0);
      var info := table[v.root];
      if nest[info.l1] == 0 {
        if good {
          StepEnter(c, a, goal, s);
          CountDown(c, a, goal, s, Pushed(s));
        }
        return;
      }
      var root := StripZext(table, info.l1);
      if root == 0 {
        if good { StripFacts(c, info.l1); assert false; }
        return;
      }
      var child := ast.AddChild(v.rootNode);
      if child == 0 {
        if good { LeftHopeless(c, a, goal, s); }
        return false, w, false;
      }
      LinkedFormed(table, maxSize, |nest|, a, v.rootNode);
      if good {
        StepLeft(c, a, goal, s);
        CountDown(c, a, goal, s, Pushed(s).(root := root, rootNode := child));
      }
      EnterLeft(c, a, s, root);
      w := w.(root := root, rootNode := child);
    }

    /** The half of the loop body that goes down to the right child of the top label or finishes that label. */
    method GoUpStep(goal: nat, ast: Arena, v: Vars, ghost c: Config, ghost good: bool, ghost done: bool)
      returns (ok: bool, w: Vars, ghost done': bool)
      requires Scanned(c) && Scanned(Cfg()) && Cfg() == c.(size := size, concretize := concretize)
      requires CachesKept(c, size, concretize, v.visited)
      requires ast.Valid() && Sane(c, ast.nodes, St(v, done)) && v.root == 0 && v.stack != []
      requires good ==> Ok(c) && Inv(c, ast.nodes, goal, St(v, done))
      requires good ==> 0 < goal < |nest| && N.Counted(c, |ast.nodes|, goal, St(v, done))
      requires Sized() && NodesFormed(table, maxSize, |nest|, ast.nodes)
      modifies ast, this`size, this`concretize, this`twice
      ensures Sized() && NodesFormed(table, maxSize, |nest|, ast.nodes) && old(twice) <= twice
      ensures ast.Valid() && Scanned(Cfg()) && Cfg() == c.(size := size, concretize := concretize)
      ensures ok ==> CachesKept(c, size, concretize, w.visited)
      ensures ok ==> Progress(c, old(ast.nodes), St(v, done), ast.nodes, St(w, done'))
      ensures ok && good ==> Inv(c, ast.nodes, goal, St(w, done')) && N.Counted(c, |ast.nodes|, goal, St(w, done'))
      ensures !ok && good ==> Hopeless(c, goal, ast.capacity)
    {
      hide Inv, Sane, Measure, CachesKept, Ok, InRange, DecideAt, Rewritten, Concretized, Progress, NodesFormed, Z.SizesKept;
      hide N.Counted, Hopeless, WellFormed, Strip, Sized;
      ghost var s := St(v, done);
      ghost var a := ast.nodes;
      SaneFacts(c, a, s);
      ok, w, done' := true, v, done;
      var curr, p := v.stack[|v.stack| - 1], v.nodeStack[|v.stack| - 1];
      var zsl2 := StripZext(table, table[curr].l2);
      if good { RightTest(c, a, goal, s); }
      if nest[zsl2] > 0 && v.prev != zsl2 {
        var child := ast.AddChild(p);
        if child == 0 {
          if good { RightHopeless(c, a, goal, s); }
          return false, v, done;
        }
        LinkedFormed(table, maxSize, |nest|, a, p);
        assert a[p].child1 == 0 by { Shape(a, p, |a|); }
        if good {
          StepRight(c, a, goal, s);
          CountOver(c, a, goal, s, s.(root := zsl2, rootNode := child));
        }
        EnterRight(c, a, s);
        w := v.(root := zsl2, rootNode := child);
      } else {
        if good { FinishGood(c, Cfg(), a, goal, s); }
        RewriteInRange(Cfg(), curr, a, p);
        RewriteWellFormed(Cfg(), curr, a, p);
        ok := FinishLabel(ast, curr, p, c, v.visited);
        if !ok {
          if good { FailHopeless(c, a, goal, s, ast.capacity); }
          return;
        }
        done' := good && AfterPop(c, s).rightDone;
        if good { CountUp(c, a, goal, s, AfterPop(c, s)); }
        LeaveLabel(c, a, s, ast.nodes, done');
        w := v.(stack := v.stack[..|v.stack| - 1], nodeStack := v.nodeStack[..|v.nodeStack| - 1],
                prev := curr, visited := v.visited + {curr});
      }
    }

    /** find_roots from `goal` into an arena that holds just its empty root.  Whatever the shape of the condition
        the loop ends and stays in bounds; on a tree-shaped one it builds the compiled formula. */
    method FindRoots(goal: nat, ast: Arena) returns (ret: nat)
      requires Scanned(Cfg()) && Sized() && 0 < goal < |nest| && ast.Valid() && ast.nodes == [EMPTY]
      modifies ast, this`size, this`concretize, this`twice
      ensures Sized() && NodesFormed(table, maxSize, |nest|, ast.nodes) && old(twice) <= twice
      ensures ast.Valid() && Scanned(Cfg())
      ensures ret == 0 ==> WellFormed(ast.nodes, 0, |ast.nodes|)
      ensures ret == 0 && Ok(old(Cfg())) && TreeShaped(old(Cfg()), goal) ==>
        Compiled(old(Cfg()), ast.nodes, goal, 0, |ast.nodes|)
      ensures Ok(old(Cfg())) && TreeShaped(old(Cfg()), goal) ==> (ret == 0 <==> !Hopeless(old(Cfg()), goal, ast.capacity))
    {
      hide Inv, Measure, CachesKept, Ok, TreeShaped, Compiled, NodesFormed, Z.SizesKept, N.Counted, Hopeless, Sane;
      ghost var c := Cfg();
      ghost var good := Ok(c) && TreeShaped(c, goal);
      ghost var done := false;
      var v := Vars([], [], goal, 0, 0, {});
      if good {
        StepStart(c, goal);
        N.CountStart(c, goal);
      }
      EmptyFormed(table, maxSize, |nest|);
      SaneStart(c, goal);
      while v.root != 0 || v.stack != []
        invariant ast.Valid() && Scanned(Cfg()) && Cfg() == c.(size := size, concretize := concretize)
        invariant CachesKept(c, size, concretize, v.visited)
        invariant Sized() && NodesFormed(table, maxSize, |nest|, ast.nodes) && old(twice) <= twice
        invariant Sane(c, ast.nodes, St(v, done))
        invariant good ==> Inv(c, ast.nodes, goal, St(v, done)) && N.Counted(c, |ast.nodes|, goal, St(v, done))
        decreases Labels(|nest|) - v.visited, Measure(c, ast.nodes, St(v, done))
      {
        ghost var before, was, from := v.visited, ast.nodes, St(v, done);
        var ok: bool;
        if v.root != 0 {
          ok, v, done := GoDownStep(goal, ast, v, c, good, done);
        } else {
          ok, v, done := GoUpStep(goal, ast, v, c, good, done);
        }
        if !ok { return INVALID_NODE; }
        ProgressSane(c, was, from, ast.nodes, St(v, done));
        assert v.visited > before ==> Labels(|nest|) - v.visited < Labels(|nest|) - before;
      }
      SaneFacts(c, ast.nodes, St(v, done));
      if good {
        InvEnd(c, ast.nodes, goal, St(v, done));
        N.CountEnd(c, |ast.nodes|, goal, St(v, done));
        NotHopeless(c, ast.nodes, goal, ast.capacity);
      }
      ret := 0;
    }

    predicate IsValid(l: nat) {
      L.CONST_OFFSET <= l < |table| && l != L.INITIALIZING
    }

    /** No label after the first `from` ones and up to `l` reads outside the inputs. */
    ghost predicate Scannable(from: nat, l: nat)
      requires L.Ordered(table) && l < |table|
    {
      forall k :: from <= k <= l && k > 0 ==> S.Acceptable(table, sizes, k)
    }

    /** get_root_expr: the formula of label `l`, built on first use from the caches `c`.  Null when the label is invalid, a
        label reads outside the inputs, or find_roots fails; on a tree-shaped condition that is exactly when it cannot be
        compiled or has more than 33 labels. */
    method GetRootExpr(l: nat) returns (ast: Arena?, ghost c: Config)
      requires Valid()
      modifies this`size, this`nest, this`bytes, this`concretize, this`roots, this`built, this`twice
      ensures |size| == |nest| ==> Valid()
      ensures ast != null ==> |size| == |nest| && l in roots && roots[l] == ast && built[l] == c
      ensures Sized() && old(twice) <= twice
      ensures forall k :: k in old(roots) ==> k in roots && roots[k] == old(roots[k]) && k in built && built[k] == old(built[k])
      ensures L.Ordered(table) && (!IsValid(l) ==> ast == null)
      ensures IsValid(l) && l in old(roots) ==> ast == old(roots[l])
      ensures IsValid(l) && l !in old(roots) ==>
        && (!Scannable(old(|nest|), l) ==> ast == null)
        && (Scannable(old(|nest|), l) ==>
              && Scanned(c) && l < |c.nest| && c.table == table && c.concretize == old(concretize) && old(size) <= c.size
              && (Ok(c) && TreeShaped(c, l) ==> (ast == null <==> Hopeless(c, l, 33))))
    {
      hide S.CachesOk, TreeShaped, Ok, Compiled, WellFormed, NodesFormed, Z.SizesKept, Hopeless, S.Acceptable, Scanned;
      c := Cfg();
      if !IsValid(l) { return null, c; }
      if l in roots { return roots[l], built[l]; }
      var scanned := ScanLabels(l);
      if !scanned { return null, c; }
      c := Cfg();
      var root := BuildRoot(l);
      if root == null { return null, c; }
      roots := roots[l := root];
      built := built[l := c];
      return root, c;
    }

    /** find_roots in an arena of its own. */
    method BuildRoot(l: nat) returns (root: Arena?)
      requires Aligned() && Sized() && 0 < l < |nest|
      modifies this`size, this`concretize, this`twice
      ensures Aligned() && Sized() && old(twice) <= twice && Scanned(old(Cfg()))
      ensures Ok(old(Cfg())) && TreeShaped(old(Cfg()), l) ==> (root == null <==> Hopeless(old(Cfg()), l, 33))
      ensures root != null ==>
        && fresh(root) && root.Valid() && root.capacity == 33 && WellFormed(root.nodes, 0, |root.nodes|)
        && NodesFormed(table, maxSize, |nest|, root.nodes)
        && (Ok(old(Cfg())) && TreeShaped(old(Cfg()), l) ==> Compiled(old(Cfg()), root.nodes, l, 0, |root.nodes|))
    {
      hide S.CachesOk, TreeShaped, Ok, Compiled, WellFormed, NodesFormed, Z.SizesKept, Hopeless, S.Acceptable, Scanned;
      S.ConstantEntry(table, sizes, nest, bytes);
      ScannedNow(Cfg());
      root := new Arena(32);
      var ret := FindRoots(l, root);
      ScannedIs(Cfg());
      if ret != 0 { return null; }
    }

    /** parse_cond up to the clauses it makes tasks of: one of them is satisfied exactly by the values under which
        the condition evaluates to the opposite of `result`.  Cached formulas are not changed. */
    method ParseCond(l: nat, result: bool) returns (ret: int, clauses: seq<Clause>, ghost c: Config)
      requires Valid()
      modifies this`size, this`nest, this`bytes, this`concretize, this`roots, this`built, this`twice
      ensures |size| == |nest| ==> Valid()
      ensures ret == 0 || ret == -1
      ensures forall k :: k in old(roots) ==> k in roots && roots[k] == old(roots[k]) && k in built && built[k] == old(built[k])
      ensures ret == 0 ==> l in roots && l in built && CachedOk(l)
      ensures ret == 0 ==> ExactClauses(built[l], l, result, clauses)
      ensures L.Ordered(table) && (!IsValid(l) || (l !in old(roots) && !Scannable(old(|nest|), l)) ==> ret == -1)
      ensures IsValid(l) && (l in old(roots) || Scannable(old(|nest|), l)) ==>
        && Scanned(c) && l < |c.nest| && c.table == table
        && (l in old(roots) ==> c == old(built[l]))
        && (l !in old(roots) ==> c.concretize == old(concretize) && old(size) <= c.size)
        && (Plain(c, l) ==> (ret == -1 <==> l !in old(roots) && Hopeless(c, l, 33)))
        && (Ok(c) && TreeShaped(c, l) ==>
              if l !in old(roots) && Hopeless(c, l, 33) then ret == -1 else Outcome(c, l, result, ret, clauses))
      ensures Sized() && old(twice) <= twice
      ensures forall d :: Occurs(clauses, d) && d.node != 0 ==> HasRoom(d.node)
      ensures ret == 0 && NoWrap() && Ok(built[l]) && TreeShaped(built[l], l) ==>
        forall d :: Occurs(clauses, d) && d.node != 0 ==> 0 < d.node < |nest| && Z.IsLeaf(table, d.node)
    {
      hide S.CachesOk, TreeShaped, Ok, Compiled, TreeOf, WellFormed, ExactClauses, Clauses, NodesFormed, Z.SizesKept;
      hide HasRoom, Occurs, Hopeless, Plain, Scanned, Nnf, S.Acceptable, NoWrap, Z.IsLeaf;
      var orig: Arena?;
      orig, c := GetRootExpr(l);
      if IsValid(l) && (l in old(roots) || Scannable(old(|nest|), l)) { PlainIs(c, l); }
      if orig == null {
        NoClauses();
        return -1, [], c;
      }
      ret, clauses := RootClauses(l, result);
    }

    /** The clauses of a cached formula. */
    method RootClauses(l: nat, result: bool) returns (ret: int, clauses: seq<Clause>)
      requires Valid() && l in roots
      ensures CachedOk(l) && l in built && (ret == 0 || ret == -1) && (Plain(built[l], l) ==> ret == 0)
      ensures Outcome(built[l], l, result, ret, clauses)
      ensures ret == 0 ==> ExactClauses(built[l], l, result, clauses)
      ensures forall d :: Occurs(clauses, d) && d.node != 0 ==> HasRoom(d.node)
      ensures ret == 0 && NoWrap() && Ok(built[l]) && TreeShaped(built[l], l) ==>
        forall d :: Occurs(clauses, d) && d.node != 0 ==> 0 < d.node < |nest| && Z.IsLeaf(table, d.node)
    {
      hide S.CachesOk, TreeShaped, Ok, Compiled, TreeOf, WellFormed, ExactClauses, Clauses, NodesFormed, Z.SizesKept;
      hide HasRoom, Occurs, Plain, Scanned, Nnf, S.Acceptable, NoWrap, Z.IsLeaf;
      hide Outcome;
      assert CachedOk(l);
      var orig := roots[l];
      HasRoot(orig.nodes);
      OutcomeIs(built[l], orig.nodes, l, result);
      if orig.nodes[0].data.kind == Bool {
        FoldedIsNotClean(built[l], orig.nodes, l, result);
        NoClauses();
        return 0, [];
      }
      ret, clauses := ClausesFor(orig.nodes, result);
      PlainHasClauses(built[l], orig.nodes, l, result);
      if ret == 0 {
        ClausesAreExact(built[l], orig.nodes, l, result);
        ClausesHaveRoom(l, result);
        ClausesAreLeaves(l, result);
      } else {
        NoClauses();
      }
    }

    /** A comparison that occurs in a formula.  If its operands have no comparisons and its full size fits 32 bits, the
        cached size is enough for its tree, as long as it was not reduced twice. */
    ghost predicate HasRoom(k: nat)
      reads this`size, this`concretize, this`twice
    {
      && L.Ordered(table) && 0 < k < |size| <= |table| && L.IsCompare(table[k].op)
      && (Z.IsLeaf(table, k) && Z.Full(table, k) < WRAP32 && k !in twice ==>
            Z.Cost(table, concretize, k) <= size[k] <= Z.Full(table, k))
    }

    lemma {:induction false} ClausesHaveRoom(l: nat, result: bool)
      requires Aligned() && Sized() && l in roots && CachedOk(l)
      requires Nnf(!result, TreeOf(roots[l].nodes, 0, |roots[l].nodes|)).Some?
      ensures
        var clauses := Clauses(!result, TreeOf(roots[l].nodes, 0, |roots[l].nodes|));
        forall d :: Occurs(clauses, d) && d.node != 0 ==> HasRoom(d.node)
    {
      hide S.CachesOk, TreeShaped, Ok, Compiled, Z.SizesKept, NodesFormed, Leaves, Occurs, Nnf, Clauses;
      var nodes := roots[l].nodes;
      var t := TreeOf(nodes, 0, |nodes|);
      LeavesFormed(table, maxSize, |built[l].nest|, nodes, 0, |nodes|);
      forall d | Occurs(Clauses(!result, t), d) && d.node != 0 ensures HasRoom(d.node) {
        ClauseLeaves(!result, t, d);
        LeafHasRoom(d.node);
      }
    }

    /** No count of nested comparisons has reached 256. */
    ghost predicate NoWrap()
      reads this`nest
    {
      L.Ordered(table) && |nest| <= |table| && forall l :: 0 <= l < |nest| ==> S.CmpCount(table, l) < WRAP8
    }

    /** On a tree-shaped condition every comparison in the formula is a leaf. */
    lemma {:induction false} LeavesAreLeaves(l: nat, k: nat)
      requires Aligned() && NoWrap() && l in roots && CachedOk(l) && Ok(built[l]) && TreeShaped(built[l], l)
      requires k in Leaves(TreeOf(roots[l].nodes, 0, |roots[l].nodes|)) && k != 0
      ensures k < |nest| && Z.IsLeaf(table, k)
    {
      hide S.CachesOk, TreeShaped, Ok, Z.SizesKept, NodesFormed, Leaves, WellFormed, Compile, Z.Formed, Z.Pure;
      var c := built[l];
      LeavesFormed(table, maxSize, |c.nest|, roots[l].nodes, 0, |roots[l].nodes|);
      CompiledLeaves(c, l, k);
      OrderedOperands(k);
      S.CountEntry(table, sizes, nest, bytes, table[k].l1);
      S.CountEntry(table, sizes, nest, bytes, table[k].l2);
      UncountedIsPure(table, table[k].l1);
      UncountedIsPure(table, table[k].l2);
    }

    lemma {:induction false} ClausesAreLeaves(l: nat, result: bool)
      requires Aligned() && l in roots && CachedOk(l)
      requires Nnf(!result, TreeOf(roots[l].nodes, 0, |roots[l].nodes|)).Some?
      ensures
        var clauses := Clauses(!result, TreeOf(roots[l].nodes, 0, |roots[l].nodes|));
        NoWrap() && Ok(built[l]) && TreeShaped(built[l], l) ==>
          forall d :: Occurs(clauses, d) && d.node != 0 ==> 0 < d.node < |nest| && Z.IsLeaf(table, d.node)
    {
      hide S.CachesOk, TreeShaped, Ok, Z.SizesKept, NodesFormed, Leaves, Occurs, Nnf, Clauses, Compiled;
      if NoWrap() && Ok(built[l]) && TreeShaped(built[l], l) {
        var nodes := roots[l].nodes;
        var t := TreeOf(nodes, 0, |nodes|);
        forall d | Occurs(Clauses(!result, t), d) && d.node != 0 ensures 0 < d.node < |nest| && Z.IsLeaf(table, d.node) {
          ClauseLeaves(!result, t, d);
          LeavesAreLeaves(l, d.node);
        }
      }
    }

    lemma {:induction false} OrderedOperands(k: nat)
      requires L.Ordered(table) && 0 < k < |nest| <= |table|
      ensures table[k].l1 < k && table[k].l2 < k
    {
    }

    lemma {:induction false} LeafHasRoom(k: nat)
      requires Sized() && L.Ordered(table) && 0 < k < |size| <= |table|
      requires L.IsCompare(table[k].op) && Z.Formed(table, maxSize, k)
      ensures HasRoom(k)
    {
      hide Z.SizesKept, Z.Formed, Z.Cost, Z.Full, Z.IsLeaf;
      if Z.IsLeaf(table, k) && Z.Full(table, k) < WRAP32 && k !in twice {
        Z.LeafRoom(Config(table, nest, size, concretize, maxSize), twice, k);
      }
    }
  }

  /** An input byte beyond the end of an empty input, and its negation. */
  const BEYOND: seq<L.LabelInfo> := [
    L.LabelInfo(0, 0, 0, 0, L.Input, 8),
    L.LabelInfo(0, 0, 0, 0, L.Input, 8),
    L.LabelInfo(0, 1, 0, 0, L.Not, 8)]

  lemma {:induction false} BeyondIs()
    ensures L.Ordered(BEYOND) && |BEYOND| == 3 && BEYOND[0].op == L.Input
    ensures !S.Acceptable(BEYOND, [0], 1) && S.Acceptable(BEYOND, [0], 2)
  {
  }

  /** Asking twice for a label that was refused: the first answer is no, the second yes, with caches that do not cover it;
      the label after it is then looked for past the end. */
  method RefusedThenAccepted() returns (first: bool, second: Rescan, third: Rescan, covered: nat)
    ensures !first && second == Yes && third == PastTheEnd && covered == 1
  {
    BeyondIs();
    hide S.Acceptable, L.Ordered;
    var p := new Parser(BEYOND, [0], 200);
    first := p.ScanLabels(1);
    second := p.ScanAgain(1);
    covered := |p.nest|;
    third := p.ScanAgain(2);
  }

  /** A copy of the formula is brought into negation normal form for the other branch, and then into clauses. */
  method ClausesFor(nodes: seq<Node>, result: bool) returns (ret: int, clauses: seq<Clause>)
    requires WellFormed(nodes, 0, |nodes|) && |nodes| <= 33
    ensures ret == if Nnf(!result, TreeOf(nodes, 0, |nodes|)).Some? then 0 else -1
    ensures ret == 0 ==> clauses == Clauses(!result, TreeOf(nodes, 0, |nodes|))
    ensures ret != 0 ==> clauses == []
  {
    var root := new Arena(32);
    CountFits(nodes, 0, |nodes|);
    root.CopyTree(nodes, 0, |nodes|, 0);
    var failed := ToNnf(root, !result, 0, |root.nodes|);
    if failed != 0 { return -1, []; }
    clauses := ToDnf(root.nodes, 0, |root.nodes|, []);
    return 0, clauses;
  }

  /** A tree-shaped condition in which nothing is folded and no exclusive or has two symbolic operands. */
  ghost predicate Plain(c: Config, l: nat) {
    Ok(c) && 0 < l < |c.nest| && TreeShaped(c, l) && Clean(c, l) && NoXor(c, l)
  }

  lemma {:induction false} PlainIs(c: Config, l: nat)
    requires Scanned(c) && l < |c.nest|
    ensures Plain(c, l) ==> 0 < l && Ok(c) && TreeShaped(c, l)
  {
  }

  lemma {:induction false} PlainHasClauses(c: Config, a: seq<Node>, l: nat, result: bool)
    requires Scanned(c) && 0 < l < |c.nest| && WellFormed(a, 0, |a|)
    requires Ok(c) && TreeShaped(c, l) ==> Compiled(c, a, l, 0, |a|)
    ensures Plain(c, l) ==> Nnf(!result, TreeOf(a, 0, |a|)).Some?
  {
    hide WellFormed, Ok, TreeShaped, Clean, NoXor, Nnf, Compile;
    if Plain(c, l) {
      CompileIsFormula(c, l);
      NnfMeaning(!result, TreeOf(a, 0, |a|), EnvOf(c.table, (k: nat) => 0));
    }
  }

  lemma {:induction false} NoClauses()
    ensures forall d :: !Occurs([], d)
  {
  }

  lemma {:induction false} ScannedNow(c: Config)
    requires L.Ordered(c.table) && 0 < |c.nest| == |c.size| <= |c.table| && c.table[0].op == L.Input && c.nest[0] == 0
    ensures Scanned(c)
  {
  }

  lemma {:induction false} ScannedIs(c: Config)
    requires Scanned(c)
    ensures |c.nest| == |c.size|
  {
  }

  lemma {:induction false} HasRoot(a: seq<Node>)
    requires WellFormed(a, 0, |a|)
    ensures |a| > 0
  {
  }

  /** What becomes of a condition that has a formula: nothing if it is a constant, and otherwise the clauses of the other
      branch, if it has a normal form. */
  ghost predicate Outcome(c: Config, l: nat, result: bool, ret: int, clauses: seq<Clause>) {
    Ok(c) && 0 < l < |c.nest| && TreeShaped(c, l) && Compile(c, l).Some? ==>
      var t := Compile(c, l).value;
      if t.data.kind == Bool then ret == 0 && clauses == []
      else if Nnf(!result, t).Some? then ret == 0 && clauses == Clauses(!result, t)
      else ret == -1 && clauses == []
  }

  lemma {:induction false} OutcomeIs(c: Config, a: seq<Node>, l: nat, result: bool)
    requires Scanned(c) && 0 < l < |c.nest| && WellFormed(a, 0, |a|)
    requires Ok(c) && TreeShaped(c, l) ==> Compiled(c, a, l, 0, |a|)
    ensures
      var t := TreeOf(a, 0, |a|);
      && (a[0].data.kind == Bool ==> Outcome(c, l, result, 0, []))
      && (a[0].data.kind != Bool && Nnf(!result, t).Some? ==> Outcome(c, l, result, 0, Clauses(!result, t)))
      && (a[0].data.kind != Bool && Nnf(!result, t).None? ==> Outcome(c, l, result, -1, []))
  {
    hide Ok, TreeShaped, Compile, Nnf, Clauses, Scanned;
    assert TreeOf(a, 0, |a|).data == a[0].data;
  }

  /** On a clean, tree-shaped condition, a clause is satisfied exactly when the condition gets the other value. */
  ghost predicate ExactClauses(c: Config, l: nat, result: bool, clauses: seq<Clause>) {
    Ok(c) && 0 < l < |c.nest| && TreeShaped(c, l) && Clean(c, l) && NoXor(c, l) ==>
      forall v: nat -> nat :: Respects(c.table, v) ==>
        (Satisfied(clauses, EnvOf(c.table, v)) <==> (v(l) != 0) == !result)
  }

  lemma {:induction false} FoldedIsNotClean(c: Config, a: seq<Node>, l: nat, result: bool)
    requires Scanned(c) && 0 < l < |c.nest| && WellFormed(a, 0, |a|) && a[0].data.kind == Bool
    requires Ok(c) && TreeShaped(c, l) ==> Compiled(c, a, l, 0, |a|)
    ensures ExactClauses(c, l, result, [])
  {
    if Ok(c) && TreeShaped(c, l) && Clean(c, l) && NoXor(c, l) {
      CleanIsSymbolic(c, l);
      assert false;
    }
  }

  lemma {:induction false} ClausesAreExact(c: Config, a: seq<Node>, l: nat, result: bool)
    requires Scanned(c) && 0 < l < |c.nest| && WellFormed(a, 0, |a|)
    requires Ok(c) && TreeShaped(c, l) ==> Compiled(c, a, l, 0, |a|)
    requires Nnf(!result, TreeOf(a, 0, |a|)).Some?
    ensures ExactClauses(c, l, result, Clauses(!result, TreeOf(a, 0, |a|)))
  {
    if Ok(c) && TreeShaped(c, l) && Clean(c, l) && NoXor(c, l) {
      var t := TreeOf(a, 0, |a|);
      forall v: nat -> nat | Respects(c.table, v)
        ensures Satisfied(Clauses(!result, t), EnvOf(c.table, v)) <==> (v(l) != 0) == !result
      {
        CompileMeaning(c, v, l);
        CompileIsFormula(c, l);
        ClausesMeaning(!result, t, EnvOf(c.table, v));
      }
    }
  }
}
