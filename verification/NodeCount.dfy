/** How many nodes find_roots needs: one for every label of a tree-shaped condition, so that it runs out of room exactly
    when there are more labels than nodes. */
module NodeCount {
  import opened Base
  import opened Ast
  import opened FindRoots
  import opened Traversal

  ghost function OnStack(stack: seq<nat>): set<nat> {
    set k | 0 <= k < |stack| :: stack[k]
  }

  /** The labels that have a node. */
  ghost function Seen(s: State): set<nat> {
    s.visited + OnStack(s.stack) + if s.root != 0 then {s.root} else {}
  }

  /** Labels wait in descending order. */
  ghost predicate Descends(s: State) {
    && (forall j, k :: 0 <= j < k < |s.stack| ==> s.stack[k] < s.stack[j])
    && (s.root != 0 && s.stack != [] ==> s.root < Last(s.stack))
  }

  ghost predicate LeftSeen(c: Config, s: State, l: nat)
    requires Ok(c)
  {
    0 < l < |c.nest| && (HasLeft(c, l) ==> LeftOf(c, l) in Seen(s))
  }

  ghost predicate WhollyVisited(c: Config, s: State, l: nat)
    requires Ok(c)
  {
    0 < l < |c.nest| && Below(c, l) <= s.visited
  }

  ghost predicate AllLeftSeen(c: Config, s: State, stack: seq<nat>)
    requires Ok(c)
  {
    forall k :: 0 <= k < |stack| ==> LeftSeen(c, s, stack[k])
  }

  ghost predicate AllWholly(c: Config, s: State, labels: set<nat>)
    requires Ok(c)
  {
    forall l :: l in labels ==> WhollyVisited(c, s, l)
  }

  /** There are `n` nodes, one for each label seen; visited labels have everything below them visited. */
  ghost predicate Counted(c: Config, n: nat, goal: nat, s: State)
    requires Ok(c) && goal < |c.nest|
  {
    && n == |Seen(s)| && goal in Seen(s) && Seen(s) <= Below(c, goal)
    && AllLeftSeen(c, s, s.stack) && AllWholly(c, s, s.visited)
  }

  lemma {:induction false} CountStart(c: Config, goal: nat)
    requires Ok(c) && 0 < goal < |c.nest|
    ensures Counted(c, 1, goal, State([], [], goal, 0, 0, {}, false))
  {
    hide Below, Ok, LeftSeen, WhollyVisited;
    BelowContains(c, goal);
    assert Seen(State([], [], goal, 0, 0, {}, false)) == {goal};
  }

  lemma {:induction false} OnStackSnoc(stack: seq<nat>, l: nat)
    ensures OnStack(stack + [l]) == OnStack(stack) + {l}
  {
    assert (stack + [l])[|stack|] == l;
    forall k | 0 <= k < |stack| ensures stack[k] in OnStack(stack + [l]) { assert (stack + [l])[k] == stack[k]; }
  }

  lemma {:induction false} LeftsGrow(c: Config, s: State, t: State, stack: seq<nat>)
    requires Ok(c) && AllLeftSeen(c, s, stack) && Seen(s) <= Seen(t)
    ensures AllLeftSeen(c, t, stack)
  {
    hide Ok, HasLeft, LeftOf, Seen;
    forall k | 0 <= k < |stack| ensures LeftSeen(c, t, stack[k]) { assert LeftSeen(c, s, stack[k]); }
  }

  lemma {:induction false} WhollyGrows(c: Config, s: State, t: State, labels: set<nat>)
    requires Ok(c) && AllWholly(c, s, labels) && s.visited <= t.visited
    ensures AllWholly(c, t, labels)
  {
    hide Ok, Below;
    forall l | l in labels ensures WhollyVisited(c, t, l) { assert WhollyVisited(c, s, l); }
  }

  lemma {:induction false} CountedIs(c: Config, n: nat, goal: nat, s: State)
    requires Ok(c) && goal < |c.nest|
    ensures Counted(c, n, goal, s) <==>
      && n == |Seen(s)| && goal in Seen(s) && Seen(s) <= Below(c, goal)
      && AllLeftSeen(c, s, s.stack) && AllWholly(c, s, s.visited)
  {
    hide Ok, Below, Seen, LeftSeen, WhollyVisited;
  }

  lemma {:induction false} LeftsSnoc(c: Config, s: State, stack: seq<nat>, l: nat)
    requires Ok(c) && AllLeftSeen(c, s, stack) && LeftSeen(c, s, l)
    ensures AllLeftSeen(c, s, stack + [l])
  {
    hide Ok, LeftSeen;
  }

  lemma {:induction false} LeftsPrefix(c: Config, s: State, stack: seq<nat>, l: nat)
    requires Ok(c) && AllLeftSeen(c, s, stack + [l])
    ensures AllLeftSeen(c, s, stack) && LeftSeen(c, s, l)
  {
    hide Ok, LeftSeen;
    assert (stack + [l])[|stack|] == l;
    forall k | 0 <= k < |stack| ensures LeftSeen(c, s, stack[k]) { assert (stack + [l])[k] == stack[k]; }
  }

  lemma {:induction false} WhollySnoc(c: Config, s: State, labels: set<nat>, l: nat)
    requires Ok(c) && AllWholly(c, s, labels) && WhollyVisited(c, s, l)
    ensures AllWholly(c, s, labels + {l})
  {
    hide Ok, WhollyVisited;
  }

  lemma {:induction false} SeenEnter(s: State, t: State)
    requires s.root != 0 && t.stack == s.stack + [s.root] && t.visited == s.visited
    ensures Seen(t) == Seen(s) + if t.root != 0 then {t.root} else {}
  {
    hide OnStack;
    OnStackSnoc(s.stack, s.root);
  }

  /** A label going from the root to the stack, with or without a child to go down to. */
  lemma {:induction false} CountEnter(c: Config, n: nat, goal: nat, s: State, t: State)
    requires Ok(c) && goal < |c.nest| && Counted(c, n, goal, s) && 0 < s.root < |c.nest|
    requires t.stack == s.stack + [s.root] && t.visited == s.visited
    requires t.root == if HasLeft(c, s.root) then LeftOf(c, s.root) else 0
    requires HasLeft(c, s.root) ==> LeftOf(c, s.root) !in Seen(s) && LeftOf(c, s.root) in Below(c, goal)
    ensures Counted(c, if HasLeft(c, s.root) then n + 1 else n, goal, t)
  {
    hide *;
    ChildFacts(c, s.root);
    CountedIs(c, n, goal, s);
    CountedIs(c, if HasLeft(c, s.root) then n + 1 else n, goal, t);
    SeenEnter(s, t);
    LeftsGrow(c, s, t, s.stack);
    NewLeftSeen(c, t, s.root);
    LeftsSnoc(c, t, s.stack, s.root);
    WhollyGrows(c, s, t, s.visited);
  }

  lemma {:induction false} NewLeftSeen(c: Config, t: State, l: nat)
    requires Ok(c) && 0 < l < |c.nest| && (HasLeft(c, l) ==> LeftOf(c, l) in Seen(t))
    ensures LeftSeen(c, t, l)
  {
  }

  /** Going down to a right child. */
  lemma {:induction false} CountRight(c: Config, n: nat, goal: nat, s: State, t: State)
    requires Ok(c) && goal < |c.nest| && Counted(c, n, goal, s) && s.root == 0 && t.root != 0
    requires t.stack == s.stack && t.visited == s.visited && t.root !in Seen(s) && t.root in Below(c, goal)
    ensures Counted(c, n + 1, goal, t)
  {
    hide Below, Ok, LeftSeen, WhollyVisited;
    assert Seen(t) == Seen(s) + {t.root};
    LeftsGrow(c, s, t, s.stack);
    WhollyGrows(c, s, t, s.visited);
  }

  lemma {:induction false} NotOnStack(s: State, m: nat)
    requires Descends(s) && (s.root != 0 ==> m < s.root)
    requires s.stack != [] ==> m < Last(s.stack)
    ensures m in Seen(s) ==> m in s.visited
  {
  }

  lemma {:induction false} SeenPop(s: State, t: State)
    requires s.root == 0 == t.root && s.stack != []
    requires t.stack == s.stack[..|s.stack| - 1] && t.visited == s.visited + {Last(s.stack)}
    ensures Seen(t) == Seen(s) && s.stack == t.stack + [Last(s.stack)]
  {
    hide OnStack;
    assert s.stack == t.stack + [Last(s.stack)];
    OnStackSnoc(t.stack, Last(s.stack));
  }

  /** Everything below a label on top of the stack has been visited when its right child has. */
  lemma {:induction false} TopIsWhole(c: Config, s: State, l: nat)
    requires Ok(c) && 0 < l < |c.nest| && Descends(s) && s.root == 0 && s.stack != [] && l == Last(s.stack)
    requires LeftSeen(c, s, l) && AllWholly(c, s, s.visited) && (HasRight(c, l) ==> RightOf(c, l) in s.visited)
    ensures HasLeft(c, l) ==> WhollyVisited(c, s, LeftOf(c, l))
    ensures HasRight(c, l) ==> WhollyVisited(c, s, RightOf(c, l))
  {
    hide Below, Seen, Ok;
    ChildFacts(c, l);
    if HasLeft(c, l) { NotOnStack(s, LeftOf(c, l)); }
  }

  /** Leaving a finished label. */
  lemma {:induction false} CountPop(c: Config, n: nat, goal: nat, s: State, t: State)
    requires Ok(c) && goal < |c.nest| && Counted(c, n, goal, s) && Descends(s) && s.root == 0 == t.root && s.stack != []
    requires t.stack == s.stack[..|s.stack| - 1] && t.visited == s.visited + {Last(s.stack)}
    requires 0 < Last(s.stack) < |c.nest| && (HasRight(c, Last(s.stack)) ==> RightOf(c, Last(s.stack)) in s.visited)
    ensures Counted(c, n, goal, t)
  {
    hide *;
    var l := Last(s.stack);
    CountedIs(c, n, goal, s);
    CountedIs(c, n, goal, t);
    SeenPop(s, t);
    LeftsPrefix(c, s, t.stack, l);
    LeftsGrow(c, s, t, t.stack);
    TopIsWhole(c, s, l);
    PopWholly(c, s, t, l);
    WhollyGrows(c, s, t, s.visited);
    WhollySnoc(c, t, s.visited, l);
  }

  lemma {:induction false} PopWholly(c: Config, s: State, t: State, l: nat)
    requires Ok(c) && 0 < l < |c.nest| && t.visited == s.visited + {l}
    requires HasLeft(c, l) ==> WhollyVisited(c, s, LeftOf(c, l))
    requires HasRight(c, l) ==> WhollyVisited(c, s, RightOf(c, l))
    ensures WhollyVisited(c, t, l)
  {
  }

  /** At the end there is one node for every label of the condition. */
  lemma {:induction false} CountEnd(c: Config, n: nat, goal: nat, s: State)
    requires Ok(c) && goal < |c.nest| && Counted(c, n, goal, s) && s.root == 0 && s.stack == []
    ensures n == |Below(c, goal)|
  {
    hide Below, Ok, LeftSeen;
    assert Seen(s) == s.visited;
    assert WhollyVisited(c, s, goal);
    assert Below(c, goal) == Seen(s);
  }

  /** When there is no node left for a new label, there are more labels than nodes. */
  lemma {:induction false} NoRoom(c: Config, n: nat, goal: nat, s: State, m: nat)
    requires Ok(c) && goal < |c.nest| && Counted(c, n, goal, s) && m !in Seen(s) && m in Below(c, goal)
    ensures |Below(c, goal)| > n
  {
    hide Below;
    SubsetSize(Seen(s) + {m}, Below(c, goal));
  }

  lemma {:induction false} SubsetSize(x: set<nat>, y: set<nat>)
    requires x <= y
    ensures |x| <= |y|
  {
    assert y == x + (y - x) && |y| == |x| + |y - x|;
  }

  /** A label that cannot be compiled spoils every condition it is part of. */
  lemma {:induction false} FailureSpreads(c: Config, goal: nat, l: nat)
    requires Ok(c) && 0 < goal < |c.nest| && l in Below(c, goal) && 0 < l < |c.nest| && Compile(c, l).None?
    ensures Compile(c, goal).None?
    decreases goal
  {
    ChildFacts(c, goal);
    if l != goal {
      if HasLeft(c, goal) && l in Below(c, LeftOf(c, goal)) {
        FailureSpreads(c, LeftOf(c, goal), l);
      } else {
        FailureSpreads(c, RightOf(c, goal), l);
      }
    }
  }

  // ---- what the traversal invariant gives ----

  lemma {:induction false} NewLeft(c: Config, a: seq<Node>, goal: nat, s: State)
    requires Ok(c) && Inv(c, a, goal, s) && s.root != 0 && HasLeft(c, s.root) && Descends(s)
    ensures s.root < |c.nest| && 0 < goal < |c.nest| && LeftOf(c, s.root) !in Seen(s) && LeftOf(c, s.root) in Below(c, goal)
  {
    var ls := s.stack + [s.root];
    assert Last(ls) == s.root && ls[0] == goal;
    assert Below(c, ls[|ls| - 1]) <= Below(c, ls[0]);
    BelowContains(c, s.root);
    ChildFacts(c, s.root);
    NotOnStack(s, LeftOf(c, s.root));
  }

  lemma {:induction false} NewRight(c: Config, a: seq<Node>, goal: nat, s: State)
    requires Ok(c) && Inv(c, a, goal, s) && s.root == 0 && s.stack != [] && Descends(s)
    requires !s.rightDone && HasRight(c, Last(s.stack))
    ensures 0 < goal < |c.nest| && RightOf(c, Last(s.stack)) !in Seen(s) && RightOf(c, Last(s.stack)) in Below(c, goal)
  {
    assert Below(c, s.stack[|s.stack| - 1]) <= Below(c, s.stack[0]);
    BelowContains(c, Last(s.stack));
    ChildFacts(c, Last(s.stack));
    NotOnStack(s, RightOf(c, Last(s.stack)));
  }

  lemma {:induction false} TopIsBelow(c: Config, a: seq<Node>, goal: nat, s: State)
    requires Ok(c) && Inv(c, a, goal, s) && s.root == 0 && s.stack != []
    ensures 0 < goal < |c.nest| && 0 < Last(s.stack) < |c.nest| && Last(s.stack) in Below(c, goal)
    ensures s.rightDone ==> HasRight(c, Last(s.stack)) && RightOf(c, Last(s.stack)) in s.visited
  {
    assert Below(c, s.stack[|s.stack| - 1]) <= Below(c, s.stack[0]);
    BelowContains(c, Last(s.stack));
    ChildFacts(c, Last(s.stack));
  }
}
