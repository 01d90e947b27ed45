/** parsers/rgd-parser.cpp, construct_task: the constraints of a clause, built on first use. */
module BranchTasks {
  import opened Base
  import L = Labels
  import opened Ast
  import F = Formula
  import R = FindRoots
  import Z = AstSizes
  import C = Constraints
  import P = RgdParser

  /** The cached size of label `k` is enough for its tree. */
  ghost predicate Ready(c: R.Config, k: nat) {
    && L.Ordered(c.table) && k < |c.table|
    && (k < |c.size| ==> Z.Cost(c.table, c.concretize, k) <= c.size[k] < C.SIGNED_LIMIT)
  }

  predicate Expressible(c: R.Config, contents: map<nat, seq<nat>>, k: nat)
    requires L.Ordered(c.table) && k < |c.table|
  {
    (c.table[k].op.ICmp? || c.table[k].op == L.Fmemcmp) && k < |c.size| && C.Buildable(c.table, c.concretize, contents, k)
  }

  /** The literals of a clause that have a constraint already or can be expressed, in order. */
  ghost function Chosen(c: R.Config, contents: map<nat, seq<nat>>, cached: set<nat>, clause: F.Clause): F.Clause
    requires forall d :: d in clause ==> Ready(c, d.node)
  {
    if clause == [] then []
    else
      var d := clause[|clause| - 1];
      assert d in clause && Ready(c, d.node);
      Chosen(c, contents, cached, clause[..|clause| - 1])
      + if d.node in cached || Expressible(c, contents, d.node) then [d] else []
  }

  lemma {:induction false} ChosenSnoc(c: R.Config, contents: map<nat, seq<nat>>, cached: set<nat>, clause: F.Clause, i: nat)
    requires i < |clause| && forall d :: d in clause ==> Ready(c, d.node)
    ensures Ready(c, clause[i].node) && L.Ordered(c.table) && clause[i].node < |c.table|
    ensures forall d :: d in clause[..i + 1] ==> Ready(c, d.node)
    ensures Chosen(c, contents, cached, clause[..i + 1])
      == Chosen(c, contents, cached, clause[..i])
         + if clause[i].node in cached || Expressible(c, contents, clause[i].node) then [clause[i]] else []
  {
    assert clause[..i + 1][..i] == clause[..i];
    assert clause[i] in clause;
    hide Expressible;
  }

  /** A literal of the clause is chosen if and only if it has a constraint already or can be expressed. */
  lemma {:induction false} ChosenIff(c: R.Config, contents: map<nat, seq<nat>>, cached: set<nat>, clause: F.Clause, d: Data)
    requires forall e :: e in clause ==> Ready(c, e.node)
    ensures d in Chosen(c, contents, cached, clause) ==> d in clause && Ready(c, d.node)
    ensures d in clause ==>
      && Ready(c, d.node) && L.Ordered(c.table) && d.node < |c.table|
      && (d in Chosen(c, contents, cached, clause) <==> d.node in cached || Expressible(c, contents, d.node))
    decreases |clause|
  {
    hide Expressible, Chosen, Z.Cost;
    if clause == [] {
      ChosenNone(c, contents, cached, clause);
    } else {
      var last := |clause| - 1;
      assert clause[..last + 1] == clause == clause[..last] + [clause[last]];
      assert forall e :: e in clause[..last] ==> e in clause;
      ChosenSnoc(c, contents, cached, clause, last);
      ChosenIff(c, contents, cached, clause[..last], d);
    }
  }

  lemma {:induction false} ChosenNone(c: R.Config, contents: map<nat, seq<nat>>, cached: set<nat>, clause: F.Clause)
    ensures clause[..0] == [] && Chosen(c, contents, cached, []) == []
  {
  }

  /** The cache has grown by constraints of expressible labels. */
  ghost predicate Grown(c: R.Config, contents: map<nat, seq<nat>>, cache: map<nat, C.Builder>, later: map<nat, C.Builder>)
    requires L.Ordered(c.table)
    reads later.Values, set b | b in later.Values :: b.ast
  {
    && (forall k :: k in cache ==> k in later && later[k] == cache[k])
    && forall k :: k in later && k !in cache ==>
         && k < |c.table| && Expressible(c, contents, k)
         && C.IsConstraint(C.Source(c.table, c.concretize, contents), later[k], k)
  }

  lemma {:induction false} Grows(c: R.Config, contents: map<nat, seq<nat>>, cache: map<nat, C.Builder>,
                                 later: map<nat, C.Builder>, k: nat, b: C.Builder)
    requires L.Ordered(c.table) && Grown(c, contents, cache, later) && k !in later
    requires k < |c.table| && Expressible(c, contents, k)
    requires C.IsConstraint(C.Source(c.table, c.concretize, contents), b, k)
    ensures Grown(c, contents, cache, later[k := b])
  {
    hide Expressible, C.IsConstraint;
  }

  lemma {:induction false} GrownKey(c: R.Config, contents: map<nat, seq<nat>>, cache: map<nat, C.Builder>,
                                    later: map<nat, C.Builder>, k: nat)
    requires L.Ordered(c.table) && Grown(c, contents, cache, later) && k < |c.table|
    ensures k in later ==> k in cache || Expressible(c, contents, k)
    ensures k in cache ==> k in later
  {
    hide Expressible, C.IsConstraint;
  }

  /** construct_task, without finalize: the literals that get a constraint, which is the cached one of their label.  Each
      label's constraint is built once. */
  method ConstructTask(c: R.Config, contents: map<nat, seq<nat>>, buffers: seq<seq<nat>>, clause: F.Clause,
                       cache: map<nat, C.Builder>)
    returns (picked: F.Clause, later: map<nat, C.Builder>)
    requires L.Ordered(c.table) && forall d :: d in clause ==> Ready(c, d.node)
    ensures picked == Chosen(c, contents, cache.Keys, clause)
    ensures Grown(c, contents, cache, later) && forall d :: d in picked ==> d.node in later
  {
    hide *;
    ChosenNone(c, contents, cache.Keys, clause);
    GrownNone(c, contents, cache);
    picked, later := [], cache;
    var i := 0;
    while i < |clause|
      invariant 0 <= i <= |clause| && Grown(c, contents, cache, later)
      invariant picked == Chosen(c, contents, cache.Keys, clause[..i])
      invariant forall d :: d in picked ==> d.node in later
    {
      var k := clause[i].node;
      ChosenSnoc(c, contents, cache.Keys, clause, i);
      ReadyIs(c, contents, k);
      GrownKey(c, contents, cache, later, k);
      if k in later {
        picked := picked + [clause[i]];
      } else {
        var r := C.ParseConstraint(c, contents, buffers, k);
        if r.Parsed? {
          Grows(c, contents, cache, later, k, r.builder);
          picked, later := picked + [clause[i]], later[k := r.builder];
        }
      }
      i := i + 1;
    }
    assert clause[..i] == clause;
  }

  lemma {:induction false} GrownNone(c: R.Config, contents: map<nat, seq<nat>>, cache: map<nat, C.Builder>)
    requires L.Ordered(c.table)
    ensures Grown(c, contents, cache, cache)
  {
  }

  lemma {:induction false} ReadyIs(c: R.Config, contents: map<nat, seq<nat>>, k: nat)
    requires Ready(c, k)
    ensures L.Ordered(c.table) && k < |c.table| && C.SIGNED_LIMIT < WRAP32
    ensures k < |c.size| ==> Z.Cost(c.table, c.concretize, k) <= c.size[k] < C.SIGNED_LIMIT
    ensures Expressible(c, contents, k) <==>
      (c.table[k].op.ICmp? || c.table[k].op == L.Fmemcmp) && k < |c.size| && C.Buildable(c.table, c.concretize, contents, k)
  {
  }

  /** The clauses that parse_cond has just made of a tree-shaped condition are ready, unless a comparison in them is too
      large for a signed size or was reduced twice. */
  lemma {:induction false} ClausesAreReady(p: P.Parser, clauses: seq<F.Clause>)
    requires p.Sized() && |p.size| > 0
    requires forall d :: F.Occurs(clauses, d) && d.node != 0 ==>
      && p.HasRoom(d.node) && Z.IsLeaf(p.table, d.node)
      && Z.Full(p.table, d.node) < C.SIGNED_LIMIT && d.node !in p.twice
    ensures forall clause, d :: clause in clauses && d in clause ==> Ready(p.Cfg(), d.node)
  {
    hide Z.Cost, Z.Full, Z.IsLeaf;
    forall clause, d | clause in clauses && d in clause
      ensures Ready(p.Cfg(), d.node)
    {
      assert F.Occurs(clauses, d);
      ConstantIsReady(p.Cfg(), p.twice);
    }
  }

  lemma {:induction false} ConstantIsReady(c: R.Config, twice: set<nat>)
    requires Z.SizesKept(c.table, c.size, c.concretize, c.maxSize, twice) && |c.size| > 0
    ensures Ready(c, 0)
  {
    assert Z.SizeKept(c.table, c.size, c.concretize, c.maxSize, twice, 0);
  }
}
