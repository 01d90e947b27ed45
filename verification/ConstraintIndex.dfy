/** The byte-indexed store of branch constraints of the RGD parser (parsers/rgd-parser.cpp):
    `save_constraint` files a literal in the bucket of the union-find root of its input bytes,
    `parse_cond` later collects the literals related to a new branch. */
module ConstraintIndex {
  import UF = UnionFind
  import opened Closure

  /** A relational leaf of the formula: the label of the comparison and its (possibly negated) kind. */
  datatype Literal = Literal(cmp: nat, kind: nat)

  /** The set bits of a bitset of width `n`, as find_first / find_next enumerate them. */
  ghost predicate BitsBelow(bits: seq<nat>, n: nat) {
    && (forall k :: 0 <= k < |bits| ==> bits[k] < n)
    && (forall j, k :: 0 <= j < k < |bits| ==> bits[j] < bits[k])
  }

  /** Where `lit` can be found from any of the bytes it reads. */
  ghost predicate Filed(rep: seq<nat>, buckets: seq<seq<Literal>>, lit: Literal, bits: seq<nat>) {
    exists i :: 0 <= i < |rep| && i < |buckets| && lit in buckets[i]
      && forall b :: b in bits ==> b < |rep| && rep[b] == rep[i]
  }

  ghost predicate AllFiled(rep: seq<nat>, buckets: seq<seq<Literal>>, saved: set<Literal>, inputs: nat -> seq<nat>) {
    forall lit :: lit in saved && inputs(lit.cmp) != [] ==> Filed(rep, buckets, lit, inputs(lit.cmp))
  }

  /** Every bucket holds saved literals only, each of them reading a byte of the bucket's class. */
  ghost predicate BucketsSound(rep: seq<nat>, buckets: seq<seq<Literal>>, saved: set<Literal>, inputs: nat -> seq<nat>) {
    && |buckets| == |rep|
    && forall i, lit :: 0 <= i < |buckets| && lit in buckets[i] ==>
      && lit in saved && forall b :: b in inputs(lit.cmp) ==> b < |rep| && rep[b] == rep[i]
  }

  /** Every filed label has a byte of its own class as its home, whatever is left of its dependencies. */
  ghost predicate HomesOk(rep: seq<nat>, buckets: seq<seq<Literal>>, home: map<nat, nat>, inputs: nat -> seq<nat>) {
    && |buckets| == |rep|
    && (forall l :: l in home ==> home[l] < |rep| && forall b :: b in inputs(l) ==> b < |rep| && rep[b] == rep[home[l]])
    && forall i, lit :: 0 <= i < |buckets| && lit in buckets[i] ==> lit.cmp in home && rep[home[lit.cmp]] == rep[i]
  }

  lemma {:induction false} JoinKeepsHomes(rep: seq<nat>, buckets: seq<seq<Literal>>, home: map<nat, nat>,
                                          inputs: nat -> seq<nat>, x: nat, y: nat, r: nat)
    requires HomesOk(rep, buckets, home, inputs) && x < |rep| && y < |rep|
    ensures HomesOk(UF.Join(rep, rep[x], rep[y], r), buckets, home, inputs)
  {
  }

  lemma {:induction false} FilingKeepsHomes(rep: seq<nat>, buckets: seq<seq<Literal>>, home: map<nat, nat>,
                                            inputs: nat -> seq<nat>, lit: Literal, i: nat)
    requires HomesOk(rep, buckets, home, inputs) && i < |rep| && inputs(lit.cmp) != []
    requires forall b :: b in inputs(lit.cmp) ==> b < |rep| && rep[b] == rep[i]
    ensures HomesOk(rep, buckets[i := buckets[i] + [lit]], home[lit.cmp := inputs(lit.cmp)[0]], inputs)
  {
    assert inputs(lit.cmp)[0] in inputs(lit.cmp);
  }

  /** Fewer dependencies for one label. */
  lemma {:induction false} RestrictKeeps(rep: seq<nat>, buckets: seq<seq<Literal>>, saved: set<Literal>, home: map<nat, nat>,
                                         inputs: nat -> seq<nat>, l: nat, bits: seq<nat>, later: nat -> seq<nat>)
    requires AllFiled(rep, buckets, saved, inputs) && BucketsSound(rep, buckets, saved, inputs)
    requires HomesOk(rep, buckets, home, inputs) && forall b :: b in bits ==> b in inputs(l)
    requires forall k :: later(k) == if k == l then bits else inputs(k)
    ensures AllFiled(rep, buckets, saved, later) && BucketsSound(rep, buckets, saved, later)
    ensures HomesOk(rep, buckets, home, later)
  {
    forall lit | lit in saved && later(lit.cmp) != []
      ensures Filed(rep, buckets, lit, later(lit.cmp))
    {
      if lit.cmp == l { assert bits[0] in inputs(l); }
      assert inputs(lit.cmp) != [] && Filed(rep, buckets, lit, inputs(lit.cmp));
      var i :| 0 <= i < |rep| && i < |buckets| && lit in buckets[i]
        && forall b :: b in inputs(lit.cmp) ==> b < |rep| && rep[b] == rep[i];
      assert 0 <= i < |rep| && lit in buckets[i] && forall b :: b in later(lit.cmp) ==> b < |rep| && rep[b] == rep[i];
    }
  }

  /** Merging classes never separates a literal from its bytes. */
  lemma {:induction false} JoinKeepsFiled(rep: seq<nat>, buckets: seq<seq<Literal>>, saved: set<Literal>,
                                          inputs: nat -> seq<nat>, x: nat, y: nat, r: nat)
    requires AllFiled(rep, buckets, saved, inputs) && BucketsSound(rep, buckets, saved, inputs)
    requires x < |rep| && y < |rep|
    ensures AllFiled(UF.Join(rep, rep[x], rep[y], r), buckets, saved, inputs)
    ensures BucketsSound(UF.Join(rep, rep[x], rep[y], r), buckets, saved, inputs)
  {
    var rep' := UF.Join(rep, rep[x], rep[y], r);
    forall lit | lit in saved && inputs(lit.cmp) != []
      ensures Filed(rep', buckets, lit, inputs(lit.cmp))
    {
      var i :| 0 <= i < |rep| && i < |buckets| && lit in buckets[i]
        && forall b :: b in inputs(lit.cmp) ==> b < |rep| && rep[b] == rep[i];
      assert 0 <= i < |rep'| && lit in buckets[i];
    }
  }

  lemma {:induction false} FilingKeepsFiled(rep: seq<nat>, buckets: seq<seq<Literal>>, saved: set<Literal>,
                                            inputs: nat -> seq<nat>, lit: Literal, i: nat)
    requires AllFiled(rep, buckets, saved, inputs) && BucketsSound(rep, buckets, saved, inputs)
    requires i < |rep| && inputs(lit.cmp) != []
    requires forall b :: b in inputs(lit.cmp) ==> b < |rep| && rep[b] == rep[i]
    ensures AllFiled(rep, buckets[i := buckets[i] + [lit]], saved + {lit}, inputs)
    ensures BucketsSound(rep, buckets[i := buckets[i] + [lit]], saved + {lit}, inputs)
  {
    var buckets' := buckets[i := buckets[i] + [lit]];
    forall l | l in saved + {lit} && inputs(l.cmp) != []
      ensures Filed(rep, buckets', l, inputs(l.cmp))
    {
      if l == lit {
        assert lit in buckets'[i];
      } else {
        var j :| 0 <= j < |rep| && j < |buckets| && l in buckets[j]
          && forall b :: b in inputs(l.cmp) ==> b < |rep| && rep[b] == rep[j];
        assert l in buckets'[j];
      }
    }
  }

  ghost function Labels(s: seq<Literal>): set<nat> {
    set l | l in s :: l.cmp
  }

  lemma {:induction false} LabelsAppend(s: seq<Literal>, l: Literal)
    ensures Labels(s + [l]) == Labels(s) + {l.cmp}
  {
    assert forall x :: x in s + [l] <==> x in s || x == l;
    forall x | x in Labels(s) + {l.cmp} ensures x in Labels(s + [l]) {
      if x == l.cmp {
        assert l in s + [l];
      } else {
        var y :| y in s && y.cmp == x;
        assert y in s + [l];
      }
    }
  }

  /** The labels of all literals in the buckets listed in `within`. */
  ghost function LabelsIn(buckets: seq<seq<Literal>>, within: set<nat>): set<nat>
    requires forall i :: i in within ==> i < |buckets|
  {
    set i, l | i in within && l in buckets[i] :: l.cmp
  }

  class Index {
    var inputs: nat -> seq<nat>            // branch_to_inputs: the input bytes a label reads
    const deps: UF.UnionFind               // data_flow_deps
    var buckets: seq<seq<Literal>>         // input_to_branches
    ghost var saved: set<Literal>
    ghost var home: map<nat, nat>          // a byte of the class that each label is filed in

    ghost predicate Valid()
      reads this, deps
    {
      && deps.Valid()
      && (forall l :: BitsBelow(inputs(l), deps.size))
      && AllFiled(deps.rep, buckets, saved, inputs)
      && BucketsSound(deps.rep, buckets, saved, inputs) && HomesOk(deps.rep, buckets, home, inputs)
    }

    constructor (n: nat, inputs: nat -> seq<nat>)
      requires n <= UF.INVALID && forall l :: BitsBelow(inputs(l), n)
      ensures Valid() && saved == {} && fresh(deps) && this.inputs == inputs && deps.size == n
      ensures buckets == seq(n, _ => []) && forall i :: 0 <= i < n ==> deps.rep[i] == i
    {
      this.inputs := inputs;
      deps := new UF.UnionFind(n);
      buckets := seq(n, _ => []);
      saved, home := {}, map[];
    }

    /** A comparison with one concretized operand depends on the bytes of the other operand `k` only.  The list is
        overwritten in place, so this lasts; whatever was filed stays where it can be found. */
    method Restrict(l: nat, k: nat)
      requires Valid() && forall b :: b in inputs(k) ==> b in inputs(l)
      modifies this`inputs
      ensures Valid() && forall m :: inputs(m) == if m == l then old(inputs)(k) else old(inputs)(m)
    {
      hide UF.ForestOk, UF.RingsOk, UF.RanksOk, UF.ExactOk, AllFiled, BucketsSound, HomesOk;
      ghost var was := inputs;
      var bits := inputs(k);
      var rest := inputs;
      assert BitsBelow(bits, deps.size);
      inputs := (m: nat) => if m == l then bits else rest(m);
      forall m ensures BitsBelow(inputs(m), deps.size) { assert BitsBelow(was(m), deps.size); }
      RestrictKeeps(deps.rep, buckets, saved, home, was, l, bits, inputs);
    }

    /** One literal of save_constraint: its bytes become one class and the literal is filed under the
        class root.  Nothing that was filed before becomes unreachable, and classes only grow. */
    method Save(lit: Literal)
      requires Valid()
      modifies this, deps
      ensures Valid() && saved == old(saved) + {lit} && deps.size == old(deps.size) && inputs == old(inputs)
      ensures old(deps.merged) <= deps.merged
      ensures forall x, y :: x in inputs(lit.cmp) && y in inputs(lit.cmp) ==> deps.rep[x] == deps.rep[y]
      ensures inputs(lit.cmp) == [] ==> buckets == old(buckets) && deps.rep == old(deps.rep)
      ensures |inputs(lit.cmp)| == 1 ==>
        && deps.rep == old(deps.rep) && |old(buckets)| == |old(deps.rep)| > inputs(lit.cmp)[0]
        && var b := inputs(lit.cmp)[0]; buckets == old(buckets)[b := old(buckets)[b] + [lit]]
    {
      hide UF.ForestOk, UF.RingsOk, UF.RanksOk, UF.ExactOk, AllFiled, BucketsSound, HomesOk, UF.Join;
      var bits := inputs(lit.cmp);
      assert BitsBelow(bits, deps.size);
      if bits == [] {
        NothingToFile(deps.rep, buckets, saved, inputs, lit);
        saved := saved + {lit};
        return;
      }
      var root := bits[0];
      ghost var n := deps.size;
      for k := 1 to |bits|
        invariant deps.Valid() && deps.size == n && buckets == old(buckets) && saved == old(saved)
        invariant inputs == old(inputs) && HomesOk(deps.rep, buckets, home, inputs)
        invariant AllFiled(deps.rep, buckets, saved, inputs) && BucketsSound(deps.rep, buckets, saved, inputs)
        invariant old(deps.merged) <= deps.merged
        invariant k == 1 ==> root == bits[0] && deps.rep == old(deps.rep)
        invariant root < n && forall j :: 0 <= j < k ==> deps.rep[bits[j]] == deps.rep[root]
      {
        JoinKeepsFiled(deps.rep, buckets, saved, inputs, root, bits[k], deps.rep[root]);
        JoinKeepsFiled(deps.rep, buckets, saved, inputs, root, bits[k], deps.rep[bits[k]]);
        JoinKeepsHomes(deps.rep, buckets, home, inputs, root, bits[k], deps.rep[root]);
        JoinKeepsHomes(deps.rep, buckets, home, inputs, root, bits[k], deps.rep[bits[k]]);
        UF.RootFacts(deps.parent, deps.next, deps.rank, deps.rep, deps.ring, root);
        UF.RootFacts(deps.parent, deps.next, deps.rank, deps.rep, deps.ring, bits[k]);
        ghost var was := deps.rep;
        ghost var old_root := root;
        root := deps.Merge(root, bits[k]);
        MergedTogether(was, old_root, bits, k, root);
      }
      BucketsLength(deps.rep, buckets, saved, inputs);
      FilingKeepsFiled(deps.rep, buckets, saved, inputs, lit, root);
      FilingKeepsHomes(deps.rep, buckets, home, inputs, lit, root);
      buckets := buckets[root := buckets[root] + [lit]];
      saved := saved + {lit};
      home := home[lit.cmp := bits[0]];
    }

    static lemma {:induction false} BucketsLength(rep: seq<nat>, buckets: seq<seq<Literal>>, saved: set<Literal>,
                                                  inputs: nat -> seq<nat>)
      requires BucketsSound(rep, buckets, saved, inputs)
      ensures |buckets| == |rep|
    {
    }

    static lemma {:induction false} NothingToFile(rep: seq<nat>, buckets: seq<seq<Literal>>, saved: set<Literal>,
                                                  inputs: nat -> seq<nat>, lit: Literal)
      requires AllFiled(rep, buckets, saved, inputs) && BucketsSound(rep, buckets, saved, inputs)
      requires inputs(lit.cmp) == []
      ensures AllFiled(rep, buckets, saved + {lit}, inputs) && BucketsSound(rep, buckets, saved + {lit}, inputs)
    {
    }

    static lemma {:induction false} MergedTogether(rep: seq<nat>, root: nat, bits: seq<nat>, k: nat, r: nat)
      requires root < |rep| && k < |bits| && forall j :: 0 <= j <= k ==> bits[j] < |rep|
      requires r < |rep| && (r == rep[root] || r == rep[bits[k]]) && rep[r] == r
      requires forall j :: 0 <= j < k ==> rep[bits[j]] == rep[root]
      ensures forall j :: 0 <= j <= k ==>
        UF.Join(rep, rep[root], rep[bits[k]], r)[bits[j]] == UF.Join(rep, rep[root], rep[bits[k]], r)[r]
    {
    }

    /** After any later merges, the class of any one byte of a saved literal still holds its bucket. */
    lemma {:induction false} StillReachable(lit: Literal, b: nat) returns (i: nat)
      requires Valid() && lit in saved && b in inputs(lit.cmp)
      ensures b < deps.size && i in deps.Class(b) && i < |buckets| && lit in buckets[i]
    {
      assert Filed(deps.rep, buckets, lit, inputs(lit.cmp));
      i :| 0 <= i < |deps.rep| && i < |buckets| && lit in buckets[i]
        && forall c :: c in inputs(lit.cmp) ==> c < |deps.rep| && deps.rep[c] == deps.rep[i];
    }

    /** The labels filed anywhere in the class of byte `b`. */
    ghost function Related(b: nat): set<nat>
      requires Valid() && b < deps.size
      reads this, deps
    {
      LabelsIn(buckets, deps.Class(b))
    }

    /** The related constraints that parse_cond gathers for one literal `l` of a clause, given the labels
        already `inserted`.  get_set clears its output, so only the class of the last byte is searched. */
    method Collect(l: nat, inserted: set<nat>) returns (nested: seq<Literal>)
      requires Valid()
      ensures inputs(l) == [] ==> nested == []
      ensures inputs(l) != [] ==> Labels(nested) == Related(inputs(l)[|inputs(l)| - 1]) - inserted
      ensures forall j, k :: 0 <= j < k < |nested| ==> nested[j].cmp != nested[k].cmp
      ensures forall x :: x in nested ==> x in saved
    {
      hide UF.ForestOk, UF.RingsOk, UF.RanksOk, UF.ExactOk, AllFiled;
      nested := [];
      var bits := inputs(l);
      assert BitsBelow(bits, deps.size);
      if bits == [] { return; }
      var related: set<nat> := {};
      for k := 0 to |bits|
        invariant k > 0 ==> related == deps.Class(bits[k - 1])
      {
        var _, s := deps.GetSet(bits[k], related);
        related := s;
      }
      var seen := inserted;
      var todo := related;
      while todo != {}
        invariant todo <= related
        invariant forall i :: i in related ==> i < |buckets|
        invariant Labels(nested) == LabelsIn(buckets, related - todo) - inserted
        invariant seen == inserted + Labels(nested)
        invariant forall j, k :: 0 <= j < k < |nested| ==> nested[j].cmp != nested[k].cmp
        invariant forall x :: x in nested ==> x in saved
      {
        var input :| input in todo;
        var more := CollectBucket(buckets[input], seen, nested);
        LabelsGrow(buckets, related - todo, input);
        assert (related - todo) + {input} == related - (todo - {input});
        nested, todo := more, todo - {input};
        seen := inserted + (set x | x in nested :: x.cmp);
      }
      assert related - todo == related;
    }

    static lemma {:induction false} LabelsGrow(buckets: seq<seq<Literal>>, within: set<nat>, i: nat)
      requires i < |buckets| && forall j :: j in within ==> j < |buckets|
      ensures LabelsIn(buckets, within + {i}) == LabelsIn(buckets, within) + Labels(buckets[i])
    {
    }

    static method CollectBucket(bucket: seq<Literal>, seen: set<nat>, nested: seq<Literal>) returns (out: seq<Literal>)
      requires Labels(nested) <= seen
      requires forall j, k :: 0 <= j < k < |nested| ==> nested[j].cmp != nested[k].cmp
      ensures Labels(out) == Labels(nested) + (Labels(bucket) - seen)
      ensures forall j, k :: 0 <= j < k < |out| ==> out[j].cmp != out[k].cmp
      ensures forall x :: x in out ==> x in nested || x in bucket
    {
      out := nested;
      var inserted := seen;
      for k := 0 to |bucket|
        invariant inserted == seen + Labels(bucket[..k])
        invariant Labels(out) == Labels(nested) + (Labels(bucket[..k]) - seen)
        invariant forall i, j :: 0 <= i < j < |out| ==> out[i].cmp != out[j].cmp
        invariant forall x :: x in out ==> x in nested || x in bucket
      {
        var nc := bucket[k];
        assert bucket[..k + 1] == bucket[..k] + [nc];
        LabelsAppend(bucket[..k], nc);
        if nc.cmp !in inserted {
          assert forall x :: x in out ==> x.cmp in Labels(out);
          LabelsAppend(out, nc);
          inserted := inserted + {nc.cmp};
          out := out + [nc];
        }
      }
      assert bucket[..|bucket|] == bucket;
    }

    /** A saved label occurs in one class only. */
    lemma {:induction false} OneClassPerLabel(b: nat, c: nat, l: nat)
      requires Valid() && b < deps.size && c < deps.size && l in Related(b) && l in Related(c)
      ensures deps.rep[b] == deps.rep[c]
    {
      var i, x :| i in deps.Class(b) && x in buckets[i] && x.cmp == l;
      var j, y :| j in deps.Class(c) && y in buckets[j] && y.cmp == l;
      assert deps.rep[home[x.cmp]] == deps.rep[i] && deps.rep[home[y.cmp]] == deps.rep[j];
    }

    /** Exactly when the search misses nothing: every class touched by the literal that holds some constraint
        outside `inserted` is the class of the literal's last byte. */
    lemma {:induction false} CollectIsComplete(l: nat, inserted: set<nat>)
      requires Valid() && inputs(l) != []
      ensures
        var last := inputs(l)[|inputs(l)| - 1];
        (forall b :: b in inputs(l) ==> b < deps.size && Related(b) <= (Related(last) - inserted) + inserted)
        <==>
        (forall b :: b in inputs(l) ==> b < deps.size && (Related(b) <= inserted || deps.rep[b] == deps.rep[last]))
    {
      var last := inputs(l)[|inputs(l)| - 1];
      assert BitsBelow(inputs(l), deps.size);
      forall b | b in inputs(l)
        ensures Related(b) <= (Related(last) - inserted) + inserted <==> Related(b) <= inserted || deps.rep[b] == deps.rep[last]
      {
        if deps.rep[b] == deps.rep[last] {
          assert deps.Class(b) == deps.Class(last);
        } else if !(Related(b) <= inserted) {
          var x :| x in Related(b) && x !in inserted;
          if x in Related(last) { OneClassPerLabel(b, last, x); }
        }
      }
    }
  }

  /** A search that misses a constraint: label 1 reads byte 0 and is filed there; label 2 reads bytes 0 and 1, and the
      class of byte 1 holds nothing. */
  method CollectMisses(l: Literal) returns (index: Index, nested: seq<Literal>)
    requires l.cmp == 1
    ensures index.Valid() && index.saved == {l} && index.inputs(2) == [0, 1] && index.deps.size == 2
    ensures index.Related(0) == {1} && nested == []
  {
    hide UF.ForestOk, UF.RingsOk, UF.RanksOk, UF.ExactOk, AllFiled, BucketsSound, LabelsIn, Labels;
    index := new Index(2, (k: nat) => if k == 1 then [0] else if k == 2 then [0, 1] else []);
    ghost var none: seq<seq<Literal>> := [[], []];
    assert index.buckets == none;
    index.Save(l);
    assert none[0] + [l] == [l] && index.buckets == none[0 := [l]] == [[l], []];
    assert index.deps.Class(0) == {0} && index.deps.Class(1) == {1};
    OneFiled(l);
    nested := index.Collect(2, {2});
    if nested != [] { SomeLabel(nested); }
  }

  lemma {:induction false} OneFiled(l: Literal)
    ensures LabelsIn([[l], []], {0}) == {l.cmp} && LabelsIn([[l], []], {1}) == {}
  {
    assert l in [[l], []][0];
  }

  lemma {:induction false} SomeLabel(ls: seq<Literal>)
    requires ls != []
    ensures ls[0].cmp in Labels(ls)
  {
    assert ls[0] in ls;
  }
}
