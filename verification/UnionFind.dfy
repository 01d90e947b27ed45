/** The equivalence closure of a set of pairs, as connectivity along a path.
    This is the reference that the disjoint-set structure is compared with. */
module Closure {

  type Edge = (nat, nat)

  ghost predicate Linked(es: set<Edge>, x: nat, y: nat) {
    x == y || (x, y) in es || (y, x) in es
  }

  ghost predicate IsPath(es: set<Edge>, p: seq<nat>, x: nat, y: nat) {
    && |p| > 0 && p[0] == x && p[|p| - 1] == y
    && forall i :: 0 <= i < |p| - 1 ==> Linked(es, p[i], p[i + 1])
  }

  ghost predicate Connected(es: set<Edge>, x: nat, y: nat) {
    exists p :: IsPath(es, p, x, y)
  }

  lemma {:induction false} Reflexive(es: set<Edge>, x: nat)
    ensures Connected(es, x, x)
  {
    assert IsPath(es, [x], x, x);
  }

  lemma {:induction false} OneStep(es: set<Edge>, x: nat, y: nat)
    requires Linked(es, x, y)
    ensures Connected(es, x, y)
  {
    assert IsPath(es, [x, y], x, y);
  }

  lemma {:induction false} Transitive(es: set<Edge>, x: nat, y: nat, z: nat)
    requires Connected(es, x, y) && Connected(es, y, z)
    ensures Connected(es, x, z)
  {
    var p :| IsPath(es, p, x, y);
    var q :| IsPath(es, q, y, z);
    assert IsPath(es, p + q[1..], x, z);
  }

  lemma {:induction false} Monotone(es: set<Edge>, fs: set<Edge>, x: nat, y: nat)
    requires es <= fs && Connected(es, x, y)
    ensures Connected(fs, x, y)
  {
    var p :| IsPath(es, p, x, y);
    assert IsPath(fs, p, x, y);
  }

  /** With one more pair (a, b), a connection either existed before or goes through that pair. */
  ghost predicate Via(es: set<Edge>, a: nat, b: nat, x: nat, y: nat) {
    || Connected(es, x, y)
    || (Connected(es, x, a) && Connected(es, b, y))
    || (Connected(es, x, b) && Connected(es, a, y))
  }

  lemma {:induction false} PathVia(es: set<Edge>, a: nat, b: nat, p: seq<nat>, x: nat, y: nat)
    requires IsPath(es + {(a, b)}, p, x, y)
    ensures Via(es, a, b, x, y)
    decreases |p|
  {
    if |p| == 1 {
      Reflexive(es, x);
    } else {
      assert IsPath(es + {(a, b)}, p[1..], p[1], y);
      PathVia(es, a, b, p[1..], p[1], y);
      assert Linked(es + {(a, b)}, p[0], p[1]);
      StepVia(es, a, b, x, p[1], y);
    }
  }

  lemma {:induction false} StepVia(es: set<Edge>, a: nat, b: nat, x: nat, m: nat, y: nat)
    requires Linked(es + {(a, b)}, x, m) && Via(es, a, b, m, y)
    ensures Via(es, a, b, x, y)
  {
    Reflexive(es, a);
    Reflexive(es, b);
    if Linked(es, x, m) {
      OneStep(es, x, m);
      if Connected(es, m, y) { Transitive(es, x, m, y); }
      else if Connected(es, m, a) && Connected(es, b, y) { Transitive(es, x, m, a); }
      else { Transitive(es, x, m, b); }
    } else if x == a && m == b {
      if Connected(es, m, y) {}
      else if Connected(es, b, a) && Connected(es, b, y) {}
      else {}
    } else {
      if Connected(es, m, y) {}
      else {}
    }
  }

  /** Exactly which connections a new pair adds. */
  lemma {:induction false} AddPair(es: set<Edge>, a: nat, b: nat, x: nat, y: nat)
    ensures Connected(es + {(a, b)}, x, y) <==> Via(es, a, b, x, y)
  {
    var fs := es + {(a, b)};
    if Connected(fs, x, y) {
      var p :| IsPath(fs, p, x, y);
      PathVia(es, a, b, p, x, y);
    }
    if Via(es, a, b, x, y) {
      OneStep(fs, a, b);
      OneStep(fs, b, a);
      if Connected(es, x, y) {
        Monotone(es, fs, x, y);
      } else if Connected(es, x, a) && Connected(es, b, y) {
        Monotone(es, fs, x, a); Monotone(es, fs, b, y);
        Transitive(fs, x, a, b); Transitive(fs, x, b, y);
      } else {
        Monotone(es, fs, x, b); Monotone(es, fs, a, y);
        Transitive(fs, x, b, a); Transitive(fs, x, a, y);
      }
    }
  }
}

/** include/union_find.h: a disjoint-set forest with union by rank, path splitting in `find`,
    and a circular list of the members of every class. */
module UnionFind {
  import opened Base
  import opened Closure

  const INVALID: nat := 0xFFFF_FFFF_FFFF_FFFF

  ghost predicate Distinct(s: seq<nat>) {
    forall j, k :: 0 <= j < k < |s| ==> s[j] != s[k]
  }

  ghost function Elements(s: seq<nat>): set<nat> {
    set x | x in s
  }

  lemma {:induction false} DistinctCardinality(s: seq<nat>)
    requires Distinct(s)
    ensures |Elements(s)| == |s|
  {
    if s != [] {
      var t := s[..|s| - 1];
      DistinctCardinality(t);
      assert Elements(s) == Elements(t) + {s[|s| - 1]};
      assert s[|s| - 1] !in Elements(t);
    }
  }

  ghost function Identity(x: nat): nat { x }

  /** The numbers below `n`. */
  ghost function Below(n: nat): set<nat> {
    set x: nat {:trigger Identity(x)} | x < n && Identity(x) == x
  }

  lemma {:induction false} BelowCardinality(n: nat)
    ensures |Below(n)| == n
  {
    if n > 0 {
      BelowCardinality(n - 1);
      assert Below(n) == Below(n - 1) + {n - 1};
    } else {
      assert Below(0) == {};
    }
  }

  lemma {:induction false} SubsetCardinality<T>(a: set<T>, b: set<T>)
    requires a <= b
    ensures |a| <= |b|
  {
    var c := b - a;
    assert b == a + c;
  }

  lemma {:induction false} DistinctBelow(s: seq<nat>, n: nat)
    requires Distinct(s) && forall x :: x in s ==> x < n
    ensures |s| <= n
  {
    DistinctCardinality(s);
    BelowCardinality(n);
    SubsetCardinality(Elements(s), Below(n));
  }

  // ---- the four parts of the invariant ----

  /** Every parent chain stays in its class, climbs strictly in rank and ends at the representative. */
  ghost predicate ForestOk(parent: seq<nat>, rank: seq<nat>, rep: seq<nat>) {
    && |parent| == |rank| == |rep|
    && (forall i :: 0 <= i < |rep| ==> rep[i] < |rep| && rank[i] <= rank[rep[i]])
    && (forall i :: 0 <= i < |rep| ==> rep[rep[i]] == rep[i] && parent[rep[i]] == rep[i])
    && (forall i {:trigger parent[i]} :: 0 <= i < |rep| ==> parent[i] < |rep| && rep[parent[i]] == rep[i])
    && (forall i {:trigger parent[i]} :: 0 <= i < |rep| && parent[i] == i ==> rep[i] == i)
    && (forall i {:trigger parent[i]} :: 0 <= i < |rep| && parent[i] != i ==> rank[i] < rank[parent[i]])
  }

  ghost function Succ(s: seq<nat>, k: nat): nat
    requires k < |s|
  {
    if k + 1 < |s| then s[k + 1] else s[0]
  }

  /** `s` lists the class of `r` once each, starting at `r`, in the order of the `next` links. */
  ghost predicate IsRing(next: seq<nat>, rep: seq<nat>, r: nat, s: seq<nat>)
    requires |next| == |rep|
  {
    && |s| > 0 && s[0] == r && Distinct(s)
    && (forall k :: 0 <= k < |s| ==> s[k] < |rep| && rep[s[k]] == r)
    && (forall i :: 0 <= i < |rep| && rep[i] == r ==> i in s)
    && (forall k {:trigger next[s[k]]} :: 0 <= k < |s| ==> next[s[k]] == Succ(s, k))
  }

  ghost predicate RingsOk(next: seq<nat>, rep: seq<nat>, ring: map<nat, seq<nat>>) {
    && |next| == |rep|
    && forall r :: 0 <= r < |rep| && rep[r] == r ==> r in ring && IsRing(next, rep, r, ring[r])
  }

  /** A root of rank k heads a class of at least 2^k members. */
  ghost predicate RanksOk(rank: seq<nat>, rep: seq<nat>, ring: map<nat, seq<nat>>) {
    && |rank| == |rep|
    && forall r :: 0 <= r < |rep| && rep[r] == r ==> r in ring && Pow2(rank[r]) <= |ring[r]|
  }

  /** Two elements share a representative exactly when the merges connect them. */
  ghost predicate ExactOk(rep: seq<nat>, merged: set<Edge>) {
    forall x, y :: 0 <= x < |rep| && 0 <= y < |rep| ==>
      (rep[x] == rep[y] <==> Connected(merged, x, y))
  }

  // ---- what one merge does to each part ----

  /** All members of the classes of `a` and `b` now have representative `r`. */
  ghost function Join(rep: seq<nat>, a: nat, b: nat, r: nat): (out: seq<nat>)
    ensures |out| == |rep|
    ensures forall i :: 0 <= i < |rep| ==> out[i] == if rep[i] == a || rep[i] == b then r else rep[i]
  {
    seq(|rep|, i requires 0 <= i < |rep| => if rep[i] == a || rep[i] == b then r else rep[i])
  }

  /** The list of `keep` spliced with the list of `gone` by exchanging their two `next` links. */
  ghost function Splice(keep: seq<nat>, gone: seq<nat>): seq<nat>
    requires |keep| > 0 && |gone| > 0
  {
    [keep[0]] + gone[1..] + [gone[0]] + keep[1..]
  }

  /** Where each position of a splice comes from. */
  lemma {:induction false} SpliceAt(keep: seq<nat>, gone: seq<nat>, k: nat)
    requires |keep| > 0 && |gone| > 0 && k < |keep| + |gone|
    ensures |Splice(keep, gone)| == |keep| + |gone|
    ensures Splice(keep, gone)[k] ==
      if k == 0 then keep[0] else if k < |gone| then gone[k] else if k == |gone| then gone[0] else keep[k - |gone|]
  {
  }

  lemma {:induction false} SpliceDistinct(keep: seq<nat>, gone: seq<nat>)
    requires |keep| > 0 && |gone| > 0
    requires Distinct(keep) && Distinct(gone) && forall x :: x in keep ==> x !in gone
    ensures Distinct(Splice(keep, gone))
  {
    forall j, k | 0 <= j < k < |keep| + |gone|
      ensures Splice(keep, gone)[j] != Splice(keep, gone)[k]
    {
      SpliceAt(keep, gone, j);
      SpliceAt(keep, gone, k);
      assert Splice(keep, gone)[j] in keep || Splice(keep, gone)[j] in gone;
      assert Splice(keep, gone)[k] in keep || Splice(keep, gone)[k] in gone;
    }
  }

  lemma {:induction false} SpliceMembers(keep: seq<nat>, gone: seq<nat>)
    requires |keep| > 0 && |gone| > 0
    ensures |Splice(keep, gone)| == |keep| + |gone|
    ensures forall x :: x in Splice(keep, gone) <==> x in keep || x in gone
  {
    assert keep == [keep[0]] + keep[1..];
    assert gone == [gone[0]] + gone[1..];
    forall x
      ensures x in Splice(keep, gone) <==> x in keep || x in gone
    {
      assert x in keep <==> x == keep[0] || x in keep[1..];
      assert x in gone <==> x == gone[0] || x in gone[1..];
    }
  }

  /** Exchanging the `next` links of the two list heads makes `next` follow the splice. */
  lemma {:induction false} SpliceLinks(next: seq<nat>, sk: seq<nat>, sg: seq<nat>, k: nat)
    requires |sk| > 0 && |sg| > 0 && Distinct(sk) && Distinct(sg) && forall x :: x in sk ==> x !in sg
    requires forall i :: 0 <= i < |sk| ==> sk[i] < |next| && next[sk[i]] == Succ(sk, i)
    requires forall i :: 0 <= i < |sg| ==> sg[i] < |next| && next[sg[i]] == Succ(sg, i)
    requires k < |sk| + |sg|
    ensures |Splice(sk, sg)| == |sk| + |sg| && Splice(sk, sg)[k] < |next|
    ensures next[sk[0] := next[sg[0]]][sg[0] := next[sk[0]]][Splice(sk, sg)[k]] == Succ(Splice(sk, sg), k)
  {
    SpliceAt(sk, sg, k);
    SpliceAt(sk, sg, 0);
    if k + 1 < |sk| + |sg| { SpliceAt(sk, sg, k + 1); }
    assert sk[0] in sk && sg[0] in sg;
    if 0 < k < |sg| {
      assert next[sg[k]] == Succ(sg, k);
      assert sg[k] in sg && sg[0] != sg[k];
    } else if k > |sg| {
      assert next[sk[k - |sg|]] == Succ(sk, k - |sg|);
      assert sk[k - |sg|] in sk && sk[0] != sk[k - |sg|];
    }
  }

  lemma {:induction false} SpliceIsRing(next: seq<nat>, rep: seq<nat>, keep: nat, gone: nat, sk: seq<nat>, sg: seq<nat>)
    requires |next| == |rep| && keep < |rep| && gone < |rep| && keep != gone
    requires IsRing(next, rep, keep, sk) && IsRing(next, rep, gone, sg)
    ensures IsRing(next[keep := next[gone]][gone := next[keep]], Join(rep, keep, gone, keep), keep, Splice(sk, sg))
  {
    var s := Splice(sk, sg);
    var next' := next[keep := next[gone]][gone := next[keep]];
    var rep' := Join(rep, keep, gone, keep);
    assert forall x :: x in sk ==> x !in sg;
    SpliceMembers(sk, sg);
    SpliceDistinct(sk, sg);
    SpliceAt(sk, sg, 0);
    forall k | 0 <= k < |s|
      ensures s[k] < |rep'| && rep'[s[k]] == keep
    {
      assert s[k] in s;
      assert s[k] in sk || s[k] in sg;
    }
    forall k | 0 <= k < |s|
      ensures next'[s[k]] == Succ(s, k)
    {
      SpliceLinks(next, sk, sg, k);
    }
    forall i | 0 <= i < |rep'| && rep'[i] == keep
      ensures i in s
    {
      assert rep[i] == keep || rep[i] == gone;
    }
  }

  lemma {:induction false} RingFrame(next: seq<nat>, rep: seq<nat>, next': seq<nat>, rep': seq<nat>, r: nat, s: seq<nat>)
    requires |next| == |rep| == |next'| == |rep'|
    requires IsRing(next, rep, r, s)
    requires forall i :: 0 <= i < |rep| && rep[i] == r ==> next'[i] == next[i]
    requires forall i :: 0 <= i < |rep| ==> (rep'[i] == r <==> rep[i] == r)
    ensures IsRing(next', rep', r, s)
  {
  }

  lemma {:induction false} MergeRings(next: seq<nat>, rep: seq<nat>, ring: map<nat, seq<nat>>, keep: nat, gone: nat)
    requires RingsOk(next, rep, ring)
    requires keep < |rep| && gone < |rep| && keep != gone && rep[keep] == keep && rep[gone] == gone
    ensures RingsOk(next[keep := next[gone]][gone := next[keep]], Join(rep, keep, gone, keep),
                    ring[keep := Splice(ring[keep], ring[gone])])
  {
    var next' := next[keep := next[gone]][gone := next[keep]];
    var rep' := Join(rep, keep, gone, keep);
    SpliceIsRing(next, rep, keep, gone, ring[keep], ring[gone]);
    forall r | 0 <= r < |rep'| && rep'[r] == r && r != keep
      ensures r in ring && IsRing(next', rep', r, ring[r])
    {
      RingFrame(next, rep, next', rep', r, ring[r]);
    }
  }

  lemma {:induction false} MergeExact(rep: seq<nat>, merged: set<Edge>, x: nat, y: nat, r: nat)
    requires ExactOk(rep, merged)
    requires x < |rep| && y < |rep| && (r == rep[x] || r == rep[y])
    ensures ExactOk(Join(rep, rep[x], rep[y], r), merged + {(x, y)})
  {
    var rep' := Join(rep, rep[x], rep[y], r);
    forall u, v | 0 <= u < |rep| && 0 <= v < |rep|
      ensures rep'[u] == rep'[v] <==> Connected(merged + {(x, y)}, u, v)
    {
      AddPair(merged, x, y, u, v);
    }
  }

  /** Linking one root below another, raising the kept root's rank to `k` when the ranks were equal. */
  lemma {:induction false} MergeForest(parent: seq<nat>, rank: seq<nat>, rep: seq<nat>, keep: nat, gone: nat, k: nat)
    requires ForestOk(parent, rank, rep)
    requires keep < |rep| && gone < |rep| && keep != gone && rep[keep] == keep && rep[gone] == gone
    requires rank[gone] < k && rank[keep] <= k
    ensures ForestOk(parent[gone := keep], rank[keep := k], Join(rep, keep, gone, keep))
  {
  }

  /** One round of path splitting: the element now skips its old parent. */
  lemma {:induction false} SplitForest(parent: seq<nat>, rank: seq<nat>, rep: seq<nat>, c: nat)
    requires ForestOk(parent, rank, rep) && c < |rep| && parent[c] != c
    ensures parent[c] < |rep| && rank[c] < rank[parent[c]] && rep[parent[c]] == rep[c]
    ensures ForestOk(parent[c := parent[parent[c]]], rank, rep)
  {
    var p := parent[c];
    var gp := parent[p];
    assert rep[gp] == rep[p];
    assert rank[p] <= rank[gp];
    assert gp != c;
  }

  lemma {:induction false} MergeRanks(rank: seq<nat>, rep: seq<nat>, ring: map<nat, seq<nat>>, keep: nat, gone: nat, k: nat)
    requires RanksOk(rank, rep, ring)
    requires keep < |rep| && gone < |rep| && keep != gone && rep[keep] == keep && rep[gone] == gone
    requires k == rank[keep] || k == rank[keep] + 1 == rank[gone] + 1
    ensures RanksOk(rank[keep := k], Join(rep, keep, gone, keep), ring[keep := Splice(ring[keep], ring[gone])])
  {
    SpliceMembers(ring[keep], ring[gone]);
  }

  /** The structural invariants when root `gone` goes below root `keep`, whose rank becomes `k`. */
  ghost predicate Linkable(parent: seq<nat>, next: seq<nat>, rank: seq<nat>, rep: seq<nat>,
                           ring: map<nat, seq<nat>>, keep: nat, gone: nat, k: nat)
    requires |parent| == |next| == |rank| == |rep| && keep < |rep| && gone < |rep|
    requires keep in ring && gone in ring && |ring[keep]| > 0 && |ring[gone]| > 0
  {
    var rep' := Join(rep, keep, gone, keep);
    var ring' := ring[keep := Splice(ring[keep], ring[gone])];
    && ForestOk(parent[gone := keep], rank[keep := k], rep')
    && RingsOk(next[keep := next[gone]][gone := next[keep]], rep', ring')
    && RanksOk(rank[keep := k], rep', ring')
  }

  lemma {:induction false} Link(parent: seq<nat>, next: seq<nat>, rank: seq<nat>, rep: seq<nat>,
             ring: map<nat, seq<nat>>, keep: nat, gone: nat, k: nat)
    requires ForestOk(parent, rank, rep) && RingsOk(next, rep, ring) && RanksOk(rank, rep, ring)
    requires keep < |rep| && gone < |rep| && keep != gone && rep[keep] == keep && rep[gone] == gone
    requires rank[gone] < k && (k == rank[keep] || k == rank[keep] + 1 == rank[gone] + 1)
    ensures Linkable(parent, next, rank, rep, ring, keep, gone, k)
  {
    MergeForest(parent, rank, rep, keep, gone, k);
    MergeRings(next, rep, ring, keep, gone);
    MergeRanks(rank, rep, ring, keep, gone, k);
  }

  lemma {:induction false} JoinSame(rep: seq<nat>, r: nat)
    ensures Join(rep, r, r, r) == rep
  {
  }

  lemma {:induction false} SwapOrder(next: seq<nat>, rep: seq<nat>, rank: seq<nat>, x: nat, y: nat)
    requires x < |next| == |rep| == |rank| && y < |next| && x != y
    ensures next[x := next[y]][y := next[x]] == next[y := next[x]][x := next[y]]
    ensures Join(rep, y, x, y) == Join(rep, x, y, y)
    ensures rank[x := rank[x]] == rank && rank[y := rank[y]] == rank
  {
  }

  /** What the invariants say about one element and its root. */
  lemma {:induction false} RootFacts(parent: seq<nat>, next: seq<nat>, rank: seq<nat>, rep: seq<nat>,
                  ring: map<nat, seq<nat>>, x: nat)
    requires ForestOk(parent, rank, rep) && RingsOk(next, rep, ring) && x < |rep|
    ensures |parent| == |next| == |rank| == |rep| && parent[x] < |rep| && rep[x] < |rep|
    ensures rep[rep[x]] == rep[x] && parent[rep[x]] == rep[x] && rank[x] <= rank[rep[x]]
    ensures rep[parent[x]] == rep[x] && (parent[x] == x ==> rep[x] == x)
    ensures rep[x] in ring && IsRing(next, rep, rep[x], ring[rep[x]]) && |ring[rep[x]]| > 0
  {
  }

  lemma {:induction false} RankBound(next: seq<nat>, rank: seq<nat>, rep: seq<nat>, ring: map<nat, seq<nat>>, r: nat)
    requires RingsOk(next, rep, ring) && RanksOk(rank, rep, ring) && r < |rep| && rep[r] == r
    ensures Pow2(rank[r]) <= |rep|
  {
    DistinctBelow(ring[r], |rep|);
  }

  // ---- walking the circular list ----

  /** The element `k` places after position `at` of the cyclic list `c`. */
  ghost function Around(c: seq<nat>, at: nat, k: nat): nat
    requires at < |c| && k <= |c|
  {
    if at + k < |c| then c[at + k] else c[at + k - |c|]
  }

  /** The first k + 1 elements met when starting at position `at`. */
  ghost function Walked(c: seq<nat>, at: nat, k: nat): set<nat>
    requires at < |c| && k < |c|
  {
    set j {:trigger Around(c, at, j)} | 0 <= j <= k :: Around(c, at, j)
  }

  lemma {:induction false} WalkedSucc(c: seq<nat>, at: nat, k: nat)
    requires at < |c| && k + 1 < |c|
    ensures Walked(c, at, k + 1) == Walked(c, at, k) + {Around(c, at, k + 1)}
  {
  }

  lemma {:induction false} WalkedAll(c: seq<nat>, at: nat)
    requires at < |c|
    ensures Walked(c, at, |c| - 1) == Elements(c)
  {
    forall y | y in c
      ensures y in Walked(c, at, |c| - 1)
    {
      var i :| 0 <= i < |c| && c[i] == y;
      var j := if i >= at then i - at else i + |c| - at;
      assert y == Around(c, at, j);
    }
  }

  lemma {:induction false} AroundNext(next: seq<nat>, rep: seq<nat>, r: nat, c: seq<nat>, at: nat, k: nat)
    requires |next| == |rep| && IsRing(next, rep, r, c) && at < |c| && k < |c|
    ensures Around(c, at, k) < |next| && next[Around(c, at, k)] == Around(c, at, k + 1)
  {
    var i := if at + k < |c| then at + k else at + k - |c|;
    assert next[c[i]] == Succ(c, i);
  }

  /** Following `next` from place k reaches place k + 1, and comes back to the start after |c| steps only. */
  lemma {:induction false} WalkStep(next: seq<nat>, rep: seq<nat>, r: nat, c: seq<nat>, at: nat, k: nat)
    requires |next| == |rep| && IsRing(next, rep, r, c) && at < |c| && k < |c|
    ensures Around(c, at, k) < |next|
    ensures next[Around(c, at, k)] == c[at] <==> k + 1 == |c|
    ensures k + 1 < |c| ==>
      && next[Around(c, at, k)] == Around(c, at, k + 1)
      && Walked(c, at, k + 1) == Walked(c, at, k) + {Around(c, at, k + 1)}
  {
    AroundNext(next, rep, r, c, at, k);
    if k + 1 < |c| { WalkedSucc(c, at, k); }
  }

  lemma {:induction false} WalkEnds(next: seq<nat>, rep: seq<nat>, r: nat, c: seq<nat>, at: nat)
    requires |next| == |rep| && IsRing(next, rep, r, c) && at < |c|
    ensures Around(c, at, 0) == c[at] && Walked(c, at, 0) == {c[at]}
    ensures Walked(c, at, |c| - 1) == set y | 0 <= y < |rep| && rep[y] == r
  {
    WalkedAll(c, at);
    assert Elements(c) == set y | 0 <= y < |rep| && rep[y] == r;
  }

  lemma {:induction false} ClassIsComponent(rep: seq<nat>, merged: set<Edge>, x: nat)
    requires ExactOk(rep, merged) && x < |rep|
    ensures (set y | 0 <= y < |rep| && rep[y] == rep[x]) == set y | 0 <= y < |rep| && Connected(merged, x, y)
  {
  }

  class UnionFind {
    var size: nat
    var parent: seq<nat>
    var next: seq<nat>
    var rank: seq<nat>
    ghost var rep: seq<nat>              // the root of every element
    ghost var ring: map<nat, seq<nat>>   // for every root, its class in `next` order
    ghost var merged: set<Edge>          // every pair merged since the last reset

    ghost predicate Valid()
      reads this
    {
      && size <= INVALID
      && |rep| == size
      && ForestOk(parent, rank, rep)
      && RingsOk(next, rep, ring)
      && RanksOk(rank, rep, ring)
      && ExactOk(rep, merged)
    }

    /** The members of the class of `x`. */
    ghost function Class(x: nat): set<nat>
      reads this
      requires x < |rep|
    {
      set y | 0 <= y < |rep| && rep[y] == rep[x]
    }

    constructor (n: nat)
      requires n <= INVALID
      ensures Valid() && size == n && merged == {} && forall i :: 0 <= i < n ==> rep[i] == i
    {
      size, parent, next, rank := 0, [], [], [];
      rep, ring, merged := [], map[], {};
      new;
      Reset(n);
    }

    /** Afterwards every element is alone in its class. */
    method Reset(n: nat)
      requires n <= INVALID
      modifies this
      ensures Valid() && size == n && merged == {}
      ensures forall i :: 0 <= i < n ==> rep[i] == i && next[i] == i && rank[i] == 0
    {
      hide ForestOk, RingsOk, RanksOk, ExactOk;
      size := n;
      parent := seq(n, _ => 0);
      next := seq(n, _ => 0);
      rank := seq(n, _ => 0);
      for i := 0 to n
        invariant size == n && |parent| == |next| == |rank| == n
        invariant forall j :: 0 <= j < i ==> parent[j] == j && next[j] == j && rank[j] == 0
      {
        parent := parent[i := i];
        next := next[i := i];
        rank := rank[i := 0];
      }
      rep := seq(n, i => i);
      ring := map i | 0 <= i < n :: [i];
      merged := {};
      Singletons(parent, next, rank, rep, ring);
      AllApart(rep);
    }

    static lemma {:induction false} Singletons(parent: seq<nat>, next: seq<nat>, rank: seq<nat>, rep: seq<nat>,
                                               ring: map<nat, seq<nat>>)
      requires |parent| == |next| == |rank| == |rep|
      requires forall i :: 0 <= i < |rep| ==> parent[i] == next[i] == rep[i] == i && rank[i] == 0
      requires ring == map i | 0 <= i < |rep| :: [i]
      ensures ForestOk(parent, rank, rep) && RingsOk(next, rep, ring) && RanksOk(rank, rep, ring)
    {
      assert Pow2(0) == 1;
    }

    static lemma {:induction false} AllApart(rep: seq<nat>)
      requires forall i :: 0 <= i < |rep| ==> rep[i] == i
      ensures ExactOk(rep, {})
    {
      forall x, y | 0 <= x < |rep| && 0 <= y < |rep|
        ensures rep[x] == rep[y] <==> Connected({}, x, y)
      {
        Reflexive({}, x);
        if Connected({}, x, y) {
          var p :| IsPath({}, p, x, y);
          EmptyPath(p, x, y);
        }
      }
    }

    static lemma {:induction false} EmptyPath(p: seq<nat>, x: nat, y: nat)
      requires IsPath({}, p, x, y)
      ensures x == y
      decreases |p|
    {
      if |p| > 1 {
        assert Linked({}, p[0], p[1]);
        EmptyPath(p[1..], p[1], y);
      }
    }

    /** Returns the root; path splitting moves parents but changes no class.
        `steps` counts the loop's rounds: there are at most log2(size) of them. */
    method Find(x: nat) returns (r: nat, ghost steps: nat)
      requires Valid()
      modifies this`parent
      ensures Valid()
      ensures x >= size ==> r == INVALID && parent == old(parent)
      ensures x < size ==> r == rep[x] && r < size && parent[r] == r
      ensures x < size ==> steps <= rank[r] && Pow2(steps) <= size
    {
      hide ForestOk, RingsOk, RanksOk, ExactOk, IsRing;
      steps := 0;
      if x >= size {
        return INVALID, 0;
      }
      RootFacts(parent, next, rank, rep, ring, x);
      var c := x;
      var p := parent[c];
      while c != p
        invariant |parent| == size && ForestOk(parent, rank, rep)
        invariant c < size && p == parent[c] && rep[c] == rep[x]
        invariant rank[c] <= rank[rep[x]]
        invariant steps + rank[x] <= rank[c]
        decreases rank[rep[x]] - rank[c]
      {
        SplitForest(parent, rank, rep, c);
        RootFacts(parent, next, rank, rep, ring, p);
        var gp := parent[p];
        parent := parent[c := gp];
        c := p;
        p := gp;
        steps := steps + 1;
      }
      r := c;
      RootFacts(parent, next, rank, rep, ring, c);
      RankBound(next, rank, rep, ring, r);
      Pow2Monotone(steps, rank[r]);
    }

    /** Joins the two classes and nothing else; the root that stays is returned. */
    method Merge(x: nat, y: nat) returns (r: nat)
      requires Valid()
      modifies this
      ensures Valid() && size == old(size)
      ensures x >= size || y >= size ==>
        r == INVALID && parent == old(parent) && next == old(next) && rank == old(rank)
        && rep == old(rep) && merged == old(merged)
      ensures x < size && y < size ==>
        && r < size && (r == old(rep)[x] || r == old(rep)[y])
        && rep == Join(old(rep), old(rep)[x], old(rep)[y], r)
        && merged == old(merged) + {(x, y)}
    {
      hide ForestOk, RingsOk, RanksOk, ExactOk, IsRing, Join;
      if x >= size { return INVALID; }
      if y >= size { return INVALID; }
      var xRoot, _ := Find(x);
      var yRoot, _ := Find(y);
      RootFacts(parent, next, rank, rep, ring, x);
      RootFacts(parent, next, rank, rep, ring, y);
      MergeExact(rep, merged, x, y, xRoot);
      MergeExact(rep, merged, x, y, yRoot);
      merged := merged + {(x, y)};
      if xRoot == yRoot {
        JoinSame(rep, xRoot);
        return xRoot;
      }
      r := LinkRoots(xRoot, yRoot);
    }

    /** The part of `merge` that runs once the two roots differ. */
    method LinkRoots(xRoot: nat, yRoot: nat) returns (r: nat)
      requires size <= INVALID && |rep| == size
      requires ForestOk(parent, rank, rep) && RingsOk(next, rep, ring) && RanksOk(rank, rep, ring)
      requires xRoot < size && yRoot < size && xRoot != yRoot && rep[xRoot] == xRoot && rep[yRoot] == yRoot
      modifies this`parent, this`next, this`rank, this`rep, this`ring
      ensures |rep| == size && (r == xRoot || r == yRoot) && rep == Join(old(rep), xRoot, yRoot, r)
      ensures ForestOk(parent, rank, rep) && RingsOk(next, rep, ring) && RanksOk(rank, rep, ring)
    {
      hide ForestOk, RingsOk, RanksOk, IsRing, Join;
      RootFacts(parent, next, rank, rep, ring, xRoot);
      RootFacts(parent, next, rank, rep, ring, yRoot);
      SwapOrder(next, rep, rank, xRoot, yRoot);
      ghost var keep, gone, k := xRoot, yRoot, rank[xRoot];
      if rank[xRoot] < rank[yRoot] {
        keep, gone, k := yRoot, xRoot, rank[yRoot];
      } else if rank[xRoot] == rank[yRoot] {
        k := rank[xRoot] + 1;
      }
      Link(parent, next, rank, rep, ring, keep, gone, k);

      var xNext := next[xRoot];
      next := next[xRoot := next[yRoot]];
      next := next[yRoot := xNext];
      rep := Join(rep, xRoot, yRoot, keep);
      ring := ring[keep := Splice(ring[keep], ring[gone])];
      if rank[xRoot] < rank[yRoot] {
        parent := parent[xRoot := yRoot];
        r := yRoot;
      } else if rank[xRoot] > rank[yRoot] {
        parent := parent[yRoot := xRoot];
        r := xRoot;
      } else {
        parent := parent[yRoot := xRoot];
        rank := rank[xRoot := rank[xRoot] + 1];
        r := xRoot;
      }
    }

    /** Walks the circular list: the set found is exactly the class of `x`.
        The output set is cleared first, so what it held before is lost. */
    method GetSet(x: nat, was: set<nat>) returns (n: nat, s: set<nat>)
      requires Valid()
      ensures x >= size ==> n == INVALID && s == was
      ensures x < size ==> s == Class(x) && n == |Class(x)|
      ensures x < size ==> s == set y | 0 <= y < size && Connected(merged, x, y)
    {
      hide ForestOk, RingsOk, RanksOk, ExactOk;
      if x >= size {
        return INVALID, was;
      }
      RootFacts(parent, next, rank, rep, ring, x);
      ghost var c := ring[rep[x]];
      ghost var at: nat :| at < |c| && c[at] == x;
      ghost var k := 0;                       // how far past x the walk is
      hide IsRing;
      WalkEnds(next, rep, rep[x], c, at);
      WalkStep(next, rep, rep[x], c, at, 0);
      var temp := x;
      s := {};
      s := s + {temp};
      while next[temp] != x
        invariant 0 <= k < |c|
        invariant temp == Around(c, at, k)
        invariant s == Walked(c, at, k)
        invariant temp < size && (next[temp] == x <==> k + 1 == |c|)
        decreases |c| - k
      {
        WalkStep(next, rep, rep[x], c, at, k);
        temp := next[temp];
        k := k + 1;
        s := s + {temp};
        WalkStep(next, rep, rep[x], c, at, k);
      }
      n := |s|;
      ClassIsComponent(rep, merged, x);
    }
  }

}
