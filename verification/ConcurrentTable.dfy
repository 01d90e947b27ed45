/** runtime/dfsan/union_hashtable.cpp and taint_allocator.cpp under concurrency: any number of threads push entries with
    compare and exchange and walk the buckets, one atomic step at a time and in any order. */
module ConcurrentTable {
  import opened Base
  import opened Labels

  /** The size of a union_hashtable_entry. */
  const ENTRY_SIZE: nat := 24

  /** An entry of a bucket; 0 is the null pointer. */
  datatype Node = Node(key: LabelInfo, entry: nat, next: nat)

  datatype Thread =
    | Idle
    | Fresh(node: nat)                                                       // entry allocated and filled in
    | Seen(node: nat, head: nat, count: nat)                                 // bucket head read
    | Linked(node: nat, head: nat, count: nat)                               // next written, about to exchange
    | Walking(key: LabelInfo, at: nat, start: seq<nat>)                      // looking at the entry `at`
    | Answered(key: LabelInfo, result: Option<nat>, start: seq<nat>)         // lookup has returned

  datatype Call = Insert(key: LabelInfo, entry: nat) | Lookup(key: LabelInfo)

  datatype Block = Block(at: nat, size: nat)

  /** `chains`, `blocks`, the `count` of an insert and the `start` of a lookup are auxiliary: no step looks at them.
      They record the entries published in each bucket, latest first, the allocations made, how many entries the bucket
      had when its head was read, and the bucket a lookup began with. */
  datatype State = State(
    heads: seq<nat>, nodes: map<nat, Node>, top: nat, threads: seq<Thread>,
    chains: seq<seq<nat>>, blocks: seq<Block>)

  /** The bucket of a key and the first unusable byte. */
  datatype Config = Config(hash: LabelInfo -> nat, end: nat)

  function Bucket(c: Config, s: State, key: LabelInfo): nat
    requires |s.heads| > 0
  {
    c.hash(key) % |s.heads|
  }

  /** The next atomic step of thread `t`; a thread that is in no call begins `call`.  None: the allocator died. */
  function Step(c: Config, s: State, t: nat, call: Call): Option<State>
    requires Sane(s) && t < |s.threads|
  {
    match s.threads[t]
    case Idle => Begin(c, s, t, call)
    case Answered(_, _, _) => Begin(c, s, t, call)
    case Fresh(n) => Some(s.(threads := s.threads[t := HeadOf(c, s, n)]))
    case Seen(n, p, k) =>
      Some(s.(nodes := s.nodes[n := s.nodes[n].(next := p)], threads := s.threads[t := Linked(n, p, k)]))
    case Linked(n, p, _) =>
      var b := Bucket(c, s, s.nodes[n].key);
      if s.heads[b] == p then
        Some(s.(heads := s.heads[b := n], chains := s.chains[b := [n] + s.chains[b]], threads := s.threads[t := Idle]))
      else Some(s.(threads := s.threads[t := HeadOf(c, s, n)]))
    case Walking(key, at, start) =>
      if at == 0 then Some(s.(threads := s.threads[t := Answered(key, None, start)]))
      else if s.nodes[at].key == key then
        Some(s.(threads := s.threads[t := Answered(key, Some(s.nodes[at].entry), start)]))
      else Some(s.(threads := s.threads[t := Walking(key, s.nodes[at].next, start)]))
  }

  /** The head of the entry's bucket, as a thread reads it. */
  function HeadOf(c: Config, s: State, n: nat): Thread
    requires Sane(s) && n in s.nodes
  {
    var b := Bucket(c, s, s.nodes[n].key);
    Seen(n, s.heads[b], |s.chains[b]|)
  }

  function Begin(c: Config, s: State, t: nat, call: Call): Option<State>
    requires Sane(s) && t < |s.threads|
  {
    match call
    case Insert(key, entry) =>
      var at := s.top;
      if at + ENTRY_SIZE >= c.end then None
      else
        Some(s.(nodes := s.nodes[at := Node(key, entry, 0)], top := at + ENTRY_SIZE,
                threads := s.threads[t := Fresh(at)], blocks := s.blocks + [Block(at, ENTRY_SIZE)]))
    case Lookup(key) =>
      var b := Bucket(c, s, key);
      Some(s.(threads := s.threads[t := Walking(key, s.heads[b], s.chains[b])]))
  }

  predicate Owns(th: Thread, n: nat) {
    (th.Fresh? || th.Seen? || th.Linked?) && th.node == n
  }

  /** Pointers are good. */
  predicate Sane(s: State) {
    && |s.heads| > 0 && |s.chains| == |s.heads|
    && forall t :: 0 <= t < |s.threads| ==> SaneThread(s.nodes, s.threads[t])
  }

  predicate SaneThread(nodes: map<nat, Node>, th: Thread) {
    && (th.Fresh? || th.Seen? || th.Linked? ==> th.node in nodes)
    && (th.Walking? ==> th.at == 0 || th.at in nodes)
  }

  // ---- what every interleaving keeps ----

  /** Following next from `head` visits exactly `list` and then ends. */
  ghost predicate IsChain(nodes: map<nat, Node>, head: nat, list: seq<nat>)
    decreases |list|
  {
    if list == [] then head == 0
    else head == list[0] && head != 0 && head in nodes && IsChain(nodes, nodes[head].next, list[1..])
  }

  /** The entry of the first node with the key. */
  function FirstMatch(nodes: map<nat, Node>, list: seq<nat>, key: LabelInfo): Option<nat>
    decreases |list|
  {
    if list == [] || list[0] !in nodes then None
    else if nodes[list[0]].key == key then Some(nodes[list[0]].entry)
    else FirstMatch(nodes, list[1..], key)
  }

  ghost predicate NoRepeats(list: seq<nat>) {
    forall i, j :: 0 <= i < j < |list| ==> list[i] != list[j]
  }

  ghost predicate BucketOk(c: Config, s: State, b: nat)
    requires b < |s.heads| == |s.chains|
  {
    && IsChain(s.nodes, s.heads[b], s.chains[b]) && NoRepeats(s.chains[b])
    && forall n :: n in s.chains[b] ==> n in s.nodes && Bucket(c, s, s.nodes[n].key) == b
  }

  ghost predicate IsSuffix(list: seq<nat>, of: seq<nat>) {
    |list| <= |of| && of[|of| - |list|..] == list
  }

  /** A lookup has passed `k` entries of the bucket it began with. */
  ghost predicate Passed(nodes: map<nat, Node>, key: LabelInfo, at: nat, start: seq<nat>, k: nat) {
    && k <= |start| && IsChain(nodes, at, start[k..])
    && FirstMatch(nodes, start, key) == FirstMatch(nodes, start[k..], key)
  }

  ghost predicate ThreadOk(c: Config, s: State, th: Thread)
    requires |s.heads| == |s.chains| > 0
  {
    match th
    case Idle => true
    case Fresh(n) => IsPrivate(s, n)
    case Seen(n, p, k) => IsPrivate(s, n) && WasHead(c, s, n, p, k)
    case Linked(n, p, k) => IsPrivate(s, n) && s.nodes[n].next == p && WasHead(c, s, n, p, k)
    case Walking(key, at, start) =>
      IsSuffix(start, s.chains[Bucket(c, s, key)]) && exists k :: Passed(s.nodes, key, at, start, k)
    case Answered(key, result, start) =>
      IsSuffix(start, s.chains[Bucket(c, s, key)]) && result == FirstMatch(s.nodes, start, key)
  }

  /** `p` was the head when the bucket had `k` entries, and is as long as it has no more. */
  ghost predicate WasHead(c: Config, s: State, n: nat, p: nat, k: nat)
    requires |s.heads| == |s.chains| > 0 && n in s.nodes
  {
    var b := Bucket(c, s, s.nodes[n].key);
    k <= |s.chains[b]| && (k == |s.chains[b]| ==> p == s.heads[b])
  }

  ghost predicate IsPrivate(s: State, n: nat) {
    n in s.nodes && n != 0 && forall b :: 0 <= b < |s.chains| ==> n !in s.chains[b]
  }

  ghost predicate BlocksOk(c: Config, s: State) {
    && 0 < s.top && (|s.blocks| > 0 ==> s.top < c.end)
    && (forall i :: 0 <= i < |s.blocks| ==> 0 < s.blocks[i].at && s.blocks[i].at + s.blocks[i].size <= s.top)
    && (forall i, j :: 0 <= i < j < |s.blocks| ==> s.blocks[i].at + s.blocks[i].size <= s.blocks[j].at)
    && (forall n :: n in s.nodes ==> 0 < n < s.top && Block(n, ENTRY_SIZE) in s.blocks)
  }

  ghost predicate Inv(c: Config, s: State) {
    && Sane(s) && BlocksOk(c, s)
    && (forall b :: 0 <= b < |s.heads| ==> BucketOk(c, s, b))
    && (forall t :: 0 <= t < |s.threads| ==> ThreadOk(c, s, s.threads[t]))
    && (forall t, u, n :: 0 <= t < u < |s.threads| && Owns(s.threads[t], n) ==> !Owns(s.threads[u], n))
  }

  /** Nothing published is lost or changed. */
  ghost predicate Extends(s: State, later: State) {
    && |later.heads| == |s.heads| == |later.chains| == |s.chains| && |later.threads| == |s.threads|
    && (forall b :: 0 <= b < |s.chains| ==> IsSuffix(s.chains[b], later.chains[b]))
    && (forall b, n :: 0 <= b < |s.chains| && n in s.chains[b] ==>
          n in s.nodes && n in later.nodes && later.nodes[n] == s.nodes[n])
  }

  /** A head changes only when its bucket grows. */
  ghost predicate HeadsFollow(s: State, later: State) {
    && |later.heads| == |s.heads| == |later.chains| == |s.chains|
    && forall b :: 0 <= b < |s.chains| ==>
         |s.chains[b]| <= |later.chains[b]| && (|later.chains[b]| == |s.chains[b]| ==> later.heads[b] == s.heads[b])
  }

  // ---- one step ----

  lemma {:induction false} ChainFrame(nodes: map<nat, Node>, later: map<nat, Node>, head: nat, list: seq<nat>, key: LabelInfo)
    requires IsChain(nodes, head, list)
    requires forall n :: n in list ==> n in nodes && n in later && later[n] == nodes[n]
    ensures IsChain(later, head, list) && FirstMatch(later, list, key) == FirstMatch(nodes, list, key)
    decreases |list|
  {
    if list != [] {
      assert list[0] in list;
      assert forall n :: n in list[1..] ==> n in list;
      ChainFrame(nodes, later, nodes[head].next, list[1..], key);
    }
  }

  lemma {:induction false} MatchFrame(nodes: map<nat, Node>, later: map<nat, Node>, list: seq<nat>, key: LabelInfo)
    requires forall n :: n in list ==> n in nodes && n in later && later[n] == nodes[n]
    ensures FirstMatch(later, list, key) == FirstMatch(nodes, list, key)
    decreases |list|
  {
    if list != [] {
      assert list[0] in list;
      assert forall n :: n in list[1..] ==> n in list;
      MatchFrame(nodes, later, list[1..], key);
    }
  }

  lemma {:induction false} SuffixOf(a: seq<nat>, b: seq<nat>, c: seq<nat>)
    requires IsSuffix(a, b) && IsSuffix(b, c)
    ensures IsSuffix(a, c)
  {
    assert c[|c| - |a|..] == c[|c| - |b|..][|b| - |a|..];
  }

  lemma {:induction false} SuffixIn(list: seq<nat>, of: seq<nat>)
    requires IsSuffix(list, of)
    ensures forall n :: n in list ==> n in of
  {
    forall n | n in list ensures n in of {
      var i :| 0 <= i < |list| && list[i] == n;
      assert of[|of| - |list| + i] == n;
    }
  }

  /** Steps that leave published entries and bucket `b` alone keep it in order. */
  lemma {:induction false} BucketFrame(c: Config, s: State, later: State, b: nat)
    requires b < |s.heads| == |s.chains| && |later.heads| == |s.heads| == |later.chains| && BucketOk(c, s, b)
    requires later.heads[b] == s.heads[b] && later.chains[b] == s.chains[b]
    requires forall n :: n in s.chains[b] && n in s.nodes ==> n in later.nodes && later.nodes[n] == s.nodes[n]
    ensures BucketOk(c, later, b)
  {
    ChainFrame(s.nodes, later.nodes, s.heads[b], s.chains[b], LabelInfo(0, 0, 0, 0, Input, 0));
  }

  /** Lookups do not notice what later steps do. */
  lemma {:induction false} WalkFrame(nodes: map<nat, Node>, later: map<nat, Node>, key: LabelInfo, at: nat,
                                     start: seq<nat>, k: nat)
    requires forall n :: n in start ==> n in nodes && n in later && later[n] == nodes[n]
    requires Passed(nodes, key, at, start, k)
    ensures Passed(later, key, at, start, k)
  {
    assert forall n :: n in start[k..] ==> n in start;
    MatchFrame(nodes, later, start, key);
    ChainFrame(nodes, later, at, start[k..], key);
  }

  lemma {:induction false} StartFrame(c: Config, s: State, later: State, key: LabelInfo, start: seq<nat>)
    requires |s.heads| > 0 && Extends(s, later) && IsSuffix(start, s.chains[Bucket(c, s, key)])
    ensures IsSuffix(start, later.chains[Bucket(c, later, key)])
    ensures forall n :: n in start ==> n in s.nodes && n in later.nodes && later.nodes[n] == s.nodes[n]
  {
    var b := Bucket(c, s, key);
    assert IsSuffix(s.chains[b], later.chains[b]);
    SuffixOf(start, s.chains[b], later.chains[b]);
    SuffixIn(start, s.chains[b]);
    hide IsSuffix;
  }

  /** A thread that does not own the entry written does not notice. */
  lemma {:induction false} ThreadFrame(c: Config, s: State, later: State, th: Thread)
    requires |s.heads| == |s.chains| > 0 && Extends(s, later) && HeadsFollow(s, later) && ThreadOk(c, s, th)
    requires (th.Fresh? || th.Seen? || th.Linked?) ==>
      IsPrivate(later, th.node) && th.node in s.nodes && later.nodes[th.node] == s.nodes[th.node]
    ensures ThreadOk(c, later, th)
  {
    hide Extends, IsSuffix, Passed, IsPrivate, FirstMatch;
    ExtendsSizes(s, later);
    if th.Walking? {
      StartFrame(c, s, later, th.key, th.start);
      var k: nat :| Passed(s.nodes, th.key, th.at, th.start, k);
      WalkFrame(s.nodes, later.nodes, th.key, th.at, th.start, k);
    } else if th.Answered? {
      StartFrame(c, s, later, th.key, th.start);
      MatchFrame(s.nodes, later.nodes, th.start, th.key);
    }
  }

  lemma {:induction false} ExtendsSizes(s: State, later: State)
    requires Extends(s, later)
    ensures |later.heads| == |s.heads| == |later.chains| == |s.chains|
  {
  }

  lemma {:induction false} ExtendsSelf(c: Config, s: State)
    requires |s.heads| == |s.chains| && forall b :: 0 <= b < |s.heads| ==> BucketOk(c, s, b)
    ensures Extends(s, s)
  {
    forall b, n | 0 <= b < |s.chains| && n in s.chains[b] ensures n in s.nodes { assert BucketOk(c, s, b); }
  }

  /** A step that only moves thread `t` on. */
  lemma {:induction false} MoveKeeps(c: Config, s: State, t: nat, th: Thread)
    requires Inv(c, s) && t < |s.threads| && ThreadOk(c, s, th) && SaneThread(s.nodes, th)
    requires forall n :: Owns(th, n) ==> Owns(s.threads[t], n)
    ensures var later := s.(threads := s.threads[t := th]); Inv(c, later) && Extends(s, later)
  {
    var later := s.(threads := s.threads[t := th]);
    ExtendsSelf(c, s);
    forall b | 0 <= b < |s.heads| ensures BucketOk(c, later, b) { BucketFrame(c, s, later, b); }
    forall u | 0 <= u < |later.threads|
      ensures ThreadOk(c, later, later.threads[u]) && SaneThread(later.nodes, later.threads[u])
    {
      if u != t { assert ThreadOk(c, s, s.threads[u]) && SaneThread(s.nodes, s.threads[u]); }
      ThreadFrame(c, s, later, later.threads[u]);
    }
    forall u, v, n | 0 <= u < v < |later.threads| && Owns(later.threads[u], n) ensures !Owns(later.threads[v], n) {
      assert Owns(s.threads[u], n);
    }
  }

  /** A step that writes an unpublished entry `m` which no other thread owns. */
  lemma {:induction false} WriteKeeps(c: Config, s: State, later: State, t: nat, m: nat)
    requires Inv(c, s) && t < |s.threads| == |later.threads| && BlocksOk(c, later)
    requires later.heads == s.heads && later.chains == s.chains
    requires m in later.nodes && later.nodes == s.nodes[m := later.nodes[m]] && IsPrivate(later, m)
    requires later.threads == s.threads[t := later.threads[t]] && ThreadOk(c, later, later.threads[t])
    requires forall n :: Owns(later.threads[t], n) ==> n == m
    requires !later.threads[t].Walking?
    requires forall u :: 0 <= u < |s.threads| && u != t ==> !Owns(s.threads[u], m)
    ensures Inv(c, later) && Extends(s, later)
  {
    forall b | 0 <= b < |s.heads| ensures BucketOk(c, later, b) && IsSuffix(s.chains[b], later.chains[b]) {
      assert BucketOk(c, s, b);
      BucketFrame(c, s, later, b);
    }
    forall b, n | 0 <= b < |s.chains| && n in s.chains[b] ensures n in s.nodes && later.nodes[n] == s.nodes[n] {
      assert BucketOk(c, s, b);
    }
    forall u | 0 <= u < |later.threads|
      ensures ThreadOk(c, later, later.threads[u]) && SaneThread(later.nodes, later.threads[u])
    {
      if u != t {
        var th := s.threads[u];
        assert ThreadOk(c, s, th) && SaneThread(s.nodes, th) && !Owns(th, m);
        ThreadFrame(c, s, later, th);
      }
    }
    forall u, v, n | 0 <= u < v < |later.threads| && Owns(later.threads[u], n) ensures !Owns(later.threads[v], n) {
      if u != t && v != t { assert Owns(s.threads[u], n); }
    }
  }

  /** The exchange that publishes entry `n`. */
  lemma {:induction false} PushKeeps(c: Config, s: State, t: nat)
    requires Inv(c, s) && t < |s.threads| && s.threads[t].Linked?
    requires s.heads[Bucket(c, s, s.nodes[s.threads[t].node].key)] == s.threads[t].head
    ensures
      var n := s.threads[t].node;
      var b := Bucket(c, s, s.nodes[n].key);
      var later := s.(heads := s.heads[b := n], chains := s.chains[b := [n] + s.chains[b]], threads := s.threads[t := Idle]);
      Inv(c, later) && Extends(s, later)
  {
    var n := s.threads[t].node;
    var b := Bucket(c, s, s.nodes[n].key);
    var later := s.(heads := s.heads[b := n], chains := s.chains[b := [n] + s.chains[b]], threads := s.threads[t := Idle]);
    assert ThreadOk(c, s, s.threads[t]);
    Pushed(c, s, later, b, n);
    forall u | 0 <= u < |later.threads|
      ensures ThreadOk(c, later, later.threads[u]) && SaneThread(later.nodes, later.threads[u])
    {
      if u != t {
        var th := s.threads[u];
        assert ThreadOk(c, s, th) && SaneThread(s.nodes, th);
        assert Owns(s.threads[t], n);
        assert !Owns(th, n);
        ThreadFrame(c, s, later, th);
      }
    }
    forall u, v, m | 0 <= u < v < |later.threads| && Owns(later.threads[u], m) ensures !Owns(later.threads[v], m) {
      assert Owns(s.threads[u], m);
    }
  }

  lemma {:induction false} Pushed(c: Config, s: State, later: State, b: nat, n: nat)
    requires |s.heads| == |s.chains| && b < |s.heads| && forall k :: 0 <= k < |s.heads| ==> BucketOk(c, s, k)
    requires IsPrivate(s, n) && s.nodes[n].next == s.heads[b] && Bucket(c, s, s.nodes[n].key) == b
    requires later.nodes == s.nodes && later.heads == s.heads[b := n] && later.chains == s.chains[b := [n] + s.chains[b]]
    requires |later.threads| == |s.threads|
    ensures forall k :: 0 <= k < |later.heads| ==> BucketOk(c, later, k)
    ensures Extends(s, later)
  {
    assert ([n] + s.chains[b])[1..] == s.chains[b];
    forall k | 0 <= k < |later.heads| ensures BucketOk(c, later, k) && IsSuffix(s.chains[k], later.chains[k]) {
      assert BucketOk(c, s, k);
      if k != b { BucketFrame(c, s, later, k); }
    }
    forall k, m | 0 <= k < |s.chains| && m in s.chains[k] ensures m in s.nodes { assert BucketOk(c, s, k); }
  }

  /** The next entry of a walk. */
  lemma {:induction false} WalkStep(nodes: map<nat, Node>, key: LabelInfo, at: nat, start: seq<nat>, k: nat)
    requires Passed(nodes, key, at, start, k)
    ensures at == 0 ==> FirstMatch(nodes, start, key) == None
    ensures at != 0 ==> at in nodes && at in start
    ensures at != 0 && nodes[at].key == key ==> FirstMatch(nodes, start, key) == Some(nodes[at].entry)
    ensures at != 0 && nodes[at].key != key ==> Passed(nodes, key, nodes[at].next, start, k + 1)
  {
    var rest := start[k..];
    if rest != [] {
      assert rest[1..] == start[k + 1..];
      assert start[k] == at;
    }
  }

  lemma {:induction false} BeginKeeps(c: Config, s: State, t: nat, call: Call)
    requires Inv(c, s) && t < |s.threads| && Begin(c, s, t, call).Some?
    requires s.threads[t].Idle? || s.threads[t].Answered?
    ensures Inv(c, Begin(c, s, t, call).value) && Extends(s, Begin(c, s, t, call).value)
  {
    var later := Begin(c, s, t, call).value;
    match call
    case Lookup(key) =>
      var b := Bucket(c, s, key);
      assert BucketOk(c, s, b);
      assert s.chains[b][0..] == s.chains[b];
      assert Passed(s.nodes, key, s.heads[b], s.chains[b], 0);
      MoveKeeps(c, s, t, Walking(key, s.heads[b], s.chains[b]));
    case Insert(key, entry) =>
      var at := s.top;
      Allocated(c, s, later);
      forall b | 0 <= b < |s.chains| ensures at !in s.chains[b] { assert BucketOk(c, s, b); }
      forall u | 0 <= u < |s.threads| && u != t ensures !Owns(s.threads[u], at) {
        assert SaneThread(s.nodes, s.threads[u]);
      }
      WriteKeeps(c, s, later, t, at);
  }

  /** Allocations never overlap and never pass the end. */
  lemma {:induction false} Allocated(c: Config, s: State, later: State)
    requires BlocksOk(c, s) && s.top + ENTRY_SIZE < c.end && later.top == s.top + ENTRY_SIZE
    requires later.blocks == s.blocks + [Block(s.top, ENTRY_SIZE)] && later.nodes.Keys == s.nodes.Keys + {s.top}
    ensures BlocksOk(c, later)
  {
    forall n | n in later.nodes ensures 0 < n < later.top && Block(n, ENTRY_SIZE) in later.blocks {
      if n in s.nodes {
        assert Block(n, ENTRY_SIZE) in s.blocks;
      } else {
        assert n in later.nodes.Keys;
        assert later.blocks[|s.blocks|] == Block(n, ENTRY_SIZE);
      }
    }
  }

  lemma {:induction false} LookupKeeps(c: Config, s: State, t: nat, call: Call)
    requires Inv(c, s) && t < |s.threads| && s.threads[t].Walking?
    ensures var r := Step(c, s, t, call); r.Some? && Inv(c, r.value) && Extends(s, r.value)
  {
    var th := s.threads[t];
    assert ThreadOk(c, s, th);
    var k: nat :| Passed(s.nodes, th.key, th.at, th.start, k);
    WalkStep(s.nodes, th.key, th.at, th.start, k);
    if th.at != 0 && s.nodes[th.at].key != th.key {
      NextInNodes(s.nodes, th.key, s.nodes[th.at].next, th.start, k + 1);
      MoveKeeps(c, s, t, Walking(th.key, s.nodes[th.at].next, th.start));
    } else {
      MoveKeeps(c, s, t, Answered(th.key, if th.at == 0 then None else Some(s.nodes[th.at].entry), th.start));
    }
  }

  lemma {:induction false} NextInNodes(nodes: map<nat, Node>, key: LabelInfo, at: nat, start: seq<nat>, k: nat)
    requires Passed(nodes, key, at, start, k)
    ensures at == 0 || at in nodes
  {
  }

  lemma {:induction false} LinkKeeps(c: Config, s: State, t: nat, call: Call)
    requires Inv(c, s) && t < |s.threads| && s.threads[t].Seen?
    ensures var r := Step(c, s, t, call); r.Some? && Inv(c, r.value) && Extends(s, r.value)
  {
    var n := s.threads[t].node;
    var later := Step(c, s, t, call).value;
    assert ThreadOk(c, s, s.threads[t]) && Owns(s.threads[t], n);
    assert later.nodes.Keys == s.nodes.Keys;
    WriteKeeps(c, s, later, t, n);
  }

  /** One step of any thread. */
  lemma {:induction false} StepKeeps(c: Config, s: State, t: nat, call: Call)
    requires Inv(c, s) && t < |s.threads| && Step(c, s, t, call).Some?
    ensures Inv(c, Step(c, s, t, call).value) && Extends(s, Step(c, s, t, call).value)
  {
    assert ThreadOk(c, s, s.threads[t]) && SaneThread(s.nodes, s.threads[t]);
    match s.threads[t]
    case Idle => BeginKeeps(c, s, t, call);
    case Answered(_, _, _) => BeginKeeps(c, s, t, call);
    case Fresh(n) => MoveKeeps(c, s, t, HeadOf(c, s, n));
    case Seen(_, _, _) => LinkKeeps(c, s, t, call);
    case Linked(n, p, _) =>
      var b := Bucket(c, s, s.nodes[n].key);
      if s.heads[b] == p { PushKeeps(c, s, t); } else { MoveKeeps(c, s, t, HeadOf(c, s, n)); }
    case Walking(_, _, _) => LookupKeeps(c, s, t, call);
  }

  /** Lock-freedom: an exchange fails only if another entry was published in the bucket since its head was read. */
  lemma {:induction false} FailureIsProgress(c: Config, s: State, t: nat, call: Call)
    requires Inv(c, s) && t < |s.threads| && s.threads[t].Linked?
    ensures
      var th := s.threads[t];
      var b := Bucket(c, s, s.nodes[th.node].key);
      var later := Step(c, s, t, call).value;
      && Step(c, s, t, call).Some?
      && (later.threads[t] != Idle ==> |s.chains[b]| > th.count && later.threads[t] == Seen(th.node, s.heads[b], |s.chains[b]|))
  {
    assert ThreadOk(c, s, s.threads[t]);
  }

  // ---- all interleavings ----

  datatype Event = Event(thread: nat, call: Call)

  /** The state after the given steps; None if the process ended, or an event names no thread. */
  function Run(c: Config, s: State, events: seq<Event>): Option<State>
    decreases |events|
  {
    if |events| == 0 then Some(s)
    else if !Sane(s) || events[0].thread >= |s.threads| then None
    else
      match Step(c, s, events[0].thread, events[0].call)
      case None => None
      case Some(next) => Run(c, next, events[1..])
  }

  lemma {:induction false} ExtendsTrans(c: Config, s: State, m: State, e: State)
    requires Extends(s, m) && Extends(m, e)
    ensures Extends(s, e)
  {
    hide IsSuffix;
    forall b | 0 <= b < |s.chains| ensures IsSuffix(s.chains[b], e.chains[b]) {
      assert IsSuffix(s.chains[b], m.chains[b]) && IsSuffix(m.chains[b], e.chains[b]);
      SuffixOf(s.chains[b], m.chains[b], e.chains[b]);
    }
    forall b, n | 0 <= b < |s.chains| && n in s.chains[b] ensures n in s.nodes && n in e.nodes && e.nodes[n] == s.nodes[n] {
      assert IsSuffix(s.chains[b], m.chains[b]);
      SuffixIn(s.chains[b], m.chains[b]);
    }
  }

  /** Whatever the interleaving: buckets are finite chains without repeats, allocations are disjoint and within bounds,
      and everything published stays published and unchanged. */
  lemma {:induction false} RunKeeps(c: Config, s: State, events: seq<Event>)
    requires Inv(c, s) && Run(c, s, events).Some?
    ensures Inv(c, Run(c, s, events).value) && Extends(s, Run(c, s, events).value)
    decreases |events|
  {
    if |events| == 0 {
      ExtendsSelf(c, s);
    } else {
      StepKeeps(c, s, events[0].thread, events[0].call);
      var next := Step(c, s, events[0].thread, events[0].call).value;
      RunKeeps(c, next, events[1..]);
      ExtendsTrans(c, s, next, Run(c, next, events[1..]).value);
    }
  }

  function Init(buckets: nat, threads: nat, begin: nat): State {
    State(seq(buckets, _ => 0), map[], begin + 8 * buckets, seq(threads, _ => Idle),
          seq(buckets, _ => []), [Block(begin, 8 * buckets)])
  }

  lemma {:induction false} InitInv(c: Config, buckets: nat, threads: nat, begin: nat)
    requires buckets > 0 && begin > 0 && begin + 8 * buckets < c.end
    ensures Inv(c, Init(buckets, threads, begin))
  {
  }

  // ---- inserts and lookups ----

  ghost predicate Published(c: Config, s: State, n: nat, key: LabelInfo, entry: nat) {
    && |s.heads| == |s.chains| > 0 && n in s.nodes && s.nodes[n].key == key && s.nodes[n].entry == entry
    && n in s.chains[Bucket(c, s, key)]
  }

  lemma {:induction false} StaysPublished(c: Config, s: State, later: State, n: nat, key: LabelInfo, entry: nat)
    requires Published(c, s, n, key, entry) && Extends(s, later)
    ensures Published(c, later, n, key, entry)
  {
    var b := Bucket(c, s, key);
    assert IsSuffix(s.chains[b], later.chains[b]);
    SuffixIn(s.chains[b], later.chains[b]);
  }

  /** An entry keeps its key and label while its thread works on it, and the thread only lets go by publishing it. */
  lemma {:induction false} OwnedStep(c: Config, s: State, t: nat, n: nat, e: Event)
    requires Inv(c, s) && t < |s.threads| && Owns(s.threads[t], n) && e.thread < |s.threads|
    requires Step(c, s, e.thread, e.call).Some?
    ensures
      var later := Step(c, s, e.thread, e.call).value;
      var node := s.nodes[n];
      if t < |later.threads| && Owns(later.threads[t], n) then
        n in later.nodes && later.nodes[n].key == node.key && later.nodes[n].entry == node.entry
      else Published(c, later, n, node.key, node.entry)
  {
    var u := e.thread;
    assert SaneThread(s.nodes, s.threads[t]) && SaneThread(s.nodes, s.threads[u]);
    assert ThreadOk(c, s, s.threads[t]);
    if u != t && s.threads[u].Seen? {
      assert Owns(s.threads[u], s.threads[u].node);
      assert s.threads[u].node != n;
    }
  }

  /** An insert that has returned has published its entry, for ever. */
  lemma {:induction false} InsertIsKept(c: Config, s: State, events: seq<Event>, t: nat, n: nat)
    requires Inv(c, s) && t < |s.threads| && Owns(s.threads[t], n) && Run(c, s, events).Some?
    ensures
      var later := Run(c, s, events).value;
      && n in s.nodes && t < |later.threads|
      && (!Owns(later.threads[t], n) ==> Published(c, later, n, s.nodes[n].key, s.nodes[n].entry))
    decreases |events|
  {
    assert SaneThread(s.nodes, s.threads[t]);
    RunKeeps(c, s, events);
    if |events| > 0 {
      var e := events[0];
      var next := Step(c, s, e.thread, e.call).value;
      OwnedStep(c, s, t, n, e);
      StepKeeps(c, s, e.thread, e.call);
      RunKeeps(c, next, events[1..]);
      if Owns(next.threads[t], n) {
        InsertIsKept(c, next, events[1..], t, n);
      } else {
        StaysPublished(c, next, Run(c, next, events[1..]).value, n, s.nodes[n].key, s.nodes[n].entry);
      }
    }
  }

  /** The lookup of a thread, if any, began at `s` or later. */
  ghost predicate Since(c: Config, s: State, th: Thread)
    requires |s.heads| == |s.chains| > 0
  {
    th.Walking? || th.Answered? ==> IsSuffix(s.chains[Bucket(c, s, th.key)], th.start)
  }

  lemma {:induction false} SinceRun(c: Config, s: State, now: State, events: seq<Event>, t: nat)
    requires |s.heads| == |s.chains| > 0 && Inv(c, now) && Extends(s, now) && t < |now.threads| && Since(c, s, now.threads[t])
    requires Run(c, now, events).Some?
    ensures t < |Run(c, now, events).value.threads| && Since(c, s, Run(c, now, events).value.threads[t])
    decreases |events|
  {
    if |events| > 0 {
      var e := events[0];
      var next := Step(c, now, e.thread, e.call).value;
      StepKeeps(c, now, e.thread, e.call);
      ExtendsTrans(c, s, now, next);
      SinceStep(c, s, now, t, e);
      SinceRun(c, s, next, events[1..], t);
    }
  }

  lemma {:induction false} SinceStep(c: Config, s: State, now: State, t: nat, e: Event)
    requires |s.heads| == |s.chains| > 0 && Inv(c, now) && Extends(s, now) && t < |now.threads| && Since(c, s, now.threads[t])
    requires e.thread < |now.threads| && Step(c, now, e.thread, e.call).Some?
    ensures Since(c, s, Step(c, now, e.thread, e.call).value.threads[t])
  {
    hide BucketOk, ThreadOk, BlocksOk, IsSuffix;
    forall b | 0 <= b < |s.chains| ensures IsSuffix(s.chains[b], now.chains[b]) { }
  }

  lemma {:induction false} FirstMatchIs(nodes: map<nat, Node>, list: seq<nat>, key: LabelInfo)
    requires forall n :: n in list ==> n in nodes
    ensures match FirstMatch(nodes, list, key)
      case None => forall n :: n in list ==> nodes[n].key != key
      case Some(e) => exists n :: n in list && nodes[n].key == key && nodes[n].entry == e
    decreases |list|
  {
    if list != [] {
      assert list[0] in list && forall n :: n in list[1..] ==> n in list;
      FirstMatchIs(nodes, list[1..], key);
      assert forall n :: n in list ==> n == list[0] || n in list[1..];
    }
  }

  /** What a thread's last lookup answers, if it began at `s` or later: a published entry for its key, and one for sure if
      one was published at `s`. */
  lemma {:induction false} FoundSince(c: Config, s: State, later: State, t: nat, n: nat, key: LabelInfo, entry: nat)
    requires Inv(c, s) && Inv(c, later) && Extends(s, later) && t < |later.threads|
    requires later.threads[t].Answered? && later.threads[t].key == key && Since(c, s, later.threads[t])
    ensures
      var result := later.threads[t].result;
      && (result.Some? ==> exists m :: Published(c, later, m, key, result.value))
      && (Published(c, s, n, key, entry) ==> result.Some?)
  {
    var th := later.threads[t];
    var b := Bucket(c, s, key);
    assert ThreadOk(c, later, th) && BucketOk(c, later, b);
    SuffixIn(th.start, later.chains[b]);
    FirstMatchIs(later.nodes, th.start, key);
    if th.result.Some? {
      var m :| m in th.start && later.nodes[m].key == key && later.nodes[m].entry == th.result.value;
      assert Published(c, later, m, key, th.result.value);
    }
    if Published(c, s, n, key, entry) {
      StaysPublished(c, s, later, n, key, entry);
      SuffixIn(s.chains[b], th.start);
    }
  }

  /** The first step of a lookup takes down the bucket as it is. */
  lemma {:induction false} LookupBegins(c: Config, s: State, t: nat, key: LabelInfo)
    requires Inv(c, s) && t < |s.threads| && (s.threads[t].Idle? || s.threads[t].Answered?)
    ensures Step(c, s, t, Lookup(key)).Some?
    ensures
      var next := Step(c, s, t, Lookup(key)).value;
      Inv(c, next) && Extends(s, next) && t < |next.threads| && Since(c, s, next.threads[t])
  {
    StepKeeps(c, s, t, Lookup(key));
    ExtendsSelf(c, s);
  }

  /** A lookup that begins at `s` and has returned, or any later one of the same thread, answers with a published entry for
      its key, and finds one if one was published at `s`. */
  lemma {:induction false} LookupFinds(c: Config, s: State, events: seq<Event>, t: nat, n: nat, key: LabelInfo, entry: nat)
    requires Inv(c, s) && t < |s.threads| && (s.threads[t].Idle? || s.threads[t].Answered?)
    requires |events| > 0 && events[0].thread == t && events[0].call.Lookup? && Run(c, s, events).Some?
    ensures t < |Run(c, s, events).value.threads|
    ensures
      var later := Run(c, s, events).value;
      later.threads[t].Answered? && later.threads[t].key == key ==>
        var result := later.threads[t].result;
        && (result.Some? ==> exists m :: Published(c, later, m, key, result.value))
        && (Published(c, s, n, key, entry) ==> result.Some?)
  {
    var later, next := Run(c, s, events).value, Step(c, s, t, events[0].call).value;
    RunKeeps(c, s, events);
    LookupBegins(c, s, t, events[0].call.key);
    SinceRun(c, s, next, events[1..], t);
    if later.threads[t].Answered? && later.threads[t].key == key { FoundSince(c, s, later, t, n, key, entry); }
  }

  /** The same for a thread that is in no lookup at `s` and begins one later. */
  lemma {:induction false} LaterLookupFinds(c: Config, s: State, events: seq<Event>, t: nat, n: nat, key: LabelInfo, entry: nat)
    requires Inv(c, s) && t < |s.threads| && !s.threads[t].Walking? && !s.threads[t].Answered?
    requires Run(c, s, events).Some?
    ensures t < |Run(c, s, events).value.threads|
    ensures
      var later := Run(c, s, events).value;
      later.threads[t].Answered? && later.threads[t].key == key ==>
        var result := later.threads[t].result;
        && (result.Some? ==> exists m :: Published(c, later, m, key, result.value))
        && (Published(c, s, n, key, entry) ==> result.Some?)
  {
    var later := Run(c, s, events).value;
    RunKeeps(c, s, events);
    ExtendsSelf(c, s);
    SinceRun(c, s, s, events, t);
    if later.threads[t].Answered? && later.threads[t].key == key { FoundSince(c, s, later, t, n, key, entry); }
  }

  /** From insert to lookup, over any interleaving: once thread `u` has let go of its entry `n`, a lookup of the same key
      that any thread begins then and that returns finds an entry. */
  lemma {:induction false} InsertThenLookup(c: Config, s: State, before: seq<Event>, u: nat, n: nat, after: seq<Event>, t: nat)
    requires Inv(c, s) && u < |s.threads| && Owns(s.threads[u], n) && Run(c, s, before).Some?
    requires
      var middle := Run(c, s, before).value;
      && Inv(c, middle) && u < |middle.threads| && !Owns(middle.threads[u], n)
      && t < |middle.threads| && (middle.threads[t].Idle? || middle.threads[t].Answered?)
      && |after| > 0 && after[0].thread == t && after[0].call.Lookup? && Run(c, middle, after).Some?
    ensures
      var later := Run(c, Run(c, s, before).value, after).value;
      && n in s.nodes && t < |later.threads|
      && (later.threads[t].Answered? && later.threads[t].key == s.nodes[n].key ==> later.threads[t].result.Some?)
  {
    var middle := Run(c, s, before).value;
    InsertIsKept(c, s, before, u, n);
    LookupFinds(c, middle, after, t, n, s.nodes[n].key, s.nodes[n].entry);
  }

  // ---- nothing waits ----

  /** The process ends only when a thread begins an insert and there is no room for an entry. */
  lemma {:induction false} DiesIff(c: Config, s: State, t: nat, call: Call)
    requires Inv(c, s) && t < |s.threads|
    ensures Step(c, s, t, call).None? <==>
      (s.threads[t].Idle? || s.threads[t].Answered?) && call.Insert? && s.top + 24 >= c.end
  {
  }

  /** A thread that is left alone publishes its entry in four steps. */
  lemma {:induction false} InsertAlone(c: Config, s: State, t: nat, key: LabelInfo, entry: nat)
    requires Inv(c, s) && t < |s.threads| && (s.threads[t].Idle? || s.threads[t].Answered?) && s.top + ENTRY_SIZE < c.end
    ensures
      var e := Event(t, Insert(key, entry));
      var r := Run(c, s, [e, e, e, e]);
      r.Some? && |r.value.threads| == |s.threads| && r.value.threads[t] == Idle && Published(c, r.value, s.top, key, entry)
  {
    hide Inv, Published, Bucket, Extends;
    var call, n := Insert(key, entry), s.top;
    var e := Event(t, call);
    var a := AloneBegins(c, s, t, key, entry);
    var b := AloneReads(c, a, t, call, n);
    var d := AloneLinks(c, b, t, call, n);
    var f := AlonePublishes(c, d, t, call, n, key, entry);
    assert [e, e, e, e][1..] == [e, e, e] && [e, e, e][1..] == [e, e] && [e, e][1..] == [e] && [e][1..] == [];
    assert Run(c, f, []) == Some(f);
    assert Run(c, d, [e]) == Some(f);
    assert Run(c, b, [e, e]) == Some(f);
    assert Run(c, a, [e, e, e]) == Some(f);
  }

  /** The entry is filled in and not yet published. */
  ghost predicate Holds(c: Config, s: State, n: nat, key: LabelInfo, entry: nat) {
    Inv(c, s) && Sane(s) && n in s.nodes && s.nodes[n].key == key && s.nodes[n].entry == entry
  }

  lemma {:induction false} AloneBegins(c: Config, s: State, t: nat, key: LabelInfo, entry: nat) returns (r: State)
    requires Inv(c, s) && t < |s.threads| && (s.threads[t].Idle? || s.threads[t].Answered?) && s.top + ENTRY_SIZE < c.end
    ensures Sane(s) && Step(c, s, t, Insert(key, entry)) == Some(r) && |r.threads| == |s.threads|
    ensures Holds(c, r, s.top, key, entry) && r.threads[t] == Fresh(s.top)
  {
    StepKeeps(c, s, t, Insert(key, entry));
    r := Step(c, s, t, Insert(key, entry)).value;
  }

  lemma {:induction false} AloneReads(c: Config, s: State, t: nat, call: Call, n: nat) returns (r: State)
    requires Inv(c, s) && t < |s.threads| && s.threads[t] == Fresh(n)
    ensures Sane(s) && Step(c, s, t, call) == Some(r) && |r.threads| == |s.threads| && Inv(c, r) && r.nodes == s.nodes
    ensures r.threads[t].Seen? && r.threads[t].node == n && r.heads == s.heads
    ensures n in s.nodes && r.threads[t].head == r.heads[Bucket(c, r, s.nodes[n].key)]
  {
    StepKeeps(c, s, t, call);
    r := Step(c, s, t, call).value;
  }

  lemma {:induction false} AloneLinks(c: Config, s: State, t: nat, call: Call, n: nat) returns (r: State)
    requires Inv(c, s) && t < |s.threads| && s.threads[t].Seen? && s.threads[t].node == n && n in s.nodes
    requires s.threads[t].head == s.heads[Bucket(c, s, s.nodes[n].key)]
    ensures Sane(s) && Step(c, s, t, call) == Some(r) && |r.threads| == |s.threads| && Inv(c, r) && n in r.nodes
    ensures r.nodes[n].key == s.nodes[n].key && r.nodes[n].entry == s.nodes[n].entry
    ensures r.threads[t].Linked? && r.threads[t].node == n && r.threads[t].head == r.heads[Bucket(c, r, r.nodes[n].key)]
  {
    StepKeeps(c, s, t, call);
    r := Step(c, s, t, call).value;
  }

  lemma {:induction false} AlonePublishes(c: Config, s: State, t: nat, call: Call, n: nat, key: LabelInfo, entry: nat)
    returns (r: State)
    requires Inv(c, s) && t < |s.threads| && s.threads[t].Linked? && s.threads[t].node == n && n in s.nodes
    requires s.nodes[n].key == key && s.nodes[n].entry == entry && s.threads[t].head == s.heads[Bucket(c, s, key)]
    ensures Sane(s) && Step(c, s, t, call) == Some(r) && |r.threads| == |s.threads|
    ensures r.threads[t] == Idle && Published(c, r, n, key, entry)
  {
    StepKeeps(c, s, t, call);
    r := Step(c, s, t, call).value;
  }

  /** The steps of thread `t`. */
  function StepsOf(events: seq<Event>, t: nat): nat
    decreases |events|
  {
    if |events| == 0 then 0 else (if events[0].thread == t then 1 else 0) + StepsOf(events[1..], t)
  }

  /** Thread `t` is in a lookup in every state of the run. */
  ghost predicate StillWalking(c: Config, s: State, events: seq<Event>, t: nat)
    decreases |events|
  {
    && Sane(s) && t < |s.threads| && s.threads[t].Walking?
    && (|events| > 0 ==>
          && events[0].thread < |s.threads| && Step(c, s, events[0].thread, events[0].call).Some?
          && StillWalking(c, Step(c, s, events[0].thread, events[0].call).value, events[1..], t))
  }

  /** Lookups are wait-free: whatever the other threads do, a lookup takes no more steps than the bucket it began with has
      entries without being answered. */
  lemma {:induction false} LookupEnds(c: Config, s: State, events: seq<Event>, t: nat, k: nat)
    requires Inv(c, s) && StillWalking(c, s, events, t)
    requires Passed(s.nodes, s.threads[t].key, s.threads[t].at, s.threads[t].start, k)
    ensures StepsOf(events, t) <= |s.threads[t].start| - k
    decreases |events|
  {
    hide Inv, Step, Passed;
    PassedBound(s.nodes, s.threads[t].key, s.threads[t].at, s.threads[t].start, k);
    if |events| > 0 {
      var e := events[0];
      var next := Step(c, s, e.thread, e.call).value;
      StepKeeps(c, s, e.thread, e.call);
      WalkOn(c, s, t, e, k);
      LookupEnds(c, next, events[1..], t, if e.thread == t then k + 1 else k);
    }
  }

  lemma {:induction false} PassedBound(nodes: map<nat, Node>, key: LabelInfo, at: nat, start: seq<nat>, k: nat)
    requires Passed(nodes, key, at, start, k)
    ensures k <= |start|
  {
  }

  lemma {:induction false} WalkOn(c: Config, s: State, t: nat, e: Event, k: nat)
    requires Inv(c, s) && Sane(s) && t < |s.threads| && s.threads[t].Walking? && e.thread < |s.threads|
    requires Passed(s.nodes, s.threads[t].key, s.threads[t].at, s.threads[t].start, k)
    requires Step(c, s, e.thread, e.call).Some?
    ensures
      var next := Step(c, s, e.thread, e.call).value;
      && |next.threads| == |s.threads|
      && (next.threads[t].Walking? ==>
            && next.threads[t].key == s.threads[t].key && next.threads[t].start == s.threads[t].start
            && Passed(next.nodes, s.threads[t].key, next.threads[t].at, s.threads[t].start, if e.thread == t then k + 1 else k))
  {
    hide Step, Passed, Inv, Extends, IsSuffix, ThreadOk;
    var next, th := Step(c, s, e.thread, e.call).value, s.threads[t];
    WalkerMoves(c, s, t, e);
    if e.thread == t {
      WalkStep(s.nodes, th.key, th.at, th.start, k);
    } else {
      StepKeeps(c, s, e.thread, e.call);
      StartOf(c, s, t);
      StartFrame(c, s, next, th.key, th.start);
      WalkFrame(s.nodes, next.nodes, th.key, th.at, th.start, k);
    }
  }

  lemma {:induction false} StartOf(c: Config, s: State, t: nat)
    requires Inv(c, s) && t < |s.threads| && s.threads[t].Walking?
    ensures |s.heads| == |s.chains| > 0 && IsSuffix(s.threads[t].start, s.chains[Bucket(c, s, s.threads[t].key)])
  {
    hide IsSuffix, Passed, BucketOk, BlocksOk;
    assert ThreadOk(c, s, s.threads[t]);
  }

  /** What a step means for a thread in a lookup. */
  lemma {:induction false} WalkerMoves(c: Config, s: State, t: nat, e: Event)
    requires Sane(s) && t < |s.threads| && s.threads[t].Walking? && e.thread < |s.threads| && Step(c, s, e.thread, e.call).Some?
    ensures
      var (next, th) := (Step(c, s, e.thread, e.call).value, s.threads[t]);
      && |next.threads| == |s.threads| && (e.thread != t ==> next.threads[t] == th)
      && (e.thread == t ==> next.nodes == s.nodes)
      && (e.thread == t && next.threads[t].Walking? ==>
            && th.at != 0 && th.at in s.nodes && s.nodes[th.at].key != th.key
            && next.threads[t] == Walking(th.key, s.nodes[th.at].next, th.start))
  {
  }
}
