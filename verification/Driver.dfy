/** driver/aflpp/symsan.cpp with include/task_mgr.h: which solver the mutator tries on which task, call by call. */
module Driver {
  import opened Base

  datatype Mutation = Invalid | InValidation | Validated

  datatype Answer = Error | Sat | Unsat | Timeout

  /** A call of solve.  Tasks are numbered in the order in which they were added. */
  datatype Attempt = Attempt(task: nat, solver: nat)

  /** The fields of my_mutator_t that matter, the queue of the FIFO task manager, and what has been tried so far. */
  datatype Mutator = Mutator(
    queue: seq<nat>, current: Option<nat>, solver: nat, state: Mutation, added: nat, tried: seq<Attempt>)

  function Empty(): Mutator {
    Mutator([], None, 0, Invalid, 0, [])
  }

  /** add_task */
  function AddOf(m: Mutator): Mutator {
    m.(queue := m.queue + [m.added], added := m.added + 1)
  }

  /** The end of afl_custom_fuzz_count. */
  function RestartOf(m: Mutator): Mutator {
    m.(current := None)
  }

  /** afl_custom_queue_new_entry; `mine` if the new entry comes from the input being fuzzed. */
  function NewEntryOf(m: Mutator, mine: bool): Mutator {
    if mine && m.state == InValidation then m.(state := Validated) else m
  }

  /** afl_custom_fuzz up to the call of solve: None when there is nothing left to solve. */
  function PickOf(m: Mutator, solvers: nat): Option<Mutator> {
    if m.current == None || m.state == Validated then
      if m.queue == [] then None
      else Some(m.(queue := m.queue[1..], current := Some(m.queue[0]), solver := 0, state := Invalid))
    else if m.state != InValidation then Some(m)
    else if m.solver + 1 < solvers then Some(m.(solver := m.solver + 1))
    else if m.queue == [] then None
    else Some(m.(queue := m.queue[1..], current := Some(m.queue[0]), solver := 0))
  }

  /** What the answer of solve does. */
  function AnswerOf(m: Mutator, answer: Answer): Mutator {
    match answer
    case Sat => m.(state := InValidation)
    case Timeout => m.(state := InValidation)
    case Unsat => m.(current := None)
    case Error => m
  }

  /** afl_custom_fuzz on an input that is not too long. */
  function FuzzOf(m: Mutator, solvers: nat, answer: Answer): Mutator {
    match PickOf(m, solvers)
    case None =>
      var tried := m.current.Some? && m.state == InValidation;
      m.(current := None, solver := if tried then m.solver + 1 else m.solver, state := Invalid)
    case Some(p) =>
      if p.current.Some? then AnswerOf(p.(tried := p.tried + [Attempt(p.current.value, p.solver)]), answer) else p
  }

  // ---- the order of attempts ----

  predicate Before(a: Attempt, b: Attempt) {
    a.task < b.task || (a.task == b.task && a.solver < b.solver)
  }

  /** Tasks in the order added, solvers in their order, no pair twice. */
  ghost predicate InOrder(tried: seq<Attempt>) {
    forall i, j :: 0 <= i < j < |tried| ==> Before(tried[i], tried[j])
  }

  ghost predicate Inv(m: Mutator, solvers: nat) {
    && solvers > 0 && |m.queue| <= m.added
    && (forall i :: 0 <= i < |m.queue| ==> m.queue[i] == m.added - |m.queue| + i)
    && (forall i :: 0 <= i < |m.tried| ==> m.tried[i].task < m.added - |m.queue| && m.tried[i].solver < solvers)
    && (m.current.Some? ==> m.tried != [] && m.tried[|m.tried| - 1] == Attempt(m.current.value, m.solver))
    && (m.current.Some? ==> m.current.value == m.added - |m.queue| - 1)
    && NoneSkipped(m)
  }

  /** Every task taken was tried, from the first solver on. */
  ghost predicate NoneSkipped(m: Mutator) {
    && (forall k: nat :: k < m.added - |m.queue| ==> Attempt(k, 0) in m.tried)
    && (forall a :: a in m.tried && a.solver > 0 ==> Attempt(a.task, a.solver - 1) in m.tried)
  }

  /** The one state from which the same solver is called on the same task again. */
  predicate Stuck(m: Mutator) {
    m.current.Some? && m.state == Invalid
  }

  /** A new attempt continues with the next solver, takes the next task, or repeats the last attempt when stuck. */
  lemma {:induction false} NextAttempt(m: Mutator, solvers: nat, answer: Answer)
    requires Inv(m, solvers)
    ensures
      var r := FuzzOf(m, solvers, answer);
      && r.added == m.added && (r.tried == m.tried ==> r.queue == m.queue && r.current == None)
      && (r.tried != m.tried ==>
            && |r.tried| == |m.tried| + 1 && r.tried == m.tried + [r.tried[|m.tried|]]
            && var a := r.tried[|m.tried|];
               && (r.current.Some? ==> r.current == Some(a.task) && r.solver == a.solver)
               && (if |r.queue| < |m.queue| then
                     r.queue == m.queue[1..] && a == Attempt(m.added - |m.queue|, 0)
                   else
                     && r.queue == m.queue && m.current == Some(a.task) && a.solver < solvers
                     && a.solver == if Stuck(m) then m.solver else m.solver + 1))
  {
    hide InOrder, NoneSkipped;
  }

  lemma {:induction false} FuzzKeeps(m: Mutator, solvers: nat, answer: Answer)
    requires Inv(m, solvers)
    ensures
      var r := FuzzOf(m, solvers, answer);
      && Inv(r, solvers) && m.tried <= r.tried && |r.tried| <= |m.tried| + 1
      && (InOrder(m.tried) && !Stuck(m) ==> InOrder(r.tried))
  {
    hide FuzzOf;
    var r := FuzzOf(m, solvers, answer);
    NextAttempt(m, solvers, answer);
    if r.tried != m.tried {
      var last := |m.tried|;
      AllTried(m, r, r.tried[last]);
      if m.tried != [] && !Stuck(m) {
        assert Before(m.tried[last - 1], r.tried[last]);
        forall i | 0 <= i < last && InOrder(m.tried) ensures Before(m.tried[i], r.tried[last]) {
          if i < last - 1 { assert Before(m.tried[i], m.tried[last - 1]); }
        }
      }
    }
  }

  lemma {:induction false} AllTried(m: Mutator, r: Mutator, a: Attempt)
    requires NoneSkipped(m) && r.tried == m.tried + [a] && |m.queue| <= r.added == m.added
    requires if |r.queue| < |m.queue| then |r.queue| == |m.queue| - 1 && a == Attempt(m.added - |m.queue|, 0)
      else |r.queue| == |m.queue| && (a.solver > 0 ==> a in m.tried || Attempt(a.task, a.solver - 1) in m.tried)
    ensures NoneSkipped(r)
  {
    assert a in r.tried;
    forall k: nat | k < r.added - |r.queue| ensures Attempt(k, 0) in r.tried {
      if k < m.added - |m.queue| { assert Attempt(k, 0) in m.tried; }
    }
  }

  /** Exactly then a pair is tried again. */
  lemma {:induction false} RepeatsIff(m: Mutator, solvers: nat, answer: Answer)
    requires Inv(m, solvers) && InOrder(m.tried)
    ensures
      var r := FuzzOf(m, solvers, answer);
      Stuck(m) <==> |r.tried| > |m.tried| && r.tried[|m.tried|] in m.tried
  {
    var r := FuzzOf(m, solvers, answer);
    FuzzKeeps(m, solvers, answer);
    if Stuck(m) {
      assert r.tried[|m.tried|] == m.tried[|m.tried| - 1];
    } else if |r.tried| > |m.tried| {
      forall i | 0 <= i < |m.tried| ensures m.tried[i] != r.tried[|m.tried|] {
        assert Before(r.tried[i], r.tried[|m.tried|]);
      }
    }
  }

  /** It gets there only by an error from the first solver on a task just taken, or by being there. */
  lemma {:induction false} StuckIff(m: Mutator, solvers: nat, answer: Answer)
    requires Inv(m, solvers)
    ensures Stuck(FuzzOf(m, solvers, answer)) <==>
      answer == Error && PickOf(m, solvers).Some? && (m.current == None || m.state != InValidation)
  {
  }

  // ---- all runs ----

  datatype Event = Add | Restart | NewEntry(mine: bool) | Fuzz(answer: Answer)

  function StepOf(m: Mutator, solvers: nat, e: Event): Mutator {
    match e
    case Add => AddOf(m)
    case Restart => RestartOf(m)
    case NewEntry(mine) => NewEntryOf(m, mine)
    case Fuzz(answer) => FuzzOf(m, solvers, answer)
  }

  function RunOf(m: Mutator, solvers: nat, events: seq<Event>): Mutator
    decreases |events|
  {
    if |events| == 0 then m else RunOf(StepOf(m, solvers, events[0]), solvers, events[1..])
  }

  /** The first solver never answers with an error (the input-to-state solver has no such answer). */
  ghost predicate FirstNeverFails(m: Mutator, solvers: nat, events: seq<Event>)
    decreases |events|
  {
    |events| > 0 ==>
      && (events[0] == Fuzz(Error) && PickOf(m, solvers).Some? ==> PickOf(m, solvers).value.solver != 0)
      && FirstNeverFails(StepOf(m, solvers, events[0]), solvers, events[1..])
  }

  lemma {:induction false} StepKeeps(m: Mutator, solvers: nat, e: Event)
    requires Inv(m, solvers) && InOrder(m.tried) && !Stuck(m)
    requires e == Fuzz(Error) && PickOf(m, solvers).Some? ==> PickOf(m, solvers).value.solver != 0
    ensures var r := StepOf(m, solvers, e); Inv(r, solvers) && InOrder(r.tried) && !Stuck(r)
  {
    if e.Fuzz? {
      FuzzKeeps(m, solvers, e.answer);
      StuckIff(m, solvers, e.answer);
    }
  }

  /** A run that repeats: one task, and a first solver that answers with an error twice. */
  lemma {:induction false} ErrorRepeats(solvers: nat)
    requires solvers > 0
    ensures
      var r := RunOf(Empty(), solvers, [Add, Fuzz(Error), Fuzz(Error)]);
      r.tried == [Attempt(0, 0), Attempt(0, 0)] && Stuck(r)
  {
    var m := StepOf(Empty(), solvers, Add);
    var n := StepOf(m, solvers, Fuzz(Error));
    assert n.tried == [Attempt(0, 0)] && Stuck(n);
    var o := StepOf(n, solvers, Fuzz(Error));
    assert RunOf(o, solvers, []) == o;
    assert RunOf(n, solvers, [Fuzz(Error)]) == o;
    assert RunOf(m, solvers, [Fuzz(Error), Fuzz(Error)]) == o;
  }

  /** Over every run, whatever is answered and validated: attempts come in order, so no pair is tried twice, and there
      are never more than tasks times solvers. */
  lemma {:induction false} RunInOrder(m: Mutator, solvers: nat, events: seq<Event>)
    requires Inv(m, solvers) && InOrder(m.tried) && !Stuck(m) && FirstNeverFails(m, solvers, events)
    ensures
      var r := RunOf(m, solvers, events);
      Inv(r, solvers) && InOrder(r.tried) && |r.tried| <= r.added * solvers
    decreases |events|
  {
    if |events| == 0 {
      CountTried(m.tried, m.added, solvers);
    } else {
      StepKeeps(m, solvers, events[0]);
      RunInOrder(StepOf(m, solvers, events[0]), solvers, events[1..]);
    }
  }

  /** The place of an attempt among all pairs. */
  function Place(a: Attempt, solvers: nat): nat {
    a.task * solvers + a.solver
  }

  lemma {:induction false} PlaceGrows(a: Attempt, b: Attempt, solvers: nat)
    requires Before(a, b) && a.solver < solvers
    ensures Place(a, solvers) < Place(b, solvers)
  {
    if a.task < b.task { assert (a.task + 1) * solvers <= b.task * solvers; }
  }

  lemma {:induction false} PlaceAtLeast(tried: seq<Attempt>, solvers: nat, k: nat)
    requires InOrder(tried) && k < |tried| && forall i :: 0 <= i < |tried| ==> tried[i].solver < solvers
    ensures k <= Place(tried[k], solvers)
  {
    if k > 0 {
      PlaceAtLeast(tried, solvers, k - 1);
      PlaceGrows(tried[k - 1], tried[k], solvers);
    }
  }

  lemma {:induction false} CountTried(tried: seq<Attempt>, tasks: nat, solvers: nat)
    requires InOrder(tried) && forall i :: 0 <= i < |tried| ==> tried[i].task < tasks && tried[i].solver < solvers
    ensures |tried| <= tasks * solvers
  {
    if |tried| > 0 {
      var last := tried[|tried| - 1];
      PlaceAtLeast(tried, solvers, |tried| - 1);
      assert (last.task + 1) * solvers <= tasks * solvers;
    }
  }

  // ---- the next attempt ----

  /** No call of afl_custom_fuzz. */
  predicate NoFuzz(events: seq<Event>) {
    forall e :: e in events ==> !e.Fuzz?
  }

  /** What happens between two calls of afl_custom_fuzz. */
  lemma {:induction false} BetweenCalls(m: Mutator, solvers: nat, events: seq<Event>)
    requires Inv(m, solvers) && NoFuzz(events)
    ensures
      var r := RunOf(m, solvers, events);
      && Inv(r, solvers) && r.tried == m.tried && r.solver == m.solver && m.added - |m.queue| == r.added - |r.queue|
      && r.current == (if Restart in events then None else m.current)
      && r.state == if m.state == InValidation && NewEntry(true) in events then Validated else m.state
    decreases |events|
  {
    if |events| > 0 {
      var e := events[0];
      assert e in events && events == [e] + events[1..];
      BetweenStep(m, solvers, e);
      BetweenCalls(StepOf(m, solvers, e), solvers, events[1..]);
    }
  }

  lemma {:induction false} BetweenStep(m: Mutator, solvers: nat, e: Event)
    requires Inv(m, solvers) && !e.Fuzz?
    ensures
      var r := StepOf(m, solvers, e);
      && Inv(r, solvers) && r.tried == m.tried && r.solver == m.solver && m.added - |m.queue| == r.added - |r.queue|
      && r.current == (if e == Restart then None else m.current)
      && r.state == if m.state == InValidation && e == NewEntry(true) then Validated else m.state
  {
    assert NoneSkipped(StepOf(m, solvers, e));
    hide NoneSkipped;
  }

  /** While no task is current, a call tries the first solver on the next task, if there is one. */
  lemma {:induction false} NextTaskIsTried(m: Mutator, solvers: nat, answer: Answer)
    requires Inv(m, solvers) && m.current == None
    ensures
      FuzzOf(m, solvers, answer).tried ==
        if m.queue == [] then m.tried else m.tried + [Attempt(m.added - |m.queue|, 0)]
  {
  }

  /** Completeness.  A call has tried solver `s` on task `k`; `between` happens until the next call.  That call tries
      solver `s + 1` on `k` if there is one, unless the answer was unsat, an entry was validated or the mutator
      restarted; after an error that left the mutator stuck it tries `s` again; and otherwise it goes on to task `k + 1`, if
      that was added. */
  lemma {:induction false} NextIsTried(m: Mutator, solvers: nat, answer: Answer, between: seq<Event>, next: Answer)
    requires Inv(m, solvers) && NoFuzz(between) && |FuzzOf(m, solvers, answer).tried| > |m.tried|
    ensures
      var p := FuzzOf(m, solvers, answer);
      var q := RunOf(p, solvers, between);
      var Attempt(k, s) := p.tried[|m.tried|];
      var stuck := answer == Error && (m.current == None || m.state != InValidation);
      var stays := answer != Unsat && Restart !in between && (stuck || (NewEntry(true) !in between && s + 1 < solvers));
      FuzzOf(q, solvers, next).tried ==
        if stays then p.tried + [Attempt(k, if stuck then s else s + 1)]
        else if k + 1 < q.added then p.tried + [Attempt(k + 1, 0)]
        else p.tried
  {
    hide RunOf, NoneSkipped, InOrder;
    var p := FuzzOf(m, solvers, answer);
    FuzzKeeps(m, solvers, answer);
    NextAttempt(m, solvers, answer);
    AnswerIs(m, solvers, answer);
    hide FuzzOf;
    BetweenCalls(p, solvers, between);
    AttemptIs(RunOf(p, solvers, between), solvers, next);
  }

  /** The state that an answer leaves behind. */
  lemma {:induction false} AnswerIs(m: Mutator, solvers: nat, answer: Answer)
    requires Inv(m, solvers) && |FuzzOf(m, solvers, answer).tried| > |m.tried|
    ensures
      var p := FuzzOf(m, solvers, answer);
      var a := p.tried[|m.tried|];
      && p.added == m.added && a.task == p.added - |p.queue| - 1
      && p.current == (if answer == Unsat then None else Some(a.task)) && (p.current.Some? ==> p.solver == a.solver)
      && var stuck := answer == Error && (m.current == None || m.state != InValidation);
         (p.current.Some? ==> p.state == if stuck then Invalid else InValidation)
  {
    hide NoneSkipped, InOrder;
  }

  /** What the next call tries, in any state. */
  lemma {:induction false} AttemptIs(q: Mutator, solvers: nat, answer: Answer)
    requires Inv(q, solvers)
    ensures
      FuzzOf(q, solvers, answer).tried ==
        if q.current.Some? && q.state == Invalid then q.tried + [Attempt(q.current.value, q.solver)]
        else if q.current.Some? && q.state == InValidation && q.solver + 1 < solvers then
          q.tried + [Attempt(q.current.value, q.solver + 1)]
        else if q.queue == [] then q.tried
        else q.tried + [Attempt(q.added - |q.queue|, 0)]
  {
    hide NoneSkipped, InOrder;
  }

  /** The pair after `a` when no task is left early. */
  function NextPair(a: Attempt, solvers: nat): Attempt {
    if a.solver + 1 < solvers then Attempt(a.task, a.solver + 1) else Attempt(a.task + 1, 0)
  }

  /** `n` pairs from `a` on. */
  function Pairs(a: Attempt, solvers: nat, n: nat): seq<Attempt>
    decreases n
  {
    if n == 0 then [] else [a] + Pairs(NextPair(a, solvers), solvers, n - 1)
  }

  /** The pair that is next, when a task is waiting for validation or none is current. */
  function Pending(m: Mutator, solvers: nat): Attempt
    requires m.added >= |m.queue|
  {
    if m.current.Some? then NextPair(Attempt(m.current.value, m.solver), solvers) else Attempt(m.added - |m.queue|, 0)
  }

  /** Calls that only find solutions or time out, without a restart or a validated entry, try every solver on every task,
      one pair a call, until the tasks run out. */
  lemma {:induction false} NothingIsGivenUp(m: Mutator, solvers: nat, events: seq<Event>)
    requires Inv(m, solvers) && (m.current.Some? ==> m.state == InValidation)
    requires forall e :: e in events ==> e == Fuzz(Sat) || e == Fuzz(Timeout)
    requires |events| <= Budget(m, solvers)
    ensures RunOf(m, solvers, events).tried == m.tried + Pairs(Pending(m, solvers), solvers, |events|)
    decreases |events|
  {
    if |events| > 0 {
      var e := events[0];
      assert e in events && forall f :: f in events[1..] ==> f in events;
      hide Inv, FuzzOf, Budget, NextPair, Pending;
      PairIsTried(m, solvers, e.answer);
      NothingIsGivenUp(StepOf(m, solvers, e), solvers, events[1..]);
    }
  }

  lemma {:induction false} PairIsTried(m: Mutator, solvers: nat, answer: Answer)
    requires Inv(m, solvers) && (m.current.Some? ==> m.state == InValidation) && Budget(m, solvers) > 0
    requires answer == Sat || answer == Timeout
    ensures
      var r := FuzzOf(m, solvers, answer);
      && Inv(r, solvers) && r.current.Some? && r.state == InValidation && Budget(r, solvers) == Budget(m, solvers) - 1
      && r.tried == m.tried + [Pending(m, solvers)] && Pending(r, solvers) == NextPair(Pending(m, solvers), solvers)
  {
    hide NoneSkipped, InOrder;
    FuzzKeeps(m, solvers, answer);
    AttemptIs(m, solvers, answer);
    NextAttempt(m, solvers, answer);
    if |FuzzOf(m, solvers, answer).tried| > |m.tried| { AnswerIs(m, solvers, answer); }
    assert |m.queue| * solvers == (|m.queue| - 1) * solvers + solvers;
  }

  // ---- the number promised to AFL++ ----

  /** Attempts that are still possible. */
  function Budget(m: Mutator, solvers: nat): int {
    |m.queue| * solvers + if m.current.Some? then solvers - 1 - m.solver else 0
  }

  lemma {:induction false} FuzzSpends(m: Mutator, solvers: nat, answer: Answer)
    requires Inv(m, solvers) && !Stuck(m)
    ensures
      var r := FuzzOf(m, solvers, answer);
      Budget(r, solvers) + |r.tried| <= Budget(m, solvers) + |m.tried| && Budget(r, solvers) >= 0
  {
    hide FuzzOf, NoneSkipped;
    var r := FuzzOf(m, solvers, answer);
    NextAttempt(m, solvers, answer);
    FuzzKeeps(m, solvers, answer);
    assert |m.queue| * solvers == (|m.queue| - 1) * solvers + solvers;
    assert r.tried != m.tried && |r.queue| < |m.queue| ==> |r.queue| * solvers == (|m.queue| - 1) * solvers;
  }

  /** After afl_custom_fuzz_count has returned the number of queued tasks times solvers, at most that many calls of solve
      are made before new tasks are added. */
  lemma {:induction false} CountIsBound(m: Mutator, solvers: nat, events: seq<Event>)
    requires Inv(m, solvers) && InOrder(m.tried) && !Stuck(m) && FirstNeverFails(m, solvers, events)
    requires forall i :: 0 <= i < |events| ==> !events[i].Add?
    ensures |RunOf(m, solvers, events).tried| <= |m.tried| + Budget(m, solvers)
    decreases |events|
  {
    if |events| == 0 {
      assert m.current.Some? ==> m.solver < solvers;
    } else {
      var next := StepOf(m, solvers, events[0]);
      StepKeeps(m, solvers, events[0]);
      if events[0].Fuzz? { FuzzSpends(m, solvers, events[0].answer); }
      CountIsBound(next, solvers, events[1..]);
    }
  }

  // ---- the mutator ----

  class Session {
    const solvers: nat
    var queue: seq<nat>
    var current: Option<nat>
    var solverIndex: nat
    var state: Mutation
    var added: nat
    ghost var tried: seq<Attempt>

    ghost function View(): Mutator
      reads this
    {
      Mutator(queue, current, solverIndex, state, added, tried)
    }

    constructor (solvers: nat)
      requires solvers > 0
      ensures View() == Empty() && this.solvers == solvers && Inv(View(), solvers) && InOrder(tried) && !Stuck(View())
    {
      this.solvers := solvers;
      queue, current, solverIndex, state, added, tried := [], None, 0, Invalid, 0, [];
    }

    method AddTask()
      modifies this
      ensures View() == AddOf(old(View()))
    {
      queue := queue + [added];
      added := added + 1;
    }

    /** FIFOTaskManager::get_next_task */
    method NextTask() returns (task: Option<nat>)
      modifies this`queue
      ensures old(queue) == [] ==> task == None && queue == []
      ensures old(queue) != [] ==> task == Some(old(queue)[0]) && queue == old(queue)[1..]
    {
      if queue == [] { return None; }
      task, queue := Some(queue[0]), queue[1..];
    }

    method QueueNewEntry(mine: bool)
      modifies this
      ensures View() == NewEntryOf(old(View()), mine)
    {
      if mine && state == InValidation { state := Validated; }
    }

    /** The end of afl_custom_fuzz_count: the number of calls announced. */
    method FuzzCount() returns (count: nat)
      requires Inv(View(), solvers)
      modifies this
      ensures View() == RestartOf(old(View())) && count == Budget(View(), solvers) && Inv(View(), solvers)
    {
      current := None;
      count := |queue| * solvers;
    }

    /** afl_custom_fuzz; `answer` is what solve will answer if it is called. */
    method Fuzz(answer: Answer)
      requires Inv(View(), solvers)
      modifies this
      ensures View() == FuzzOf(old(View()), solvers, answer) && Inv(View(), solvers)
      ensures InOrder(old(tried)) && !Stuck(old(View())) ==> InOrder(tried)
    {
      hide Inv, InOrder, Stuck;
      FuzzKeeps(View(), solvers, answer);
      if current == None || state == Validated {
        current := NextTask();
        if current == None {
          state := Invalid;
          return;
        }
        solverIndex, state := 0, Invalid;
      }
      if state == InValidation {
        solverIndex := solverIndex + 1;
        if solverIndex >= solvers {
          current := NextTask();
          if current == None {
            state := Invalid;
            return;
          }
          solverIndex := 0;
        }
      }
      tried := tried + [Attempt(current.value, solverIndex)];
      match answer {
        case Sat => state := InValidation;
        case Timeout => state := InValidation;
        case Unsat => current := None;
        case Error =>
      }
    }
  }
}
