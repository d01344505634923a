/**
 The SMP atomics built from compare-and-swap loops (asm-generic/atomic.h): ATOMIC_OP,
 ATOMIC_OP_RETURN and ATOMIC_FETCH_OP over one counter, run by any number of threads.

 A C `int` is its 32-bit pattern. `log` is the order in which the compare-and-swaps
 succeeded; `began`, `before` and `loadedAt` only remember where a call stood in that
 history and influence no step.
 */
module CasAtomics {
  import opened Bits

  datatype Op = Add(i: nat) | Sub(i: nat) | AndOp(i: nat) | OrOp(i: nat) | XorOp(i: nat)

  /** ATOMIC_OP returns nothing, ATOMIC_OP_RETURN the new value, ATOMIC_FETCH_OP the old one. */
  datatype Kind = NoResult | NewValue | OldValue

  datatype Call = Call(id: nat, op: Op, kind: Kind)

  datatype Thread =
    | Idle
    | Looping(call: Call, expected: nat, began: nat, before: nat, loadedAt: nat)
    | Returning(outcome: Outcome)

  /** A call whose swap succeeded as number `at`, with the value it returns. */
  datatype Outcome = Outcome(call: Call, began: nat, before: nat, at: nat, result: nat)

  datatype State = State(
    initial: nat, counter: nat, threads: seq<Thread>,
    log: seq<Call>, done: seq<Outcome>, nextId: nat)

  datatype Step = Begin(t: nat, op: Op, kind: Kind) | Swap(t: nat) | Return(t: nat)

  /** `c c_op i` on 32-bit patterns. */
  function Apply(op: Op, c: nat): nat {
    match op
    case Add(i) => U32(c + i)
    case Sub(i) => U32(c - i)
    case AndOp(i) => And(c, i)
    case OrOp(i) => Or(c, i)
    case XorOp(i) => Xor(c, i)
  }

  /** The counter after the calls of `log`, one after the other. */
  function Fold(initial: nat, log: seq<Call>): nat {
    if log == [] then initial else Apply(log[|log| - 1].op, Fold(initial, log[..|log| - 1]))
  }

  function ResultOf(kind: Kind, op: Op, c: nat): nat {
    match kind
    case NoResult => 0
    case NewValue => Apply(op, c)
    case OldValue => c
  }

  predicate Enabled(s: State, step: Step) {
    step.t < |s.threads| &&
    match step
    case Begin(t, _, _) => s.threads[t].Idle?
    case Swap(t) => s.threads[t].Looping?
    case Return(t) => s.threads[t].Returning?
  }

  /** One turn of the loop: `old = cmpxchg(&v->counter, c, c c_op i)`, done when `old == c`. */
  function SwapOnce(s: State, t: nat): State
    requires t < |s.threads| && s.threads[t].Looping?
  {
    var p := s.threads[t];
    if s.counter == p.expected then
      var o := Outcome(p.call, p.began, p.before, |s.log|, ResultOf(p.call.kind, p.call.op, p.expected));
      s.(counter := Apply(p.call.op, p.expected),
         log := s.log + [p.call],
         threads := s.threads[t := Returning(o)])
    else
      s.(threads := s.threads[t := p.(expected := s.counter, loadedAt := |s.log|)])
  }

  function Next(s: State, step: Step): State
    requires Enabled(s, step)
  {
    match step
    case Begin(t, op, kind) =>
      var call := Call(s.nextId, op, kind);
      s.(threads := s.threads[t := Looping(call, s.counter, |s.log|, |s.done|, |s.log|)],
         nextId := s.nextId + 1)
    case Swap(t) => SwapOnce(s, t)
    case Return(t) =>
      s.(done := s.done + [s.threads[t].outcome], threads := s.threads[t := Idle])
  }

  function Initial(value: nat, n: nat): State {
    State(value, value, seq(n, _ => Idle), [], [], 0)
  }

  ghost predicate Run(s: State, steps: seq<Step>, s': State)
    decreases |steps|
  {
    if steps == [] then s' == s
    else Enabled(s, steps[0]) && Run(Next(s, steps[0]), steps[1..], s')
  }

  // ---------------------------------------------------------------- the operators

  /** Addition and subtraction wrap once at 2^32. */
  lemma ApplyArithmetic(c: nat, i: nat)
    requires c < 0x1_0000_0000 && i < 0x1_0000_0000
    ensures Apply(Add(i), c) == if c + i < 0x1_0000_0000 then c + i else c + i - 0x1_0000_0000
    ensures Apply(Sub(i), c) == if c >= i then c - i else c - i + 0x1_0000_0000
  {
    var carry, borrow := if c + i < TWO32 then 0 else 1, if c >= i then 0 else -1;
    ModUnique(c + i, TWO32, carry, c + i - carry * TWO32);
    ModUnique(c - i, TWO32, borrow, c - i - borrow * TWO32);
  }

  /** The other three work bit by bit. */
  lemma ApplyBits(c: nat, i: nat, k: nat)
    ensures Bit(Apply(AndOp(i), c), k) <==> Bit(c, k) && Bit(i, k)
    ensures Bit(Apply(OrOp(i), c), k) <==> Bit(c, k) || Bit(i, k)
    ensures Bit(Apply(XorOp(i), c), k) <==> Bit(c, k) != Bit(i, k)
  {
    BitAnd(c, i, k);
    BitOr(c, i, k);
    BitXor(c, i, k);
  }

  /**
   A call left alone takes one turn of the loop, leaves `counter c_op i`, and returns nothing,
   that value, or the one before, as its kind says.
   */
  lemma Undisturbed(s: State, t: nat, op: Op, kind: Kind)
    requires t < |s.threads| && s.threads[t].Idle?
    ensures Enabled(s, Begin(t, op, kind))
    ensures var a := Next(s, Begin(t, op, kind));
            Enabled(a, Swap(t)) &&
            var b := Next(a, Swap(t));
            Enabled(b, Return(t)) &&
            var c := Next(b, Return(t));
            && c.counter == Apply(op, s.counter) && c.threads == s.threads
            && |c.log| == |s.log| + 1 && c.log[|s.log|].op == op
            && |c.done| == |s.done| + 1 && c.done[|s.done|].at == |s.log|
            && c.done[|s.done|].began == |s.log| && c.done[|s.done|].before == |s.done|
            && (kind == NewValue ==> c.done[|s.done|].result == Apply(op, s.counter))
            && (kind == OldValue ==> c.done[|s.done|].result == s.counter)
  {
    var a := Next(s, Begin(t, op, kind));
    var b := Next(a, Swap(t));
    assert Next(b, Return(t)).threads == s.threads;
  }

  // ---------------------------------------------------------------- no call is lost

  /** Call `id` is still looping, or its effect is in the log. */
  ghost predicate Accounted(s: State, id: nat) {
    || (exists t :: 0 <= t < |s.threads| && s.threads[t].Looping? && s.threads[t].call.id == id)
    || (exists k :: 0 <= k < |s.log| && s.log[k].id == id)
  }

  ghost predicate AllAccounted(s: State) {
    forall id: nat :: id < s.nextId ==> Accounted(s, id)
  }

  lemma StepAccounts(s: State, step: Step)
    requires AllAccounted(s) && Enabled(s, step)
    ensures AllAccounted(Next(s, step))
  {
    var s', t := Next(s, step), step.t;
    forall id: nat | id < s'.nextId ensures Accounted(s', id) {
      if id == s.nextId {
        assert s'.threads[t].Looping? && s'.threads[t].call.id == id;
      } else {
        assert Accounted(s, id);
        if u :| 0 <= u < |s.threads| && s.threads[u].Looping? && s.threads[u].call.id == id {
          if u == t && s'.log != s.log {
            assert s'.log[|s.log|].id == id;
          } else {
            assert s'.threads[u].Looping? && s'.threads[u].call.id == id;
          }
        } else {
          var k :| 0 <= k < |s.log| && s.log[k].id == id;
          assert s'.log[k] == s.log[k];
        }
      }
    }
  }

  lemma {:induction false} RunAccounts(s: State, steps: seq<Step>, s': State)
    requires AllAccounted(s) && Run(s, steps, s')
    ensures AllAccounted(s')
    decreases |steps|
  {
    if steps != [] {
      StepAccounts(s, steps[0]);
      RunAccounts(Next(s, steps[0]), steps[1..], s');
    }
  }

  /** In every run each call begun is still looping or has taken effect: losing a race gives nothing up. */
  lemma NoCallIsLost(value: nat, n: nat, steps: seq<Step>, s: State, id: nat)
    requires Run(Initial(value, n), steps, s) && id < s.nextId
    ensures Accounted(s, id)
  {
    RunAccounts(Initial(value, n), steps, s);
  }

  // ---------------------------------------------------------------- invariants

  /** The outcome took effect at its place in the log, inside its call, after everything that had returned before. */
  ghost predicate Explained(initial: nat, log: seq<Call>, done: seq<Outcome>, o: Outcome) {
    && o.began <= o.at < |log| && log[o.at] == o.call
    && o.result == ResultOf(o.call.kind, o.call.op, Fold(initial, log[..o.at]))
    && o.before <= |done| && (forall j :: 0 <= j < o.before ==> done[j].at < o.began)
  }

  ghost predicate ThreadFits(s: State, p: Thread) {
    match p
    case Idle => true
    case Looping(call, expected, began, before, loadedAt) =>
      && began <= loadedAt <= |s.log| && expected == Fold(s.initial, s.log[..loadedAt])
      && call.id < s.nextId && (forall k :: 0 <= k < |s.log| ==> s.log[k].id != call.id)
      && before <= |s.done| && (forall j :: 0 <= j < before ==> s.done[j].at < began)
    case Returning(o) => Explained(s.initial, s.log, s.done, o)
  }

  /** No two threads are in the same call. */
  ghost predicate CallsApart(s: State) {
    forall t, u :: 0 <= t < u < |s.threads| && s.threads[t].Looping? && s.threads[u].Looping? ==>
      s.threads[t].call.id != s.threads[u].call.id
  }

  ghost predicate LogIds(s: State) {
    && (forall k :: 0 <= k < |s.log| ==> s.log[k].id < s.nextId)
    && (forall j, k :: 0 <= j < k < |s.log| ==> s.log[j].id != s.log[k].id)
  }

  /** The effect at place `k` belongs to a call that has returned or is about to. */
  ghost predicate Owned(s: State, k: nat) {
    || (exists j :: 0 <= j < |s.done| && s.done[j].at == k)
    || (exists t :: 0 <= t < |s.threads| && s.threads[t].Returning? && s.threads[t].outcome.at == k)
  }

  ghost predicate EffectsOwned(s: State) {
    forall k: nat :: k < |s.log| ==> Owned(s, k)
  }

  ghost predicate Inv(s: State) {
    && s.counter == Fold(s.initial, s.log)
    && LogIds(s) && CallsApart(s)
    && (forall t :: 0 <= t < |s.threads| ==> ThreadFits(s, s.threads[t]))
    && (forall j :: 0 <= j < |s.done| ==> Explained(s.initial, s.log, s.done, s.done[j]))
  }

  lemma FoldAppend(initial: nat, log: seq<Call>, call: Call)
    ensures Fold(initial, log + [call]) == Apply(call.op, Fold(initial, log))
  {
    assert (log + [call])[..|log|] == log;
  }

  /** A longer log or more returned calls do not disturb an explanation. */
  lemma ExplainedGrows(
    initial: nat, log: seq<Call>, log': seq<Call>, done: seq<Outcome>, done': seq<Outcome>, o: Outcome)
    requires Explained(initial, log, done, o) && log <= log' && done <= done'
    ensures Explained(initial, log', done', o)
  {
    assert log'[..o.at] == log[..o.at];
  }

  /** What other threads and returned calls know survives a step that only appends. */
  lemma OthersFit(s: State, s': State, p: Thread)
    requires ThreadFits(s, p) && s.initial == s'.initial
    requires s.log <= s'.log && s.done <= s'.done && s.nextId <= s'.nextId
    requires p.Looping? ==> forall k :: |s.log| <= k < |s'.log| ==> s'.log[k].id != p.call.id
    ensures ThreadFits(s', p)
  {
    match p {
      case Idle =>
      case Looping(_, _, _, _, loadedAt) => assert s'.log[..loadedAt] == s.log[..loadedAt];
      case Returning(o) => ExplainedGrows(s.initial, s.log, s'.log, s.done, s'.done, o);
    }
  }

  lemma ReturnedStay(s: State, s': State)
    requires Inv(s) && s.initial == s'.initial && s.log <= s'.log && s.done <= s'.done
    ensures forall j :: 0 <= j < |s.done| ==> Explained(s'.initial, s'.log, s'.done, s'.done[j])
  {
    forall j | 0 <= j < |s.done| ensures Explained(s'.initial, s'.log, s'.done, s'.done[j]) {
      ExplainedGrows(s.initial, s.log, s'.log, s.done, s'.done, s.done[j]);
    }
  }

  lemma BeginKeeps(s: State, t: nat, op: Op, kind: Kind)
    requires Inv(s) && Enabled(s, Begin(t, op, kind))
    ensures Inv(Next(s, Begin(t, op, kind)))
  {
    var s' := Next(s, Begin(t, op, kind));
    ReturnedStay(s, s');
    forall u | 0 <= u < |s'.threads| ensures ThreadFits(s', s'.threads[u]) {
      if u == t {
        assert s.log[..|s.log|] == s.log;
        forall j | 0 <= j < |s.done| ensures s.done[j].at < |s.log| {
          assert Explained(s.initial, s.log, s.done, s.done[j]);
        }
      } else {
        assert ThreadFits(s, s.threads[u]);
        OthersFit(s, s', s.threads[u]);
      }
    }
    forall u, v | 0 <= u < v < |s'.threads| && s'.threads[u].Looping? && s'.threads[v].Looping?
      ensures s'.threads[u].call.id != s'.threads[v].call.id
    {
      assert u != t ==> ThreadFits(s, s.threads[u]);
      assert v != t ==> ThreadFits(s, s.threads[v]);
    }
  }

  lemma SwapKeeps(s: State, t: nat)
    requires Inv(s) && Enabled(s, Swap(t))
    ensures Inv(Next(s, Swap(t)))
  {
    var s', p := Next(s, Swap(t)), s.threads[t];
    assert ThreadFits(s, p);
    assert s.log[..|s.log|] == s.log;
    ReturnedStay(s, s');
    if s.counter == p.expected {
      FoldAppend(s.initial, s.log, p.call);
      SwapLogIds(s, t);
    }
    forall u | 0 <= u < |s'.threads| ensures ThreadFits(s', s'.threads[u]) {
      if u == t {
        assert s'.log[..|s.log|] == s.log;
      } else {
        assert ThreadFits(s, s.threads[u]);
        OthersFit(s, s', s.threads[u]);
      }
    }
  }

  lemma SwapLogIds(s: State, t: nat)
    requires Inv(s) && Enabled(s, Swap(t)) && s.counter == s.threads[t].expected
    ensures LogIds(Next(s, Swap(t)))
  {
    assert ThreadFits(s, s.threads[t]);
  }

  lemma ReturnKeeps(s: State, t: nat)
    requires Inv(s) && Enabled(s, Return(t))
    ensures Inv(Next(s, Return(t)))
  {
    var s' := Next(s, Return(t));
    ReturnedStay(s, s');
    assert ThreadFits(s, s.threads[t]);
    ExplainedGrows(s.initial, s.log, s'.log, s.done, s'.done, s.threads[t].outcome);
    forall u | 0 <= u < |s'.threads| ensures ThreadFits(s', s'.threads[u]) {
      assert ThreadFits(s, s.threads[u]);
      if u != t { OthersFit(s, s', s.threads[u]); }
    }
  }

  lemma {:induction false} RunKeeps(s: State, steps: seq<Step>, s': State)
    requires Run(s, steps, s')
    ensures Inv(s) ==> Inv(s') && s'.initial == s.initial
    decreases |steps|
  {
    if steps != [] && Inv(s) {
      match steps[0] {
        case Begin(t, op, kind) => BeginKeeps(s, t, op, kind);
        case Swap(t) => SwapKeeps(s, t);
        case Return(t) => ReturnKeeps(s, t);
      }
      RunKeeps(Next(s, steps[0]), steps[1..], s');
    }
  }

  lemma StepKeepsOwners(s: State, step: Step)
    requires EffectsOwned(s) && Enabled(s, step)
    ensures EffectsOwned(Next(s, step))
  {
    var s', t := Next(s, step), step.t;
    forall k: nat | k < |s'.log| ensures Owned(s', k) {
      if k == |s.log| {
        assert s'.threads[t].Returning? && s'.threads[t].outcome.at == k;
      } else if j :| 0 <= j < |s.done| && s.done[j].at == k {
        assert s'.done[j].at == k;
      } else {
        assert Owned(s, k);
        var u :| 0 <= u < |s.threads| && s.threads[u].Returning? && s.threads[u].outcome.at == k;
        if u == t { assert s'.done[|s.done|].at == k; } else { assert s'.threads[u] == s.threads[u]; }
      }
    }
  }

  lemma {:induction false} RunKeepsOwners(s: State, steps: seq<Step>, s': State)
    requires EffectsOwned(s) && Run(s, steps, s')
    ensures EffectsOwned(s')
    decreases |steps|
  {
    if steps != [] {
      StepKeepsOwners(s, steps[0]);
      RunKeepsOwners(Next(s, steps[0]), steps[1..], s');
    }
  }

  /** Every change of the counter belongs to a call that has returned or is about to return. */
  lemma NoStrayEffect(value: nat, n: nat, steps: seq<Step>, s: State)
    requires Run(Initial(value, n), steps, s)
    ensures forall k: nat :: k < |s.log| ==> Owned(s, k)
  {
    RunKeepsOwners(Initial(value, n), steps, s);
  }

  /** In every run the counter is the initial value folded over the successful swaps, in order. */
  lemma CounterIsFold(value: nat, n: nat, steps: seq<Step>, s: State)
    requires Run(Initial(value, n), steps, s)
    ensures s.counter == Fold(value, s.log)
  {
    RunKeeps(Initial(value, n), steps, s);
  }

  /**
   Every run is linearizable: a call that has returned took effect exactly once, at one place
   of the log inside its own duration, returned the value just before or just after that
   place, and comes after every call that had returned before it began.
   */
  lemma Linearizable(value: nat, n: nat, steps: seq<Step>, s: State, j: nat)
    requires Run(Initial(value, n), steps, s) && j < |s.done|
    ensures var o := s.done[j];
            && o.began <= o.at < |s.log| && s.log[o.at] == o.call
            && (forall k :: 0 <= k < |s.log| && s.log[k].id == o.call.id ==> k == o.at)
            && (o.call.kind == OldValue ==> o.result == Fold(value, s.log[..o.at]))
            && (o.call.kind == NewValue ==> o.result == Fold(value, s.log[..o.at + 1]))
            && (forall i :: 0 <= i < o.before && i < |s.done| ==> s.done[i].at < o.at)
  {
    RunKeeps(Initial(value, n), steps, s);
    var o := s.done[j];
    assert Explained(s.initial, s.log, s.done, o);
    assert s.log[..o.at + 1] == s.log[..o.at] + [o.call];
    FoldAppend(value, s.log[..o.at], o.call);
  }

  /** A swap fails only if some other call took effect since this one last loaded the counter. */
  lemma FailureMeansProgress(value: nat, n: nat, steps: seq<Step>, s: State, t: nat)
    requires Run(Initial(value, n), steps, s) && Enabled(s, Swap(t))
    requires Next(s, Swap(t)).threads[t].Looping?
    ensures s.threads[t].loadedAt < |s.log|
  {
    RunKeeps(Initial(value, n), steps, s);
    assert ThreadFits(s, s.threads[t]);
    assert s.log[..|s.log|] == s.log;
  }
}
