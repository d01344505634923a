/**
 Tracking of MMIO writes under spinlocks (asm-generic/mmiowb.h): two 16-bit counters per CPU,
 changed by three operations. The class is the operations as they run undisturbed. The
 machine below cuts them into single loads and stores and lets an interrupt arrive between
 any two; its handler does the same things, may be interrupted in turn, and releases what it
 took before it returns.
 */
module Mmiowb {
  import opened Bits

  const MAX_DEPTH: nat := 0xffff

  /** What a `u16` counter shows after `x` increments from zero. */
  function U16(x: nat): (r: nat)
    ensures r < TWO16 && (x < TWO16 ==> r == x)
  {
    if x < TWO16 then x else U16(x - TWO16)
  }

  /** `++` and `--` on a `u16`. */
  function Up(n: nat): nat { if n == MAX_DEPTH then 0 else n + 1 }

  function Down(n: nat): nat { if n == 0 then MAX_DEPTH else n - 1 }

  lemma {:induction false} UpCounts(x: nat)
    ensures U16(x + 1) == Up(U16(x)) && Down(U16(x + 1)) == U16(x)
  {
    if x >= TWO16 { UpCounts(x - TWO16); }
  }

  class MmiowbState {
    var nestingCount: nat
    var mmiowbPending: nat

    ghost predicate Valid()
      reads this
    {
      nestingCount < TWO16 && mmiowbPending < TWO16
    }

    constructor ()
      ensures Valid() && nestingCount == 0 && mmiowbPending == 0
    {
      nestingCount, mmiowbPending := 0, 0;
    }

    method SetPending()
      requires Valid()
      modifies this
      ensures Valid() && nestingCount == old(nestingCount)
      ensures mmiowbPending == if nestingCount == 0 then old(mmiowbPending) else nestingCount
    {
      if nestingCount != 0 { mmiowbPending := nestingCount; }
    }

    method SpinLock()
      requires Valid()
      modifies this
      ensures Valid() && mmiowbPending == old(mmiowbPending)
      ensures nestingCount == Up(old(nestingCount))
    {
      nestingCount := Up(nestingCount);
    }

    /** `barrier` tells whether `mmiowb()` was issued. */
    method SpinUnlock() returns (barrier: bool)
      requires Valid()
      modifies this
      ensures Valid() && mmiowbPending == 0
      ensures barrier <==> old(mmiowbPending) != 0
      ensures nestingCount == Down(old(nestingCount))
    {
      barrier := false;
      if mmiowbPending != 0 {
        mmiowbPending := 0;
        barrier := true;
      }
      nestingCount := Down(nestingCount);
    }
  }

  // ---------------------------------------------------------------- the machine

  /** Where a context is inside an operation; a number is a value it has loaded. */
  datatype Op =
    | Idle
    | Written              // the device write is out, nesting_count not yet tested
    | Nested               // nesting_count was not zero
    | Marking(count: nat)  // about to store it into mmiowb_pending
    | Locking(count: nat)  // about to store nesting_count + 1
    | Pending              // unlock: mmiowb_pending was not zero
    | Cleared              // unlock: zero stored, mmiowb() still to come
    | Leaving              // unlock: about to load nesting_count
    | Unlocking(count: nat)

  /** A context, with the locks it holds itself. */
  datatype Context = Context(locks: nat, op: Op)

  /**
   The interrupted code is at the bottom of the stack, handlers above it. `dirty` are the
   contexts that have written under a lock of their own without a barrier since.
   */
  datatype State = State(nesting: nat, pending: nat, stack: seq<Context>, dirty: set<nat>)

  datatype Step = Interrupt | Return | Write | Lock | Unlock | Continue

  /**
   What the surrounding code keeps to: at most `depth` locks are held together, an interrupt
   arrives only where `irq` says, and a handler without a lock of its own writes only where
   `may` says.
   */
  datatype Rules = Rules(depth: nat, irq: Op -> bool, may: State -> bool)

  function Locks(stack: seq<Context>): nat {
    if stack == [] then 0 else Locks(stack[..|stack| - 1]) + stack[|stack| - 1].locks
  }

  function Top(s: State): Context
    requires s.stack != []
  {
    s.stack[|s.stack| - 1]
  }

  function SetTop(s: State, c: Context): State
    requires s.stack != []
  {
    s.(stack := s.stack[|s.stack| - 1 := c])
  }

  function SetOp(s: State, op: Op): State
    requires s.stack != []
  {
    SetTop(s, Top(s).(op := op))
  }

  predicate Enabled(rules: Rules, s: State, step: Step) {
    && s.stack != []
    && match step
       case Interrupt => rules.irq(Top(s).op)
       case Return => |s.stack| > 1 && Top(s).op == Idle && Top(s).locks == 0
       case Write => Top(s).op == Idle && (|s.stack| > 1 && Top(s).locks == 0 ==> rules.may(s))
       case Lock => Top(s).op == Idle
       case Unlock => Top(s).op == Idle && Top(s).locks > 0
       case Continue => Top(s).op != Idle && (Top(s).op.Locking? ==> Locks(s.stack) < rules.depth)
  }

  function Next(rules: Rules, s: State, step: Step): State
    requires Enabled(rules, s, step)
  {
    match step
    case Interrupt => s.(stack := s.stack + [Context(0, Idle)])
    case Return => s.(stack := s.stack[..|s.stack| - 1], dirty := s.dirty - {|s.stack| - 1})
    case Write => SetOp(s, Written).(dirty := if Top(s).locks > 0 then s.dirty + {|s.stack| - 1} else s.dirty)
    case Lock => SetOp(s, Locking(s.nesting))
    case Unlock => SetOp(s, if s.pending != 0 then Pending else Leaving)
    case Continue => Advance(s)
  }

  /** The next load or store of the operation under way. */
  function Advance(s: State): State
    requires s.stack != [] && Top(s).op != Idle
  {
    var c := Top(s);
    match c.op
    case Written => SetOp(s, if s.nesting != 0 then Nested else Idle)
    case Nested => SetOp(s, Marking(s.nesting))
    case Marking(n) => SetOp(s, Idle).(pending := n)
    case Locking(n) => SetTop(s, Context(c.locks + 1, Idle)).(nesting := Up(n))
    case Pending => SetOp(s, Cleared).(pending := 0)
    case Cleared => SetOp(s, Leaving).(dirty := {})
    case Leaving => SetOp(s, Unlocking(s.nesting))
    case Unlocking(n) =>
      SetTop(s, Context(if c.locks == 0 then 0 else c.locks - 1, Idle)).(nesting := Down(n))
  }

  function Left(op: Op): nat {
    match op
    case Idle => 0
    case Written => 3
    case Nested => 2
    case Pending => 4
    case Cleared => 3
    case Leaving => 2
    case _ => 1
  }

  /** The operation under way, run to its end without an interrupt. */
  function Finish(s: State): State
    requires s.stack != []
    decreases Left(Top(s).op)
  {
    if Top(s).op == Idle then s else Finish(Advance(s))
  }

  /** What one operation leaves when no interrupt comes in between. */
  lemma UndisturbedStep(rules: Rules, s: State, step: Step)
    requires Enabled(rules, s, step) && (step.Write? || step.Lock? || step.Unlock?)
    ensures var t := Finish(Next(rules, s, step));
            match step
            case Write => t.nesting == s.nesting && t.pending == if s.nesting == 0 then s.pending else s.nesting
            case Lock => t.nesting == Up(s.nesting) && t.pending == s.pending
            case _ =>
              && t.nesting == Down(s.nesting) && t.pending == 0
              && (t.dirty == if s.pending != 0 then {} else s.dirty)
  {
    var next := Next(rules, s, step);
    if step.Write? {
      FinishWrite(next);
    } else if step.Lock? {
      assert Finish(next) == Finish(Advance(next));
    } else if s.pending != 0 {
      assert Finish(next) == Finish(Advance(next)) == Finish(Advance(Advance(next)));
      FinishLeaving(Advance(Advance(next)));
    } else {
      FinishLeaving(next);
    }
  }

  /** The methods of `MmiowbState` are the operations of the machine, run without an interrupt. */
  method Operate(ms: MmiowbState, step: Step, ghost rules: Rules, ghost s: State) returns (barrier: bool)
    requires ms.Valid() && ms.nestingCount == s.nesting && ms.mmiowbPending == s.pending
    requires Enabled(rules, s, step) && (step.Write? || step.Lock? || step.Unlock?)
    modifies ms
    ensures var t := Finish(Next(rules, s, step));
            && ms.Valid() && ms.nestingCount == t.nesting && ms.mmiowbPending == t.pending
            && (barrier ==> t.dirty == {})
            && (step.Unlock? && !barrier ==> t.dirty == s.dirty)
  {
    UndisturbedStep(rules, s, step);
    barrier := false;
    if step.Write? {
      ms.SetPending();
    } else if step.Lock? {
      ms.SpinLock();
    } else {
      barrier := ms.SpinUnlock();
    }
  }

  /** A critical section with `writes` device writes issues a barrier exactly when there was one. */
  method CriticalSection(writes: nat) returns (barrier: bool)
    ensures barrier <==> writes > 0
  {
    var ms := new MmiowbState();
    ms.SpinLock();
    for i := 0 to writes
      invariant ms.Valid() && ms.nestingCount == 1
      invariant ms.mmiowbPending == if i == 0 then 0 else 1
    {
      ms.SetPending();
    }
    barrier := ms.SpinUnlock();
  }

  lemma FinishWrite(s: State)
    requires s.stack != [] && Top(s).op == Written
    ensures Finish(s).nesting == s.nesting
    ensures Finish(s).pending == if s.nesting == 0 then s.pending else s.nesting
  {
    var t := Advance(s);
    if s.nesting != 0 {
      var u := Advance(t);
      assert Finish(t) == Finish(u) == Finish(Advance(u));
    }
  }

  lemma FinishLeaving(s: State)
    requires s.stack != [] && Top(s).op == Leaving
    ensures Finish(s).nesting == Down(s.nesting) && Finish(s).pending == s.pending && Finish(s).dirty == s.dirty
  {
    var t := Advance(s);
    assert Finish(t) == Finish(Advance(t));
  }

  const Start: State := State(0, 0, [Context(0, Idle)], {})

  ghost predicate Run(rules: Rules, s: State, steps: seq<Step>, s': State)
    decreases |steps|
  {
    if steps == [] then s' == s
    else Enabled(rules, s, steps[0]) && Run(rules, Next(rules, s, steps[0]), steps[1..], s')
  }

  ghost predicate Reachable(rules: Rules, s: State) {
    exists steps :: Run(rules, Start, steps, s)
  }

  predicate Marks(op: Op) { op.Written? || op.Nested? || op.Marking? }

  predicate Leaves(op: Op) { op.Leaving? || op.Unlocking? }

  // ---------------------------------------------------------------- counting

  /** The counter follows the locks held, and every loaded value is still right when it is used. */
  ghost predicate Counted(depth: nat, nesting: nat, stack: seq<Context>) {
    && stack != [] && Locks(stack) <= depth && nesting == U16(Locks(stack))
    && forall i :: 0 <= i < |stack| ==> CountedAt(stack, i)
  }

  ghost predicate CountedAt(stack: seq<Context>, i: nat)
    requires i < |stack|
  {
    Knows(stack[i], U16(Locks(stack[..i + 1])))
  }

  /** What a context has seen is right while the counter shows `count`. */
  predicate Knows(c: Context, count: nat) {
    && (c.op.Nested? || c.op.Marking? ==> count != 0)
    && (c.op.Marking? || c.op.Locking? || c.op.Unlocking? ==> c.op.count == count)
    && (c.op.Pending? || c.op.Cleared? || Leaves(c.op) ==> c.locks > 0)
  }

  /** Only the top of the stack changes, so what lies below keeps its count. */
  lemma CountedBelow(stack: seq<Context>, stack': seq<Context>, k: nat, i: nat)
    requires i < k <= |stack| && k <= |stack'| && stack[..k] == stack'[..k]
    requires CountedAt(stack, i)
    ensures CountedAt(stack', i)
  {
    assert stack[..i + 1] == stack[..k][..i + 1] && stack'[..i + 1] == stack'[..k][..i + 1];
    assert stack[i] == stack[..k][i] && stack'[i] == stack'[..k][i];
  }

  lemma CountedTop(depth: nat, s: State, c: Context, nesting: nat)
    requires Counted(depth, s.nesting, s.stack)
    requires var all := Locks(s.stack) - Top(s).locks + c.locks; all <= depth && nesting == U16(all)
    requires Knows(c, nesting)
    ensures Counted(depth, nesting, SetTop(s, c).stack)
  {
    var k, stack := |s.stack| - 1, SetTop(s, c).stack;
    LocksTop(s.stack, c);
    CountedNew(stack, nesting);
    forall i | 0 <= i < k ensures CountedAt(stack, i) {
      assert CountedAt(s.stack, i);
      CountedBelow(s.stack, stack, k, i);
    }
  }

  lemma CountedNew(stack: seq<Context>, nesting: nat)
    requires stack != [] && nesting == U16(Locks(stack)) && Knows(stack[|stack| - 1], nesting)
    ensures CountedAt(stack, |stack| - 1)
  {
    assert stack[..|stack|] == stack;
  }

  lemma LocksTop(stack: seq<Context>, c: Context)
    requires stack != []
    ensures var top := |stack| - 1;
            && stack[top := c][..top] == stack[..top]
            && Locks(stack[top := c]) == Locks(stack) - stack[top].locks + c.locks
  {
    var top := |stack| - 1;
    assert stack[top := c][..top] == stack[..top];
  }

  /** What the top of the stack knows, in terms of the counter itself. */
  lemma TopCounted(depth: nat, s: State)
    requires Counted(depth, s.nesting, s.stack)
    ensures Knows(Top(s), s.nesting)
  {
    var top := |s.stack| - 1;
    assert s.stack[..top + 1] == s.stack && CountedAt(s.stack, top);
  }

  /** A step inside an operation, without a lock more or less. */
  lemma CountedOp(depth: nat, s: State, op: Op)
    requires Counted(depth, s.nesting, s.stack)
    requires Knows(Top(s).(op := op), s.nesting)
    ensures Counted(depth, s.nesting, SetOp(s, op).stack)
  {
    CountedTop(depth, s, Top(s).(op := op), s.nesting);
  }

  lemma CountedStep(rules: Rules, s: State, step: Step)
    requires Counted(rules.depth, s.nesting, s.stack) && Enabled(rules, s, step)
    ensures var t := Next(rules, s, step); Counted(rules.depth, t.nesting, t.stack)
  {
    TopCounted(rules.depth, s);
    match step
    case Interrupt => CountedInterrupt(rules.depth, s);
    case Return => CountedReturn(rules.depth, s);
    case Write => CountedOp(rules.depth, s, Written);
    case Lock => CountedOp(rules.depth, s, Locking(s.nesting));
    case Unlock => CountedOp(rules.depth, s, if s.pending != 0 then Pending else Leaving);
    case Continue => CountedAdvance(rules, s);
  }

  lemma CountedInterrupt(depth: nat, s: State)
    requires Counted(depth, s.nesting, s.stack)
    ensures Counted(depth, s.nesting, s.stack + [Context(0, Idle)])
  {
    var stack := s.stack + [Context(0, Idle)];
    assert stack[..|s.stack|] == s.stack == s.stack[..|s.stack|];
    forall i | 0 <= i < |stack| ensures CountedAt(stack, i) {
      if i < |s.stack| {
        assert CountedAt(s.stack, i);
        CountedBelow(s.stack, stack, |s.stack|, i);
      }
    }
  }

  lemma CountedReturn(depth: nat, s: State)
    requires Counted(depth, s.nesting, s.stack) && |s.stack| > 1 && Top(s).locks == 0
    ensures Counted(depth, s.nesting, s.stack[..|s.stack| - 1])
  {
    var k := |s.stack| - 1;
    var stack := s.stack[..k];
    assert stack[..k] == stack;
    forall i | 0 <= i < |stack| ensures CountedAt(stack, i) {
      assert CountedAt(s.stack, i);
      CountedBelow(s.stack, stack, k, i);
    }
  }

  lemma CountedAdvance(rules: Rules, s: State)
    requires Counted(rules.depth, s.nesting, s.stack) && Enabled(rules, s, Continue)
    ensures var t := Advance(s); Counted(rules.depth, t.nesting, t.stack)
  {
    var d := rules.depth;
    TopCounted(d, s);
    match Top(s).op
    case Written => CountedOp(d, s, if s.nesting != 0 then Nested else Idle);
    case Nested => CountedOp(d, s, Marking(s.nesting));
    case Marking(n) => CountedOp(d, s, Idle);
    case Locking(n) => CountedLock(d, s);
    case Pending => CountedOp(d, s, Cleared);
    case Cleared => CountedOp(d, s, Leaving);
    case Leaving => CountedOp(d, s, Unlocking(s.nesting));
    case Unlocking(n) => CountedUnlock(d, s);
  }

  lemma CountedLock(depth: nat, s: State)
    requires Counted(depth, s.nesting, s.stack) && Top(s).op.Locking? && Locks(s.stack) < depth
    ensures Counted(depth, Up(Top(s).op.count), SetTop(s, Context(Top(s).locks + 1, Idle)).stack)
  {
    TopCounted(depth, s);
    UpCounts(Locks(s.stack));
    CountedTop(depth, s, Context(Top(s).locks + 1, Idle), Up(Top(s).op.count));
  }

  lemma CountedUnlock(depth: nat, s: State)
    requires Counted(depth, s.nesting, s.stack) && Top(s).op.Unlocking? && Top(s).locks > 0
    ensures Counted(depth, Down(Top(s).op.count), SetTop(s, Context(Top(s).locks - 1, Idle)).stack)
  {
    TopCounted(depth, s);
    UpCounts(Locks(s.stack) - 1);
    CountedTop(depth, s, Context(Top(s).locks - 1, Idle), Down(Top(s).op.count));
  }

  lemma {:induction false} RunKeepsCount(rules: Rules, s: State, steps: seq<Step>, s': State)
    requires Counted(rules.depth, s.nesting, s.stack) && Interrupted(rules, s.stack) && Run(rules, s, steps, s')
    ensures Counted(rules.depth, s'.nesting, s'.stack) && Interrupted(rules, s'.stack)
    decreases |steps|
  {
    if steps != [] {
      CountedStep(rules, s, steps[0]);
      RunKeepsCount(rules, Next(rules, s, steps[0]), steps[1..], s');
    }
  }

  /** Every context below the top was interrupted where interrupts arrive. */
  ghost predicate Interrupted(rules: Rules, stack: seq<Context>) {
    forall i :: 0 <= i < |stack| - 1 ==> rules.irq(stack[i].op)
  }

  lemma ReachableCounted(rules: Rules, s: State)
    requires Reachable(rules, s)
    ensures Counted(rules.depth, s.nesting, s.stack) && Interrupted(rules, s.stack)
  {
    var steps :| Run(rules, Start, steps, s);
    StartCounted(rules.depth);
    RunKeepsCount(rules, Start, steps, s);
  }

  lemma StartCounted(depth: nat)
    ensures Counted(depth, 0, Start.stack)
  {
    assert Start.stack[..1] == Start.stack;
  }

  lemma {:induction false} LocksGrow(stack: seq<Context>, i: nat)
    requires i <= |stack|
    ensures Locks(stack[..i]) <= Locks(stack)
    decreases |stack|
  {
    if i < |stack| {
      var below := stack[..|stack| - 1];
      assert stack[..i] == below[..i];
      LocksGrow(below, i);
    } else {
      assert stack[..i] == stack;
    }
  }

  lemma OneContext(stack: seq<Context>)
    requires |stack| == 1
    ensures Locks(stack) == stack[0].locks
  {
    assert stack[..0] == [];
  }

  // ---------------------------------------------------------------- building runs

  lemma {:induction false} RunAppend(rules: Rules, s: State, steps: seq<Step>, s': State, step: Step)
    requires Run(rules, s, steps, s') && Enabled(rules, s', step)
    ensures Run(rules, s, steps + [step], Next(rules, s', step))
    decreases |steps|
  {
    var all := steps + [step];
    assert all[0] == if steps == [] then step else steps[0];
    if steps == [] {
      assert all[1..] == [];
    } else {
      assert all[1..] == steps[1..] + [step];
      RunAppend(rules, Next(rules, s, steps[0]), steps[1..], s', step);
    }
  }

  lemma Reach(rules: Rules, s: State, step: Step)
    requires Reachable(rules, s) && Enabled(rules, s, step)
    ensures Reachable(rules, Next(rules, s, step))
  {
    var steps :| Run(rules, Start, steps, s);
    RunAppend(rules, Start, steps, s, step);
  }

  /** One context holding `k` locks, at `op`. */
  function Alone(k: nat, op: Op, pending: nat, dirty: set<nat>): State {
    State(U16(k), pending, [Context(k, op)], dirty)
  }

  lemma LockOnce(rules: Rules, k: nat, pending: nat, dirty: set<nat>)
    requires k < rules.depth && Reachable(rules, Alone(k, Idle, pending, dirty))
    ensures Reachable(rules, Alone(k + 1, Idle, pending, dirty))
  {
    var s, t := Alone(k, Idle, pending, dirty), Alone(k, Locking(U16(k)), pending, dirty);
    Reach(rules, s, Lock);
    assert Next(rules, s, Lock) == t;
    OneContext(t.stack);
    Reach(rules, t, Continue);
    UpCounts(k);
    assert Advance(t) == Alone(k + 1, Idle, pending, dirty);
  }

  lemma {:induction false} LockAgain(rules: Rules, k: nat)
    requires k <= rules.depth
    ensures Reachable(rules, Alone(k, Idle, 0, {}))
  {
    if k == 0 {
      assert Run(rules, Start, [], Start);
      assert Alone(0, Idle, 0, {}) == Start;
    } else {
      LockAgain(rules, k - 1);
      LockOnce(rules, k - 1, 0, {});
    }
  }

  lemma WriteAlone(rules: Rules, k: nat)
    requires 0 < k < TWO16 && Reachable(rules, Alone(k, Idle, 0, {}))
    ensures Reachable(rules, Alone(k, Idle, k, {0}))
  {
    var s0, s1 := Alone(k, Idle, 0, {}), Alone(k, Written, 0, {0});
    Reach(rules, s0, Write);
    assert Next(rules, s0, Write) == s1;
    var s2, s3 := Alone(k, Nested, 0, {0}), Alone(k, Marking(k), 0, {0});
    Reach(rules, s1, Continue);
    assert Advance(s1) == s2;
    Reach(rules, s2, Continue);
    assert Advance(s2) == s3;
    Reach(rules, s3, Continue);
    assert Advance(s3) == Alone(k, Idle, k, {0});
  }

  /** An unlock stopped between the clearing store and the barrier. */
  lemma ClearedAlone(rules: Rules)
    requires rules.depth > 0
    ensures Reachable(rules, Alone(1, Cleared, 0, {0}))
  {
    LockAgain(rules, 1);
    WriteAlone(rules, 1);
    var s, t := Alone(1, Idle, 1, {0}), Alone(1, Pending, 1, {0});
    Reach(rules, s, Unlock);
    assert Next(rules, s, Unlock) == t;
    Reach(rules, t, Continue);
    assert Advance(t) == Alone(1, Cleared, 0, {0});
  }

  /** An unlock of the innermost of `k` locks with nothing pending, before the load and before the store. */
  lemma LeavingAlone(rules: Rules, k: nat)
    requires 0 < k <= rules.depth
    ensures Reachable(rules, Alone(k, Leaving, 0, {})) && Reachable(rules, Alone(k, Unlocking(U16(k)), 0, {}))
  {
    LockAgain(rules, k);
    var s, t := Alone(k, Idle, 0, {}), Alone(k, Leaving, 0, {});
    Reach(rules, s, Unlock);
    assert Next(rules, s, Unlock) == t;
    Reach(rules, t, Continue);
    assert Advance(t) == Alone(k, Unlocking(U16(k)), 0, {});
  }
}
