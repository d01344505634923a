/**
 How long mmiowb_pending stays set (asm-generic/mmiowb.h): it never exceeds nesting_count, and
 so is zero with no lock held, exactly under the rules stated here.
 */
module MmiowbBound {
  import opened Bits
  import opened Mmiowb

  predicate PendingBounded(s: State) {
    s.pending <= s.nesting
  }

  ghost predicate AlwaysBounded(rules: Rules) {
    forall s :: Reachable(rules, s) ==> PendingBounded(s)
  }

  /** Past the point where an unlock would still notice a mark. */
  predicate Gone(op: Op) { op.Cleared? || op.Leaving? || op.Unlocking? }

  /** The context still has an unlock ahead that will notice a mark. */
  predicate Keeps(c: Context) { c.locks > 0 || c.op.Locking? }

  /**
   Going down from the top of the stack, a context that holds or is taking a lock comes before
   any that is past the test of mmiowb_pending in its unlock.
   */
  predicate Kept(stack: seq<Context>) {
    if stack == [] then false
    else
      var c := stack[|stack| - 1];
      !Gone(c.op) && (Keeps(c) || Kept(stack[..|stack| - 1]))
  }

  function Below(s: State): seq<Context>
    requires s.stack != []
  {
    s.stack[..|s.stack| - 1]
  }

  /** A handler without a lock of its own may write here, above code that holds one. */
  ghost predicate Intrudes(rules: Rules, s: State) {
    && |s.stack| > 1 && Top(s) == Context(0, Idle)
    && rules.may(s) && s.nesting != 0
  }

  // ---------------------------------------------------------------- the invariant

  /** What is pending belongs to a context that will notice it before the count drops below it. */
  ghost predicate Owned(pending: nat, stack: seq<Context>) {
    pending != 0 ==> exists i: nat :: OwnedBy(pending, stack, i)
  }

  ghost predicate OwnedBy(pending: nat, stack: seq<Context>, i: nat) {
    && i < |stack| && Keeps(stack[i]) && pending <= Locks(stack[..i + 1])
    && forall j :: i <= j < |stack| ==> !Gone(stack[j].op)
  }

  /** Whoever records a write holds a lock, or stands above a context that keeps the mark. */
  ghost predicate MarksKept(stack: seq<Context>) {
    forall i :: 0 <= i < |stack| ==> MarkKept(stack, i)
  }

  ghost predicate MarkKept(stack: seq<Context>, i: nat)
    requires i < |stack|
  {
    Marks(stack[i].op) && stack[i].locks == 0 && Locks(stack[..i]) != 0 ==> Kept(stack[..i])
  }

  lemma {:induction false} KeptOwner(stack: seq<Context>) returns (i: nat)
    requires Kept(stack)
    ensures OwnedBy(Locks(stack), stack, i)
  {
    var top := |stack| - 1;
    if Keeps(stack[top]) {
      i := top;
      assert stack[..top + 1] == stack;
    } else {
      i := KeptOwner(stack[..top]);
      assert stack[..top][..i + 1] == stack[..i + 1];
      assert forall j :: i <= j < top ==> stack[j] == stack[..top][j];
    }
  }

  lemma OwnedIsBounded(depth: nat, s: State)
    requires depth <= MAX_DEPTH && Counted(depth, s.nesting, s.stack) && Owned(s.pending, s.stack)
    ensures PendingBounded(s)
  {
    if s.pending != 0 {
      var i: nat :| OwnedBy(s.pending, s.stack, i);
      LocksGrow(s.stack, i + 1);
    }
  }

  /** The owner stays the owner while the top of the stack goes on without leaving. */
  lemma OwnedTop(s: State, c: Context)
    requires s.stack != [] && Owned(s.pending, s.stack) && c.locks >= Top(s).locks
    requires s.pending == 0 || (!Gone(c.op) && (Keeps(Top(s)) ==> Keeps(c)))
    ensures Owned(s.pending, SetTop(s, c).stack)
  {
    if s.pending != 0 {
      var stack := SetTop(s, c).stack;
      var top := |s.stack| - 1;
      var i: nat :| OwnedBy(s.pending, s.stack, i);
      if i < top {
        assert stack[..i + 1] == s.stack[..i + 1];
      } else {
        assert stack[..top + 1] == stack && s.stack[..top + 1] == s.stack && stack[..top] == s.stack[..top];
      }
      assert OwnedBy(s.pending, stack, i);
    }
  }

  lemma OwnedInterrupt(s: State)
    requires Owned(s.pending, s.stack)
    ensures Owned(s.pending, s.stack + [Context(0, Idle)])
  {
    if s.pending != 0 {
      var stack := s.stack + [Context(0, Idle)];
      var i: nat :| OwnedBy(s.pending, s.stack, i);
      assert stack[..i + 1] == s.stack[..i + 1];
      assert OwnedBy(s.pending, stack, i);
    }
  }

  lemma OwnedReturn(s: State)
    requires s.stack != [] && Owned(s.pending, s.stack) && Top(s) == Context(0, Idle)
    ensures Owned(s.pending, s.stack[..|s.stack| - 1])
  {
    if s.pending != 0 {
      var stack := s.stack[..|s.stack| - 1];
      var i: nat :| OwnedBy(s.pending, s.stack, i);
      assert stack[..i + 1] == s.stack[..i + 1];
      assert OwnedBy(s.pending, stack, i);
    }
  }

  lemma OwnedMark(depth: nat, s: State)
    requires depth <= MAX_DEPTH && Counted(depth, s.nesting, s.stack) && Top(s).op.Marking? && MarksKept(s.stack)
    ensures Owned(s.nesting, SetOp(s, Idle).stack)
  {
    var top, stack := |s.stack| - 1, SetOp(s, Idle).stack;
    TopCounted(depth, s);
    LocksTop(s.stack, stack[top]);
    if Top(s).locks > 0 {
      OwnedByTop(s.nesting, stack);
    } else {
      assert MarkKept(s.stack, top);
      var i := KeptOwner(s.stack[..top]);
      OwnedAbove(s.nesting, stack, i);
    }
  }

  lemma OwnedByTop(pending: nat, stack: seq<Context>)
    requires stack != [] && stack[|stack| - 1].locks > 0 && stack[|stack| - 1].op == Idle && pending <= Locks(stack)
    ensures Owned(pending, stack)
  {
    assert stack[..|stack|] == stack;
    assert OwnedBy(pending, stack, |stack| - 1);
  }

  lemma OwnedAbove(pending: nat, stack: seq<Context>, i: nat)
    requires stack != [] && OwnedBy(pending, stack[..|stack| - 1], i) && !Gone(stack[|stack| - 1].op)
    ensures OwnedBy(pending, stack, i)
  {
    var below := stack[..|stack| - 1];
    assert below[..i + 1] == stack[..i + 1];
    assert forall j :: i <= j < |below| ==> below[j] == stack[j];
  }

  /** A context past the test finds nothing pending. */
  lemma GoneFindsNothing(s: State)
    requires s.stack != [] && Owned(s.pending, s.stack) && Gone(Top(s).op)
    ensures s.pending == 0
  {
    var top := |s.stack| - 1;
    assert forall i: nat | i <= top :: !OwnedBy(s.pending, s.stack, i) by {
      assert s.stack[top] == Top(s);
    }
  }

  lemma MarksKeptStep(rules: Rules, s: State, step: Step)
    requires rules.depth <= MAX_DEPTH && Counted(rules.depth, s.nesting, s.stack)
    requires Enabled(rules, s, step) && MarksKept(s.stack)
    requires Intrudes(rules, s) ==> Kept(Below(s))
    ensures MarksKept(Next(rules, s, step).stack)
  {
    var stack, top := Next(rules, s, step).stack, |s.stack| - 1;
    forall i | 0 <= i < |stack| ensures MarkKept(stack, i) {
      if i <= top {
        assert stack[..i] == s.stack[..i];
        assert MarkKept(s.stack, i);
        if i == top && step == Write { LocksTop(s.stack, Top(s).(op := Written)); }
      }
    }
  }

  lemma OwnedStep(rules: Rules, s: State, step: Step)
    requires rules.depth <= MAX_DEPTH && Counted(rules.depth, s.nesting, s.stack)
    requires Enabled(rules, s, step) && Owned(s.pending, s.stack) && MarksKept(s.stack)
    ensures var t := Next(rules, s, step); Owned(t.pending, t.stack)
  {
    match step
    case Interrupt => OwnedInterrupt(s);
    case Return => OwnedReturn(s);
    case Write => OwnedTop(s, Top(s).(op := Written));
    case Lock => OwnedTop(s, Top(s).(op := Locking(s.nesting)));
    case Unlock => OwnedTop(s, Top(s).(op := if s.pending != 0 then Pending else Leaving));
    case Continue => OwnedAdvance(rules, s);
  }

  lemma OwnedAdvance(rules: Rules, s: State)
    requires rules.depth <= MAX_DEPTH && Counted(rules.depth, s.nesting, s.stack)
    requires Enabled(rules, s, Continue) && Owned(s.pending, s.stack) && MarksKept(s.stack)
    ensures var t := Advance(s); Owned(t.pending, t.stack)
  {
    var c := Top(s);
    TopCounted(rules.depth, s);
    match c.op
    case Written => OwnedTop(s, c.(op := if s.nesting != 0 then Nested else Idle));
    case Nested => OwnedTop(s, c.(op := Marking(s.nesting)));
    case Marking(n) => OwnedMark(rules.depth, s);
    case Locking(n) => OwnedTop(s, Context(c.locks + 1, Idle));
    case Pending =>
    case Cleared => GoneFindsNothing(s);
    case Leaving => GoneFindsNothing(s);
    case Unlocking(n) => GoneFindsNothing(s);
  }

  /** No handler ever writes without a lock where the mark would not be noticed. */
  ghost predicate NoStrayMark(rules: Rules) {
    forall s :: Reachable(rules, s) && Intrudes(rules, s) ==> Kept(Below(s))
  }

  lemma {:induction false} RunKeepsOwner(rules: Rules, s: State, steps: seq<Step>, s': State)
    requires rules.depth <= MAX_DEPTH && NoStrayMark(rules) && Reachable(rules, s) && Run(rules, s, steps, s')
    requires Owned(s.pending, s.stack) && MarksKept(s.stack)
    ensures Owned(s'.pending, s'.stack) && MarksKept(s'.stack)
    decreases |steps|
  {
    if steps != [] {
      ReachableCounted(rules, s);
      OwnedStep(rules, s, steps[0]);
      MarksKeptStep(rules, s, steps[0]);
      Reach(rules, s, steps[0]);
      RunKeepsOwner(rules, Next(rules, s, steps[0]), steps[1..], s');
    }
  }

  lemma ReachableBounded(rules: Rules, s: State)
    requires rules.depth <= MAX_DEPTH && NoStrayMark(rules) && Reachable(rules, s)
    ensures PendingBounded(s)
  {
    var steps :| Run(rules, Start, steps, s);
    assert Run(rules, Start, [], Start);
    RunKeepsOwner(rules, Start, steps, s);
    ReachableCounted(rules, s);
    OwnedIsBounded(rules.depth, s);
  }

  // ---------------------------------------------------------------- runs that break it

  /** A write recorded under 2^16 - 1 locks is still pending when one more makes the counter show none. */
  lemma DeepNestingLeavesPending(rules: Rules, k: nat) returns (s: State)
    requires k == MAX_DEPTH < rules.depth
    ensures Reachable(rules, s) && s.nesting == 0 && s.pending == k
  {
    LockAgain(rules, k);
    WriteAlone(rules, k);
    LockOnce(rules, k, k, {0});
    s := Alone(k + 1, Idle, k, {0});
    UpCounts(k);
  }

  /** The lock on top is given up with the mark still there. */
  lemma GoneLeavesMark(rules: Rules, s: State) returns (t: State)
    requires rules.depth <= MAX_DEPTH && Reachable(rules, s)
    requires s.stack != [] && Gone(Top(s).op) && s.pending == s.nesting
    ensures Reachable(rules, t) && t.pending > t.nesting
    decreases Left(Top(s).op)
  {
    ReachableCounted(rules, s);
    TopCounted(rules.depth, s);
    Reach(rules, s, Continue);
    t := Advance(s);
    if Top(s).op.Unlocking? {
      assert 0 < s.nesting <= MAX_DEPTH;
    } else {
      t := GoneLeavesMark(rules, t);
    }
  }

  /** A context without a lock finishes what it is doing and leaves the mark as it is. */
  lemma FinishesMarking(rules: Rules, s: State) returns (t: State)
    requires rules.depth <= MAX_DEPTH && Reachable(rules, s)
    requires s.stack != [] && (Marks(Top(s).op) || Top(s).op == Idle) && s.pending == s.nesting != 0
    ensures Reachable(rules, t) && t == SetOp(s, Idle)
    decreases Left(Top(s).op)
  {
    t := s;
    if Top(s).op != Idle {
      ReachableCounted(rules, s);
      TopCounted(rules.depth, s);
      Reach(rules, s, Continue);
      t := FinishesMarking(rules, Advance(s));
    }
  }

  /** Once a mark is set that nobody keeps, the handlers return and a lock is given up with it still there. */
  lemma StrayMarkStays(rules: Rules, s: State) returns (t: State)
    requires rules.depth <= MAX_DEPTH && Reachable(rules, s)
    requires s.stack != [] && !Kept(s.stack) && s.pending == s.nesting != 0
    ensures Reachable(rules, t) && t.pending > t.nesting
    decreases |s.stack|
  {
    ReachableCounted(rules, s);
    TopCounted(rules.depth, s);
    if Gone(Top(s).op) {
      t := GoneLeavesMark(rules, s);
    } else {
      var u := FinishesMarking(rules, s);
      if |s.stack| == 1 { OneContext(s.stack); }
      Reach(rules, u, Return);
      var v := Next(rules, u, Return);
      assert v.stack == Below(s);
      t := StrayMarkStays(rules, v);
    }
  }

  /** A write without a lock, above code that holds one and does not keep the mark, ends with the mark too high. */
  lemma StrayWrite(rules: Rules, s: State) returns (t: State)
    requires rules.depth <= MAX_DEPTH && Reachable(rules, s) && Intrudes(rules, s) && !Kept(Below(s))
    ensures Reachable(rules, t) && t.pending > t.nesting
  {
    Reach(rules, s, Write);
    var a := SetOp(s, Written);
    assert Next(rules, s, Write) == a;
    Reach(rules, a, Continue);
    var b := SetOp(s, Nested);
    assert Advance(a) == b;
    Reach(rules, b, Continue);
    var c := SetOp(s, Marking(s.nesting));
    assert Advance(b) == c;
    Reach(rules, c, Continue);
    var d := s.(pending := s.nesting);
    assert Advance(c) == d;
    assert d.stack[..|d.stack| - 1] == Below(s);
    t := StrayMarkStays(rules, d);
  }

  // ---------------------------------------------------------------- main results

  /**
   mmiowb_pending never exceeds nesting_count, in any run, exactly when at most 2^16 - 1 locks
   nest and no handler writes without a lock where nobody below it will notice the mark.
   */
  lemma BoundedExactly(rules: Rules)
    ensures AlwaysBounded(rules) <==> rules.depth <= MAX_DEPTH && NoStrayMark(rules)
  {
    if rules.depth > MAX_DEPTH {
      var s := DeepNestingLeavesPending(rules, MAX_DEPTH);
      assert !PendingBounded(s);
    } else if NoStrayMark(rules) {
      forall s | Reachable(rules, s) ensures PendingBounded(s) {
        ReachableBounded(rules, s);
      }
    } else {
      var s :| Reachable(rules, s) && Intrudes(rules, s) && !Kept(Below(s));
      var t := StrayWrite(rules, s);
      assert !PendingBounded(t);
    }
  }

  /** Handlers without a lock write only above contexts that were all interrupted at such positions. */
  function ByPosition(depth: nat, irq: Op -> bool, above: Op -> bool): Rules {
    Rules(depth, irq, (s: State) => forall i :: 0 <= i < |s.stack| - 1 ==> above(s.stack[i].op))
  }

  /** Interrupts arrive at this position and handlers above it may write without a lock. */
  predicate Open(irq: Op -> bool, above: Op -> bool, op: Op) {
    irq(op) && above(op)
  }

  /**
   For rules that go by positions alone: exactly the three positions past the test of
   mmiowb_pending must be closed, either to interrupts or to writes without a lock.
   */
  lemma BoundedIff(depth: nat, irq: Op -> bool, above: Op -> bool)
    ensures AlwaysBounded(ByPosition(depth, irq, above)) <==>
            || depth == 0
            || (&& depth <= MAX_DEPTH
                && !Open(irq, above, Cleared) && !Open(irq, above, Leaving)
                && forall n: nat :: 0 < n <= depth ==> !Open(irq, above, Unlocking(n)))
  {
    var rules := ByPosition(depth, irq, above);
    BoundedExactly(rules);
    if depth <= MAX_DEPTH {
      if depth == 0 {
        forall s | Reachable(rules, s) ensures !Intrudes(rules, s) { ReachableCounted(rules, s); }
      } else {
        OpenOrClosed(depth, irq, above);
      }
    }
  }

  lemma OpenOrClosed(depth: nat, irq: Op -> bool, above: Op -> bool)
    requires 0 < depth <= MAX_DEPTH
    ensures NoStrayMark(ByPosition(depth, irq, above)) <==>
            && !Open(irq, above, Cleared) && !Open(irq, above, Leaving)
            && forall n: nat :: 0 < n <= depth ==> !Open(irq, above, Unlocking(n))
  {
    var rules := ByPosition(depth, irq, above);
    if Open(irq, above, Cleared) {
      ClearedAlone(rules);
      OpenPosition(rules, 1, Cleared, {0});
    } else if Open(irq, above, Leaving) {
      LeavingAlone(rules, 1);
      OpenPosition(rules, 1, Leaving, {});
    } else if n: nat :| 0 < n <= depth && Open(irq, above, Unlocking(n)) {
      LeavingAlone(rules, n);
      OpenPosition(rules, n, Unlocking(n), {});
    } else {
      forall s | Reachable(rules, s) && Intrudes(rules, s) ensures Kept(Below(s)) {
        ClosedPositions(depth, irq, above, s);
      }
    }
  }

  /** An open position is reached with one context below the handler, and that one does not keep the mark. */
  lemma OpenPosition(rules: Rules, k: nat, op: Op, dirty: set<nat>)
    requires 0 < k <= rules.depth <= MAX_DEPTH && Gone(op) && Reachable(rules, Alone(k, op, 0, dirty))
    requires rules.irq(op) && rules.may(State(U16(k), 0, [Context(k, op), Context(0, Idle)], dirty))
    ensures !NoStrayMark(rules)
  {
    var s, t := Alone(k, op, 0, dirty), State(U16(k), 0, [Context(k, op), Context(0, Idle)], dirty);
    Reach(rules, s, Interrupt);
    assert Next(rules, s, Interrupt) == t;
    assert Below(t) == [Context(k, op)];
    assert Intrudes(rules, t);
  }

  lemma ClosedPositions(depth: nat, irq: Op -> bool, above: Op -> bool, s: State)
    requires var rules := ByPosition(depth, irq, above); Reachable(rules, s) && Intrudes(rules, s)
    requires 0 < depth <= MAX_DEPTH && !Open(irq, above, Cleared) && !Open(irq, above, Leaving)
    requires forall n: nat :: 0 < n <= depth ==> !Open(irq, above, Unlocking(n))
    ensures Kept(Below(s))
  {
    var rules, below := ByPosition(depth, irq, above), Below(s);
    ReachableCounted(rules, s);
    forall i | 0 <= i < |below| ensures !Gone(below[i].op) {
      assert below[i] == s.stack[i] && rules.irq(s.stack[i].op) && CountedAt(s.stack, i);
      LocksGrow(s.stack, i + 1);
      assert s.stack[..i + 1][..i] == s.stack[..i];
    }
    SomebodyKeeps(below);
  }

  lemma {:induction false} SomebodyKeeps(stack: seq<Context>)
    requires Locks(stack) > 0 && forall i :: 0 <= i < |stack| ==> !Gone(stack[i].op)
    ensures Kept(stack)
  {
    if !Keeps(stack[|stack| - 1]) { SomebodyKeeps(stack[..|stack| - 1]); }
  }
}
