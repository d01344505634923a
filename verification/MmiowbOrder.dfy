/**
 When barriers come (asm-generic/mmiowb.h): what is certain when a lock is given up, and when
 every write made under a lock of its own has its barrier no later than the next unlock on its
 CPU.
 */
module MmiowbOrder {
  import opened Bits
  import opened Mmiowb

  /** The write of context `h` is still being recorded, or a barrier is about to be issued below `top`. */
  ghost predicate UnderWay(stack: seq<Context>, h: nat, top: nat)
    requires h < |stack| && top <= |stack|
  {
    Marks(stack[h].op) || exists g :: h <= g < top && stack[g].op == Cleared
  }

  /**
   When a lock is about to be given up, every write its context made under a lock has had a
   barrier; and so has every recorded write of an interrupted context, unless the barrier for
   it was itself interrupted and comes first thing when that context goes on.
   */
  ghost predicate ReleaseOrdered(s: State) {
    s.stack != [] && Top(s).op.Unlocking? ==>
      var top := |s.stack| - 1;
      top !in s.dirty && forall h :: h in s.dirty ==> h < top && UnderWay(s.stack, h, top)
  }

  /**
   When a lock is about to be given up, every write on this CPU made under a lock of the writing
   context's own has had its barrier, whatever context that was.
   */
  predicate NextUnlockOrdered(s: State) {
    s.stack != [] && Top(s).op.Unlocking? ==> s.dirty == {}
  }

  ghost predicate AlwaysOrdered(rules: Rules) {
    forall s :: Reachable(rules, s) ==> ReleaseOrdered(s)
  }

  ghost predicate AlwaysNextUnlock(rules: Rules) {
    forall s :: Reachable(rules, s) ==> NextUnlockOrdered(s)
  }

  // ---------------------------------------------------------------- the invariant

  ghost predicate Ordered(s: State) {
    && (forall h :: h in s.dirty ==> h < |s.stack| && s.stack[h].locks > 0)
    && (forall h :: h in s.dirty ==> s.pending != 0 || UnderWay(s.stack, h, |s.stack|))
    && forall h, j :: h in s.dirty && h <= j < |s.stack| && Leaves(s.stack[j].op) ==> UnderWay(s.stack, h, j)
  }

  /** A step that neither clears mmiowb_pending nor issues the barrier. */
  lemma OrderedTop(s: State, c: Context, nesting: nat)
    requires s.stack != [] && Ordered(s) && Top(s).op != Cleared
    requires |s.stack| - 1 in s.dirty ==>
               c.locks > 0 && (Marks(Top(s).op) ==> Marks(c.op))
    requires Leaves(c.op) ==> Leaves(Top(s).op) || (s.pending == 0 && !Marks(Top(s).op))
    ensures Ordered(SetTop(s, c).(nesting := nesting))
  {
    var top := |s.stack| - 1;
    var stack := SetTop(s, c).stack;
    forall h | h in s.dirty ensures s.pending != 0 || UnderWay(stack, h, |stack|) {
      if s.pending == 0 {
        assert UnderWay(s.stack, h, top + 1);
        UnderWayKept(s.stack, stack, h, top + 1, top + 1);
      }
    }
    forall h, j | h in s.dirty && h <= j < |stack| && Leaves(stack[j].op) ensures UnderWay(stack, h, j) {
      if j < top || Leaves(Top(s).op) {
        assert UnderWay(s.stack, h, j);
        UnderWayKept(s.stack, stack, h, j, j);
      } else {
        assert UnderWay(s.stack, h, top + 1);
        UnderWayKept(s.stack, stack, h, top + 1, top + 1);
      }
    }
  }

  lemma UnderWayKept(stack: seq<Context>, stack': seq<Context>, h: nat, top: nat, top': nat)
    requires h < |stack| && h < |stack'| && top <= |stack| && top' <= |stack'|
    requires UnderWay(stack, h, top)
    requires Marks(stack[h].op) ==> Marks(stack'[h].op)
    requires forall g :: h <= g < top && stack[g].op == Cleared ==> g < top' && stack'[g].op == Cleared
    ensures UnderWay(stack', h, top')
  {
    if !Marks(stack[h].op) {
      var g :| h <= g < top && stack[g].op == Cleared;
      assert stack'[g].op == Cleared;
    }
  }

  lemma OrderedInterrupt(s: State)
    requires Ordered(s)
    ensures Ordered(s.(stack := s.stack + [Context(0, Idle)]))
  {
    var stack := s.stack + [Context(0, Idle)];
    forall h | h in s.dirty ensures s.pending != 0 || UnderWay(stack, h, |stack|) {
      if s.pending == 0 { UnderWayKept(s.stack, stack, h, |s.stack|, |stack|); }
    }
    forall h, j | h in s.dirty && h <= j < |stack| && Leaves(stack[j].op) ensures UnderWay(stack, h, j) {
      assert UnderWay(s.stack, h, j);
      UnderWayKept(s.stack, stack, h, j, j);
    }
  }

  lemma OrderedReturn(s: State)
    requires s.stack != [] && Ordered(s) && Top(s) == Context(0, Idle)
    ensures Ordered(s.(stack := s.stack[..|s.stack| - 1], dirty := s.dirty - {|s.stack| - 1}))
  {
    var top := |s.stack| - 1;
    var stack := s.stack[..top];
    forall h | h in s.dirty && h != top ensures s.pending != 0 || UnderWay(stack, h, |stack|) {
      if s.pending == 0 { UnderWayKept(s.stack, stack, h, |s.stack|, |stack|); }
    }
    forall h, j | h in s.dirty && h != top && h <= j < |stack| && Leaves(stack[j].op)
      ensures UnderWay(stack, h, j)
    {
      assert UnderWay(s.stack, h, j);
      UnderWayKept(s.stack, stack, h, j, j);
    }
  }

  /** A write under the context's own lock becomes dirty while it is being recorded. */
  lemma OrderedWrite(s: State)
    requires s.stack != [] && Ordered(s) && Top(s).op == Idle && Top(s).locks > 0
    ensures Ordered(SetOp(s, Written).(dirty := s.dirty + {|s.stack| - 1}))
  {
    var top := |s.stack| - 1;
    OrderedTop(s, Top(s).(op := Written), s.nesting);
    var stack := SetOp(s, Written).stack;
    assert UnderWay(stack, top, top + 1);
  }

  /** mmiowb_pending is set to a nonzero value. */
  lemma OrderedMark(s: State, n: nat)
    requires s.stack != [] && Ordered(s) && Top(s).op.Marking? && n != 0
    ensures Ordered(SetOp(s, Idle).(pending := n))
  {
    var stack := SetOp(s, Idle).stack;
    forall h, j | h in s.dirty && h <= j < |stack| && Leaves(stack[j].op) ensures UnderWay(stack, h, j) {
      assert UnderWay(s.stack, h, j);
      UnderWayKept(s.stack, stack, h, j, j);
    }
  }

  /** mmiowb_pending is cleared, with the barrier still to come. */
  lemma OrderedClear(s: State)
    requires s.stack != [] && Ordered(s) && Top(s).op == Pending
    ensures Ordered(SetOp(s, Cleared).(pending := 0))
  {
    var top := |s.stack| - 1;
    var stack := SetOp(s, Cleared).stack;
    assert stack[top].op == Cleared;
    forall h, j | h in s.dirty && h <= j < |stack| && Leaves(stack[j].op) ensures UnderWay(stack, h, j) {
      assert UnderWay(s.stack, h, j);
      UnderWayKept(s.stack, stack, h, j, j);
    }
  }

  /** A context past its barrier has nothing dirty. */
  lemma LeavingIsClean(s: State)
    requires s.stack != [] && Ordered(s) && Leaves(Top(s).op)
    ensures |s.stack| - 1 !in s.dirty
  {
    var top := |s.stack| - 1;
    assert Leaves(s.stack[top].op);
  }

  lemma OrderedStep(rules: Rules, s: State, step: Step)
    requires rules.depth <= MAX_DEPTH && Counted(rules.depth, s.nesting, s.stack)
    requires Enabled(rules, s, step) && Ordered(s)
    ensures Ordered(Next(rules, s, step))
  {
    match step
    case Interrupt => OrderedInterrupt(s);
    case Return => OrderedReturn(s);
    case Write =>
      if Top(s).locks > 0 { OrderedWrite(s); } else { OrderedTop(s, Top(s).(op := Written), s.nesting); }
    case Lock => OrderedTop(s, Top(s).(op := Locking(s.nesting)), s.nesting);
    case Unlock => OrderedTop(s, Top(s).(op := if s.pending != 0 then Pending else Leaving), s.nesting);
    case Continue => OrderedAdvance(rules, s);
  }

  lemma OrderedAdvance(rules: Rules, s: State)
    requires rules.depth <= MAX_DEPTH && Counted(rules.depth, s.nesting, s.stack)
    requires Enabled(rules, s, Continue) && Ordered(s)
    ensures Ordered(Advance(s))
  {
    var c := Top(s);
    TopCounted(rules.depth, s);
    match c.op
    case Written => OrderedTop(s, c.(op := if s.nesting != 0 then Nested else Idle), s.nesting);
    case Nested => OrderedTop(s, c.(op := Marking(s.nesting)), s.nesting);
    case Marking(n) => OrderedMark(s, n);
    case Locking(n) => OrderedTop(s, Context(c.locks + 1, Idle), Up(n));
    case Pending => OrderedClear(s);
    case Cleared =>
    case Leaving => OrderedTop(s, c.(op := Unlocking(s.nesting)), s.nesting);
    case Unlocking(n) =>
      LeavingIsClean(s);
      OrderedTop(s, Context(c.locks - 1, Idle), Down(n));
  }

  lemma {:induction false} RunKeepsOrder(rules: Rules, s: State, steps: seq<Step>, s': State)
    requires rules.depth <= MAX_DEPTH && Counted(rules.depth, s.nesting, s.stack) && Ordered(s)
    requires Run(rules, s, steps, s')
    ensures Counted(rules.depth, s'.nesting, s'.stack) && Ordered(s')
    decreases |steps|
  {
    if steps != [] {
      CountedStep(rules, s, steps[0]);
      OrderedStep(rules, s, steps[0]);
      RunKeepsOrder(rules, Next(rules, s, steps[0]), steps[1..], s');
    }
  }

  lemma OrderedRelease(s: State)
    requires s.stack != [] && Ordered(s)
    ensures ReleaseOrdered(s)
  {
    var top := |s.stack| - 1;
    if Top(s).op.Unlocking? {
      LeavingIsClean(s);
      forall h | h in s.dirty ensures h < top && UnderWay(s.stack, h, top) { assert Leaves(s.stack[top].op); }
    }
  }

  lemma ReachableOrdered(rules: Rules, s: State)
    requires rules.depth <= MAX_DEPTH && Reachable(rules, s)
    ensures Counted(rules.depth, s.nesting, s.stack) && Ordered(s)
  {
    var steps :| Run(rules, Start, steps, s);
    StartCounted(rules.depth);
    RunKeepsOrder(rules, Start, steps, s);
  }

  // ---------------------------------------------------------------- runs that break it

  /** With 2^16 locks held the counter shows none: a write is not recorded and no barrier follows it. */
  lemma DeepNestingLosesBarrier(rules: Rules, k: nat) returns (s: State)
    requires k == TWO16 <= rules.depth
    ensures Reachable(rules, s) && !ReleaseOrdered(s) && !NextUnlockOrdered(s)
  {
    LockAgain(rules, k);
    var s0, s1 := Alone(k, Idle, 0, {}), Alone(k, Written, 0, {0});
    Reach(rules, s0, Write);
    assert Next(rules, s0, Write) == s1;
    var s2, s3 := Alone(k, Idle, 0, {0}), Alone(k, Leaving, 0, {0});
    Reach(rules, s1, Continue);
    assert Advance(s1) == s2;
    Reach(rules, s2, Unlock);
    assert Next(rules, s2, Unlock) == s3;
    s := Alone(k, Unlocking(0), 0, {0});
    Reach(rules, s3, Continue);
    assert Advance(s3) == s;
  }

  /** A context that has written under `k` locks, with the record or the barrier still to come, below a handler. */
  function Above(k: nat, op: Op, c: Context): State {
    State(U16(k + c.locks), 0, [Context(k, op), c], {0})
  }

  /** A handler that takes and gives up a lock there finds nothing pending and issues no barrier. */
  lemma HandlerUnlocksFirst(rules: Rules, k: nat, op: Op) returns (s: State)
    requires 0 < k < rules.depth && rules.irq(op) && Reachable(rules, Alone(k, op, 0, {0}))
    ensures Reachable(rules, s) && !NextUnlockOrdered(s)
  {
    Reach(rules, Alone(k, op, 0, {0}), Interrupt);
    assert Next(rules, Alone(k, op, 0, {0}), Interrupt) == Above(k, op, Context(0, Idle));
    HandlerLocks(rules, k, op);
    var t := Above(k, op, Context(1, Idle));
    Reach(rules, t, Unlock);
    var u := Above(k, op, Context(1, Leaving));
    assert Next(rules, t, Unlock) == u;
    s := Above(k, op, Context(1, Unlocking(U16(k + 1))));
    Reach(rules, u, Continue);
    assert Advance(u) == s;
  }

  lemma HandlerLocks(rules: Rules, k: nat, op: Op)
    requires k < rules.depth && Reachable(rules, Above(k, op, Context(0, Idle)))
    ensures Reachable(rules, Above(k, op, Context(1, Idle)))
  {
    var s, t := Above(k, op, Context(0, Idle)), Above(k, op, Context(0, Locking(U16(k))));
    Reach(rules, s, Lock);
    assert Next(rules, s, Lock) == t;
    OneContext(t.stack[..1]);
    Reach(rules, t, Continue);
    UpCounts(k);
    assert Advance(t) == Above(k, op, Context(1, Idle));
  }

  /** The three stages of recording a first write, with `k` locks held. */
  lemma RecordingAlone(rules: Rules, k: nat)
    requires 0 < k <= rules.depth && k < TWO16
    ensures Reachable(rules, Alone(k, Written, 0, {0}))
    ensures Reachable(rules, Alone(k, Nested, 0, {0}))
    ensures Reachable(rules, Alone(k, Marking(k), 0, {0}))
  {
    LockAgain(rules, k);
    var s0, s1 := Alone(k, Idle, 0, {}), Alone(k, Written, 0, {0});
    Reach(rules, s0, Write);
    assert Next(rules, s0, Write) == s1;
    var s2 := Alone(k, Nested, 0, {0});
    Reach(rules, s1, Continue);
    assert Advance(s1) == s2;
    Reach(rules, s2, Continue);
    assert Advance(s2) == Alone(k, Marking(k), 0, {0});
  }

  // ---------------------------------------------------------------- main results

  /** No lock is ever given up ahead of the barrier for its own context's writes, exactly up to 2^16 - 1 locks. */
  lemma OrderedIff(rules: Rules)
    ensures AlwaysOrdered(rules) <==> rules.depth <= MAX_DEPTH
  {
    if rules.depth <= MAX_DEPTH {
      forall s | Reachable(rules, s) ensures ReleaseOrdered(s) {
        ReachableOrdered(rules, s);
        OrderedRelease(s);
      }
    } else {
      var s := DeepNestingLosesBarrier(rules, TWO16);
    }
  }

  /** Interrupts stay out of the recording of a write made under a lock, and out of the gap before a barrier. */
  ghost predicate Shielded(rules: Rules) {
    && !rules.irq(Written) && !rules.irq(Nested) && !rules.irq(Cleared)
    && forall n: nat :: 0 < n < rules.depth ==> !rules.irq(Marking(n))
  }

  lemma ShieldedIsClean(rules: Rules, s: State)
    requires rules.depth <= 1 || Shielded(rules)
    requires rules.depth <= MAX_DEPTH && Reachable(rules, s)
    ensures NextUnlockOrdered(s)
  {
    ReachableOrdered(rules, s);
    ReachableCounted(rules, s);
    if Top(s).op.Unlocking? {
      OrderedRelease(s);
      TopCounted(rules.depth, s);
      forall h | h in s.dirty ensures false {
        NotUnderWay(rules, s, h);
      }
    }
  }

  lemma NotUnderWay(rules: Rules, s: State, h: nat)
    requires rules.depth <= 1 || Shielded(rules)
    requires rules.depth <= MAX_DEPTH && Counted(rules.depth, s.nesting, s.stack) && Interrupted(rules, s.stack)
    requires h < |s.stack| - 1 && s.stack[h].locks > 0 && Top(s).locks > 0
    ensures !UnderWay(s.stack, h, |s.stack| - 1)
  {
    LocksApart(s.stack, h);
    assert CountedAt(s.stack, h);
    assert rules.irq(s.stack[h].op);
  }

  /** A context below the top and the top hold their locks together. */
  lemma LocksApart(stack: seq<Context>, h: nat)
    requires h < |stack| - 1
    ensures stack[h].locks <= Locks(stack[..h + 1]) && Locks(stack[..h + 1]) + stack[|stack| - 1].locks <= Locks(stack)
  {
    var below := stack[..|stack| - 1];
    assert stack[..h + 1] == below[..h + 1];
    LocksGrow(below, h + 1);
    assert stack[..h + 1][..h] == stack[..h];
  }

  /**
   Every write made under a lock of its own has its barrier no later than the next unlock on its
   CPU, exactly when no two locks nest, or at most 2^16 - 1 do and interrupts stay out of four places.
   */
  lemma NextUnlockIff(rules: Rules)
    ensures AlwaysNextUnlock(rules) <==>
            rules.depth <= 1 || (rules.depth <= MAX_DEPTH && Shielded(rules))
  {
    if rules.depth > MAX_DEPTH {
      var s := DeepNestingLosesBarrier(rules, TWO16);
    } else if rules.depth <= 1 || Shielded(rules) {
      forall s | Reachable(rules, s) ensures NextUnlockOrdered(s) {
        ShieldedIsClean(rules, s);
      }
    } else {
      var s := UnshieldedRun(rules);
    }
  }

  /** Each of the four places has a run in which a handler's unlock comes before the barrier. */
  lemma UnshieldedRun(rules: Rules) returns (s: State)
    requires 1 < rules.depth <= MAX_DEPTH && !Shielded(rules)
    ensures Reachable(rules, s) && !NextUnlockOrdered(s)
  {
    RecordingAlone(rules, 1);
    if rules.irq(Written) {
      s := HandlerUnlocksFirst(rules, 1, Written);
    } else if rules.irq(Nested) {
      s := HandlerUnlocksFirst(rules, 1, Nested);
    } else if rules.irq(Cleared) {
      ClearedAlone(rules);
      s := HandlerUnlocksFirst(rules, 1, Cleared);
    } else {
      var n: nat :| 0 < n < rules.depth && rules.irq(Marking(n));
      RecordingAlone(rules, n);
      s := HandlerUnlocksFirst(rules, n, Marking(n));
    }
  }

  /** With interrupts only between whole operations nothing more than the depth matters. */
  lemma WholeOperations(rules: Rules)
    requires forall op: Op :: rules.irq(op) <==> op == Idle
    ensures AlwaysNextUnlock(rules) <==> rules.depth <= MAX_DEPTH
  {
    NextUnlockIff(rules);
  }
}
