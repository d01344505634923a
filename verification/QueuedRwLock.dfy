/**
 The queued reader/writer lock (asm-generic/qrwlock.h): one 32-bit word changed by atomic
 steps of any number of threads, and the write unlock that stores only one byte of it.

 The slow paths live elsewhere. A thread that enters one is parked; the only things assumed
 of it are that a parked reader may drop and retake its bias and becomes a holder only
 while it has a bias and no writer is in, and that a parked writer becomes a holder only by
 replacing a word without readers and without a writer. `_QW_WAITING` may flip at any time.
 */
module QueuedRwLock {
  import opened Bits

  const WAITING: nat := 0x100  // _QW_WAITING
  const LOCKED: nat := 0x0ff   // _QW_LOCKED
  const WMASK: nat := 0x1ff    // _QW_WMASK
  const BIAS: nat := 0x200     // _QR_BIAS
  const MAX_THREADS: nat := 0x80_0000

  datatype Thread =
    | Idle
    | TryReadLooked          // trylock saw no writer and is about to add its bias
    | TryReadBacking         // trylock lost: about to take its bias back
    | Reading
    | TryWriteLooked         // trylock saw zero and is about to compare and swap
    | Writing
    | ParkedReader           // in the slow path, bias kept
    | ParkedReaderUnbiased   // in the slow path, bias dropped
    | ParkedWriter

  datatype State = State(cnts: nat, bigEndian: bool, threads: seq<Thread>)

  datatype Step =
    | TryReadLook(i: nat) | TryReadAdd(i: nat) | TryReadUndo(i: nat)
    | ReadLockAdd(i: nat) | ReadUnlock(i: nat)
    | TryWriteLook(i: nat) | TryWriteSwap(i: nat)
    | WriteLockSwap(i: nat) | WriteUnlock(i: nat)
    | FlipWaiting
    | ParkedDrop(i: nat) | ParkedTake(i: nat) | ParkedReaderEnter(i: nat) | ParkedWriterEnter(i: nat)

  // ---------------------------------------------------------------- the word and its bytes

  /** The word as its four bytes in memory order. */
  function ToMemory(bigEndian: bool, w: nat): (m: seq<nat>)
    ensures |m| == 4
  {
    var b := [w % 0x100, w / 0x100 % 0x100, w / 0x100 / 0x100 % 0x100, w / 0x100 / 0x100 / 0x100];
    if bigEndian then [b[3], b[2], b[1], b[0]] else b
  }

  function FromMemory(bigEndian: bool, m: seq<nat>): nat
    requires |m| == 4
  {
    var b := if bigEndian then [m[3], m[2], m[1], m[0]] else m;
    b[0] + 0x100 * b[1] + 0x1_0000 * b[2] + 0x100_0000 * b[3]
  }

  /** `smp_store_release(&lock->wlocked, 0)`: `wlocked` is the first byte on little endian, the last on big endian. */
  function StoreWlocked(bigEndian: bool, w: nat): nat {
    FromMemory(bigEndian, ToMemory(bigEndian, w)[(if bigEndian then 3 else 0) := 0])
  }

  /** The byte store clears the writer byte and nothing else. */
  lemma StoreKeepsTheRest(bigEndian: bool, w: nat)
    ensures StoreWlocked(bigEndian, w) == w / 0x100 * 0x100
  {
    var q1 := w / 0x100;
    var q2 := q1 / 0x100;
    assert q1 == q1 % 0x100 + 0x100 * q2;
    assert q2 == q2 % 0x100 + 0x100 * (q2 / 0x100);
  }

  predicate NoWriterBits(w: nat) {
    And(w, WMASK) == 0
  }

  lemma WriterBits(w: nat)
    ensures NoWriterBits(w) <==> w % BIAS == 0
  {
    Pow2Values();
    AndMask(w, 9);
  }

  // ---------------------------------------------------------------- steps

  predicate At(s: State, i: nat, t: Thread) {
    i < |s.threads| && s.threads[i] == t
  }

  predicate Enabled(s: State, step: Step) {
    match step
    case TryReadLook(i) => At(s, i, Idle)
    case TryReadAdd(i) => At(s, i, TryReadLooked)
    case TryReadUndo(i) => At(s, i, TryReadBacking)
    case ReadLockAdd(i) => At(s, i, Idle)
    case ReadUnlock(i) => At(s, i, Reading)
    case TryWriteLook(i) => At(s, i, Idle)
    case TryWriteSwap(i) => At(s, i, TryWriteLooked)
    case WriteLockSwap(i) => At(s, i, Idle)
    case WriteUnlock(i) => At(s, i, Writing)
    case FlipWaiting => true
    case ParkedDrop(i) => At(s, i, ParkedReader)
    case ParkedTake(i) => At(s, i, ParkedReaderUnbiased)
    case ParkedReaderEnter(i) => At(s, i, ParkedReader) && s.cnts % 0x100 == 0
    case ParkedWriterEnter(i) => At(s, i, ParkedWriter) && (s.cnts == 0 || s.cnts == WAITING)
  }

  function Move(s: State, i: nat, t: Thread, cnts: nat): State
    requires i < |s.threads|
  {
    s.(threads := s.threads[i := t], cnts := cnts)
  }

  /** `atomic_add_return(_QR_BIAS)` followed by the test of the writer bits. */
  function AddBias(s: State, i: nat, lost: Thread): State
    requires i < |s.threads|
  {
    var cnts := U32(s.cnts + BIAS);
    Move(s, i, if NoWriterBits(cnts) then Reading else lost, cnts)
  }

  /** `atomic_try_cmpxchg(&cnts, 0, _QW_LOCKED)`. */
  function SwapIn(s: State, i: nat, lost: Thread): State
    requires i < |s.threads|
  {
    if s.cnts == 0 then Move(s, i, Writing, LOCKED) else Move(s, i, lost, s.cnts)
  }

  function Next(s: State, step: Step): State
    requires Enabled(s, step)
  {
    match step
    case TryReadLook(i) => Move(s, i, if NoWriterBits(s.cnts) then TryReadLooked else Idle, s.cnts)
    case TryReadAdd(i) => AddBias(s, i, TryReadBacking)
    case TryReadUndo(i) => Move(s, i, Idle, U32(s.cnts - BIAS))
    case ReadLockAdd(i) => AddBias(s, i, ParkedReader)
    case ReadUnlock(i) => Move(s, i, Idle, U32(s.cnts - BIAS))
    case TryWriteLook(i) => Move(s, i, if s.cnts == 0 then TryWriteLooked else Idle, s.cnts)
    case TryWriteSwap(i) => SwapIn(s, i, Idle)
    case WriteLockSwap(i) => SwapIn(s, i, ParkedWriter)
    case WriteUnlock(i) => Move(s, i, Idle, StoreWlocked(s.bigEndian, s.cnts))
    case FlipWaiting =>
      s.(cnts := if s.cnts / WAITING % 2 == 1 then s.cnts - WAITING else s.cnts + WAITING)
    case ParkedDrop(i) => Move(s, i, ParkedReaderUnbiased, U32(s.cnts - BIAS))
    case ParkedTake(i) => Move(s, i, ParkedReader, U32(s.cnts + BIAS))
    case ParkedReaderEnter(i) => Move(s, i, Reading, s.cnts)
    case ParkedWriterEnter(i) => Move(s, i, Writing, LOCKED)
  }

  function Initial(n: nat, bigEndian: bool): State {
    State(0, bigEndian, seq(n, _ => Idle))
  }

  ghost predicate Run(s: State, steps: seq<Step>, s': State)
    decreases |steps|
  {
    if steps == [] then s' == s
    else Enabled(s, steps[0]) && Run(Next(s, steps[0]), steps[1..], s')
  }

  // ---------------------------------------------------------------- one thread undisturbed

  /** What thread `i` and the word have come to; the other threads are as they were. */
  predicate Became(s: State, i: nat, t: Thread, cnts: nat, s': State)
    requires i < |s.threads|
  {
    s' == State(cnts, s.bigEndian, s.threads[i := t])
  }

  /** `queued_read_trylock` returns 1 exactly on a word without writer bits, and otherwise leaves no trace. */
  lemma ReadTrylock(s: State, i: nat) returns (s': State)
    requires At(s, i, Idle) && s.cnts < TWO32
    ensures s.cnts % 0x200 == 0 ==>
              && Enabled(s, TryReadLook(i)) && Enabled(Next(s, TryReadLook(i)), TryReadAdd(i))
              && s' == Next(Next(s, TryReadLook(i)), TryReadAdd(i))
              && Became(s, i, Reading, (s.cnts + 0x200) % 0x1_0000_0000, s')
    ensures s.cnts % 0x200 != 0 ==>
              Enabled(s, TryReadLook(i)) && s' == Next(s, TryReadLook(i)) && Became(s, i, Idle, s.cnts, s')
  {
    WriterBits(s.cnts);
    s' := Next(s, TryReadLook(i));
    if s.cnts % 0x200 == 0 {
      BiasAddedBits(s.cnts);
      s' := Next(s', TryReadAdd(i));
    }
  }

  /** Adding a bias leaves the writer bits alone, so the second test answers for the moment of the addition. */
  lemma BiasAddedBits(w: nat)
    requires w < TWO32
    ensures U32(w + BIAS) % 0x200 == w % 0x200
    ensures NoWriterBits(U32(w + BIAS)) <==> w % 0x200 == 0
  {
    var readers, low := SplitWord(w);
    Wrapped(readers + 1, low);
    Fields((readers + 1) % MAX_THREADS * 0x200 + low, (readers + 1) % MAX_THREADS, low);
    WriterBits(U32(w + BIAS));
  }

  /** A trylock that finds a writer after its addition takes the bias back and gives up. */
  lemma ReadTrylockBacksOut(s: State, i: nat)
    requires At(s, i, TryReadLooked) && s.cnts < TWO32 && s.cnts % 0x200 != 0
    ensures Enabled(s, TryReadAdd(i)) && Enabled(Next(s, TryReadAdd(i)), TryReadUndo(i))
    ensures Became(s, i, Idle, s.cnts, Next(Next(s, TryReadAdd(i)), TryReadUndo(i)))
  {
    BiasAddedBits(s.cnts);
    BiasTakenBack(s.cnts);
    var t := Next(s, TryReadAdd(i));
    assert t.threads[i] == TryReadBacking;
    assert Next(t, TryReadUndo(i)).threads == s.threads[i := Idle];
  }

  lemma BiasTakenBack(w: nat)
    requires w < TWO32
    ensures U32(U32(w + BIAS) - BIAS) == w
  {
    if w + BIAS < TWO32 {
      ModUnique(w + BIAS, TWO32, 0, w + BIAS);
      ModUnique(w, TWO32, 0, w);
    } else {
      ModUnique(w + BIAS, TWO32, 1, w + BIAS - TWO32);
      ModUnique(w - TWO32, TWO32, -1, w);
    }
  }

  /** `queued_write_trylock` returns 1 exactly on a free word, which then shows the writer alone. */
  lemma WriteTrylock(s: State, i: nat) returns (s': State)
    requires At(s, i, Idle)
    ensures s.cnts == 0 ==>
              && Enabled(s, TryWriteLook(i)) && Enabled(Next(s, TryWriteLook(i)), TryWriteSwap(i))
              && s' == Next(Next(s, TryWriteLook(i)), TryWriteSwap(i))
              && Became(s, i, Writing, 0xff, s')
    ensures s.cnts != 0 ==>
              Enabled(s, TryWriteLook(i)) && s' == Next(s, TryWriteLook(i)) && Became(s, i, Idle, s.cnts, s')
  {
    s' := Next(s, TryWriteLook(i));
    if s.cnts == 0 { s' := Next(s', TryWriteSwap(i)); }
  }

  /** The fast paths of the two locks: in at once, or parked, a reader with its bias kept. */
  lemma LockFastPaths(s: State, i: nat)
    requires At(s, i, Idle) && s.cnts < TWO32
    ensures Enabled(s, ReadLockAdd(i)) && Enabled(s, WriteLockSwap(i))
    ensures Became(s, i, if s.cnts % 0x200 == 0 then Reading else ParkedReader,
                   (s.cnts + 0x200) % 0x1_0000_0000, Next(s, ReadLockAdd(i)))
    ensures Became(s, i, if s.cnts == 0 then Writing else ParkedWriter,
                   if s.cnts == 0 then 0xff else s.cnts, Next(s, WriteLockSwap(i)))
  {
    BiasAddedBits(s.cnts);
  }

  /** Unlocking undoes what locking did to the word. */
  lemma UnlockUndoesLock(s: State, i: nat)
    requires At(s, i, Idle) && s.cnts < TWO32
    ensures s.cnts % 0x200 == 0 ==>
              var t := Next(s, ReadLockAdd(i));
              Enabled(t, ReadUnlock(i)) && Became(s, i, Idle, s.cnts, Next(t, ReadUnlock(i)))
    ensures s.cnts == 0 ==>
              var t := Next(s, WriteLockSwap(i));
              Enabled(t, WriteUnlock(i)) && Became(s, i, Idle, 0, Next(t, WriteUnlock(i)))
  {
    LockFastPaths(s, i);
    if s.cnts % 0x200 == 0 {
      BiasTakenBack(s.cnts);
      assert Next(Next(s, ReadLockAdd(i)), ReadUnlock(i)).threads == s.threads[i := Idle];
    }
    if s.cnts == 0 {
      StoreKeepsTheRest(s.bigEndian, LOCKED);
      assert Next(Next(s, WriteLockSwap(i)), WriteUnlock(i)).threads == s.threads[i := Idle];
    }
  }

  // ---------------------------------------------------------------- counting biases

  /** The thread's bias is in the reader field. */
  predicate HasBias(t: Thread) {
    t.TryReadBacking? || t.Reading? || t.ParkedReader?
  }

  function Biases(ts: seq<Thread>): (k: nat)
    ensures k <= |ts|
  {
    if ts == [] then 0 else (if HasBias(ts[0]) then 1 else 0) + Biases(ts[1..])
  }

  lemma {:induction false} BiasesUpdate(ts: seq<Thread>, i: nat, t: Thread)
    requires i < |ts|
    ensures Biases(ts[i := t]) + (if HasBias(ts[i]) then 1 else 0)
         == Biases(ts) + (if HasBias(t) then 1 else 0)
  {
    if i > 0 {
      assert ts[i := t][1..] == ts[1..][i - 1 := t];
      BiasesUpdate(ts[1..], i - 1, t);
    } else {
      assert ts[0 := t][1..] == ts[1..];
    }
  }

  lemma {:induction false} BiasesPositive(ts: seq<Thread>, i: nat)
    requires i < |ts| && HasBias(ts[i])
    ensures Biases(ts) > 0
  {
    if i > 0 { BiasesPositive(ts[1..], i - 1); }
  }

  lemma {:induction false} BiasesBelow(ts: seq<Thread>, i: nat)
    requires i < |ts| && !HasBias(ts[i])
    ensures Biases(ts) < |ts|
  {
    if i > 0 { BiasesBelow(ts[1..], i - 1); }
  }

  // ---------------------------------------------------------------- the invariant

  /** No writer shares the lock with anyone. */
  ghost predicate Exclusive(s: State) {
    forall i, j :: 0 <= i < |s.threads| && 0 <= j < |s.threads| && i != j && s.threads[i] == Writing ==>
      s.threads[j] != Writing && s.threads[j] != Reading
  }

  ghost predicate SomeWriter(s: State) {
    exists i :: 0 <= i < |s.threads| && s.threads[i] == Writing
  }

  /** The reader field counts the biases (modulo its 23 bits); the writer byte tells whether a writer is in. */
  ghost predicate WordMatches(s: State) {
    && s.cnts < TWO32
    && s.cnts / BIAS == Biases(s.threads) % MAX_THREADS
    && s.cnts % 0x100 == if SomeWriter(s) then LOCKED else 0
  }

  ghost predicate Inv(s: State) {
    |s.threads| <= MAX_THREADS && WordMatches(s) && Exclusive(s)
  }

  /** The fields of a word put together from them. */
  lemma Fields(w: int, readers: int, low: nat)
    requires w == readers * 0x200 + low && low < 0x200
    ensures w / BIAS == readers && w % BIAS == low && w % 0x100 == low % 0x100
  {
    var q, c := low / 0x100, low % 0x100;
    assert low == q * 0x100 + c;
    ModUnique(w, 0x200, readers, low);
    ModUnique(w, 0x100, 2 * readers + q, c);
  }

  lemma SplitWord(w: nat) returns (readers: nat, low: nat)
    ensures readers == w / BIAS && low == w % BIAS < 0x200 && w == readers * 0x200 + low
  {
    readers, low := w / BIAS, w % BIAS;
    assert w == BIAS * readers + low;
  }

  /** The reader field counts modulo 2^23. */
  lemma Wrapped(k: int, low: nat)
    requires low < 0x200
    ensures U32(k * 0x200 + low) == (k % MAX_THREADS) * 0x200 + low
  {
    var q, r := k / MAX_THREADS, k % MAX_THREADS;
    assert k == MAX_THREADS * q + r;
    ModUnique(k * 0x200 + low, 0x1_0000_0000, q, r * 0x200 + low);
  }

  lemma ModShift(k: int, d: int, m: nat)
    requires m > 0
    ensures (k % m + d) % m == (k + d) % m
  {
    var q, r := k / m, k % m;
    var s, t := (r + d) / m, (r + d) % m;
    assert k == q * m + r && r + d == s * m + t;
    MulAdd(q, s, m);
    ModUnique(k + d, m, q + s, t);
  }

  /** Adding `d` biases at once. */
  lemma BiasChanged(w: nat, k: nat, d: int)
    requires w < TWO32 && w / BIAS == k % MAX_THREADS
    ensures var w' := U32(w + d * 0x200);
            w' / BIAS == (k + d) % MAX_THREADS && w' % BIAS == w % BIAS && w' % 0x100 == w % 0x100
  {
    var readers, low := SplitWord(w);
    assert w + d * 0x200 == (readers + d) * 0x200 + low;
    Wrapped(readers + d, low);
    ModShift(k, d, MAX_THREADS);
    Fields((readers + d) % MAX_THREADS * 0x200 + low, (readers + d) % MAX_THREADS, low);
    Fields(w, readers, low);
  }

  /** The thread moves without becoming or ceasing to be a writer. */
  lemma SameWriters(s: State, i: nat, t: Thread, cnts: nat)
    requires i < |s.threads| && s.threads[i] != Writing && t != Writing
    ensures SomeWriter(Move(s, i, t, cnts)) == SomeWriter(s)
  {
    var s' := Move(s, i, t, cnts);
    if SomeWriter(s) {
      var j :| 0 <= j < |s.threads| && s.threads[j] == Writing;
      assert s'.threads[j] == Writing;
    }
  }

  /** A thread without a bias adds one, to become a reader or to find a writer in its way. */
  lemma AddKeeps(s: State, i: nat, t: Thread)
    requires Inv(s) && i < |s.threads| && !HasBias(s.threads[i]) && s.threads[i] != Writing
    requires HasBias(t) && (t == Reading ==> NoWriterBits(U32(s.cnts + BIAS)))
    ensures Inv(Move(s, i, t, U32(s.cnts + BIAS)))
  {
    var cnts := U32(s.cnts + BIAS);
    BiasChanged(s.cnts, Biases(s.threads), 1);
    BiasesUpdate(s.threads, i, t);
    SameWriters(s, i, t, cnts);
    if t == Reading {
      WriterBits(cnts);
      var readers, low := SplitWord(cnts);
      Fields(cnts, readers, low);
      assert !SomeWriter(s);
    }
  }

  lemma AddBiasKeeps(s: State, i: nat, lost: Thread)
    requires Inv(s) && i < |s.threads| && !HasBias(s.threads[i]) && s.threads[i] != Writing
    requires HasBias(lost) && lost != Reading
    ensures Inv(AddBias(s, i, lost))
  {
    AddKeeps(s, i, if NoWriterBits(U32(s.cnts + BIAS)) then Reading else lost);
  }

  lemma RemoveKeeps(s: State, i: nat, t: Thread)
    requires Inv(s) && i < |s.threads| && HasBias(s.threads[i]) && (t == Idle || t == ParkedReaderUnbiased)
    ensures Inv(Move(s, i, t, U32(s.cnts - BIAS)))
  {
    BiasesPositive(s.threads, i);
    BiasChanged(s.cnts, Biases(s.threads), -1);
    BiasesUpdate(s.threads, i, t);
    SameWriters(s, i, t, U32(s.cnts - BIAS));
  }

  /** A thread moves without touching the word, and without a change of bias. */
  lemma IdleMoveKeeps(s: State, i: nat, t: Thread)
    requires Inv(s) && i < |s.threads| && s.threads[i] != Writing && t != Writing
    requires HasBias(t) == HasBias(s.threads[i])
    requires t == Reading ==> s.cnts % 0x100 == 0
    ensures Inv(Move(s, i, t, s.cnts))
  {
    BiasesUpdate(s.threads, i, t);
    SameWriters(s, i, t, s.cnts);
    if t == Reading { assert !SomeWriter(s); }
  }

  /** A writer enters: no thread can be reading, because with this many threads the reader field is exact. */
  lemma EnterKeeps(s: State, i: nat)
    requires Inv(s) && i < |s.threads| && !HasBias(s.threads[i]) && s.threads[i] != Writing
    requires s.cnts == 0 || s.cnts == WAITING
    ensures Inv(Move(s, i, Writing, LOCKED))
  {
    var s' := Move(s, i, Writing, LOCKED);
    BiasesBelow(s.threads, i);
    BiasesUpdate(s.threads, i, Writing);
    assert Biases(s.threads) == 0;
    assert s'.threads[i] == Writing;
    forall j | 0 <= j < |s.threads| ensures s.threads[j] != Writing && s.threads[j] != Reading {
      if HasBias(s.threads[j]) { BiasesPositive(s.threads, j); }
    }
  }

  lemma ByteCleared(w: nat)
    requires w < TWO32
    ensures var w' := w / 0x100 * 0x100;
            w' < TWO32 && w' % 0x100 == 0 && w' / 0x100 == w / 0x100 && w' / BIAS == w / BIAS
  {
    var readers, low := SplitWord(w);
    var a, c := low / 0x100, low % 0x100;
    assert low == a * 0x100 + c;
    ModUnique(w, 0x100, 2 * readers + a, c);
    ModUnique(w - c, 0x100, 2 * readers + a, 0);
    Fields(w - c, readers, low - c);
  }

  /** Clearing the writer byte keeps every bias that readers added meanwhile. */
  lemma WriteUnlockKeeps(s: State, i: nat)
    requires Inv(s) && i < |s.threads| && s.threads[i] == Writing
    ensures Inv(Next(s, WriteUnlock(i)))
    ensures Next(s, WriteUnlock(i)).cnts / 0x100 == s.cnts / 0x100
  {
    StoreKeepsTheRest(s.bigEndian, s.cnts);
    ByteCleared(s.cnts);
    BiasesUpdate(s.threads, i, Idle);
    assert !SomeWriter(Next(s, WriteUnlock(i)));
  }

  lemma FlipKeeps(s: State)
    requires Inv(s)
    ensures Inv(Next(s, FlipWaiting))
    ensures var w := Next(s, FlipWaiting).cnts; w == s.cnts + 0x100 || w == s.cnts - 0x100
  {
    var s' := Next(s, FlipWaiting);
    FlipArithmetic(s.cnts);
    assert SomeWriter(s') == SomeWriter(s);
  }

  lemma FlipArithmetic(w: nat)
    requires w < TWO32
    ensures var w' := if w / WAITING % 2 == 1 then w - WAITING else w + WAITING;
            && 0 <= w' < TWO32 && w' / BIAS == w / BIAS && w' % 0x100 == w % 0x100
            && (w' == w + 0x100 || w' == w - 0x100)
  {
    var readers, low := SplitWord(w);
    var a, c := low / 0x100, low % 0x100;
    assert low == a * 0x100 + c && a < 2;
    ModUnique(w, 0x100, 2 * readers + a, c);
    ModUnique(2 * readers + a, 2, readers, a);
    FlippedFields(readers, a, c);
  }

  lemma FlippedFields(readers: nat, a: nat, c: nat)
    requires a < 2 && c < 0x100 && readers < MAX_THREADS
    ensures var w' := readers * 0x200 + (1 - a) * 0x100 + c;
            0 <= w' < TWO32 && w' / BIAS == readers && w' % 0x100 == c
  {
    var low := if a == 0 then 0x100 + c else c;
    Fields(readers * 0x200 + low, readers, low);
    ModUnique(low, 0x100, 1 - a, c);
  }

  predicate ByWriter(step: Step) {
    step.TryWriteLook? || step.TryWriteSwap? || step.WriteLockSwap? || step.WriteUnlock? || step.ParkedWriterEnter?
  }

  lemma WriterStepKeeps(s: State, step: Step)
    requires Inv(s) && Enabled(s, step) && ByWriter(step)
    ensures Inv(Next(s, step))
  {
    match step {
      case TryWriteLook(i) => IdleMoveKeeps(s, i, if s.cnts == 0 then TryWriteLooked else Idle);
      case TryWriteSwap(i) => if s.cnts == 0 { EnterKeeps(s, i); } else { IdleMoveKeeps(s, i, Idle); }
      case WriteLockSwap(i) => if s.cnts == 0 { EnterKeeps(s, i); } else { IdleMoveKeeps(s, i, ParkedWriter); }
      case WriteUnlock(i) => WriteUnlockKeeps(s, i);
      case ParkedWriterEnter(i) => EnterKeeps(s, i);
    }
  }

  lemma ReaderStepKeeps(s: State, step: Step)
    requires Inv(s) && Enabled(s, step) && !ByWriter(step)
    ensures Inv(Next(s, step))
  {
    match step {
      case TryReadLook(i) => IdleMoveKeeps(s, i, if NoWriterBits(s.cnts) then TryReadLooked else Idle);
      case TryReadAdd(i) => AddBiasKeeps(s, i, TryReadBacking);
      case TryReadUndo(i) => RemoveKeeps(s, i, Idle);
      case ReadLockAdd(i) => AddBiasKeeps(s, i, ParkedReader);
      case ReadUnlock(i) => RemoveKeeps(s, i, Idle);
      case FlipWaiting => FlipKeeps(s);
      case ParkedDrop(i) => RemoveKeeps(s, i, ParkedReaderUnbiased);
      case ParkedTake(i) => AddKeeps(s, i, ParkedReader);
      case ParkedReaderEnter(i) => IdleMoveKeeps(s, i, Reading);
    }
  }

  lemma StepKeeps(s: State, step: Step)
    requires Inv(s) && Enabled(s, step)
    ensures Inv(Next(s, step))
  {
    if ByWriter(step) { WriterStepKeeps(s, step); } else { ReaderStepKeeps(s, step); }
  }

  lemma {:induction false} RunKeeps(s: State, steps: seq<Step>, s': State)
    requires Inv(s) && Run(s, steps, s')
    ensures Inv(s') && |s'.threads| == |s.threads|
    decreases |steps|
  {
    if steps != [] {
      StepKeeps(s, steps[0]);
      RunKeeps(Next(s, steps[0]), steps[1..], s');
    }
  }

  lemma {:induction false} NoBiases(ts: seq<Thread>)
    requires forall i :: 0 <= i < |ts| ==> ts[i] == Idle
    ensures Biases(ts) == 0
  {
    if ts != [] { NoBiases(ts[1..]); }
  }

  lemma InitialInv(n: nat, bigEndian: bool)
    requires n <= MAX_THREADS
    ensures Inv(Initial(n, bigEndian))
  {
    NoBiases(Initial(n, bigEndian).threads);
  }

  /** Every reachable state, with fewer than 2^23 threads: the reader field is exactly the number of biases. */
  lemma ReaderFieldIsExact(n: nat, bigEndian: bool, steps: seq<Step>, s: State)
    requires n < MAX_THREADS && Run(Initial(n, bigEndian), steps, s)
    ensures s.cnts / BIAS == Biases(s.threads)
    ensures s.cnts % 0x100 == if SomeWriter(s) then LOCKED else 0
  {
    InitialInv(n, bigEndian);
    RunKeeps(Initial(n, bigEndian), steps, s);
    ModUnique(Biases(s.threads), MAX_THREADS, 0, Biases(s.threads));
  }

  /** In every run of this many threads a writer is alone. */
  ghost predicate AlwaysExclusive(n: nat, bigEndian: bool) {
    forall steps, s :: Run(Initial(n, bigEndian), steps, s) ==> Exclusive(s)
  }

  // ---------------------------------------------------------------- the limit is exact

  /** The first `k` threads have taken the read lock. */
  function WithReaders(n: nat, bigEndian: bool, k: nat): State {
    State(U32(k * BIAS), bigEndian, seq(n, i => if i < k then Reading else Idle))
  }

  lemma ReaderEnters(n: nat, bigEndian: bool, k: nat)
    requires k < n
    ensures Enabled(WithReaders(n, bigEndian, k), ReadLockAdd(k))
    ensures Next(WithReaders(n, bigEndian, k), ReadLockAdd(k)) == WithReaders(n, bigEndian, k + 1)
  {
    var s, s' := WithReaders(n, bigEndian, k), WithReaders(n, bigEndian, k + 1);
    ReaderWord(k);
    WriterBits(s'.cnts);
    assert s.threads[k := Reading] == s'.threads;
  }

  lemma ReaderWord(k: nat)
    ensures U32(U32(k * BIAS) + BIAS) == U32((k + 1) * BIAS) && U32((k + 1) * BIAS) % BIAS == 0
  {
    var r := k % MAX_THREADS;
    Wrapped(k, 0);
    Wrapped(r + 1, 0);
    Wrapped(k + 1, 0);
    ModShift(k, 1, MAX_THREADS);
    Fields((k + 1) % MAX_THREADS * 0x200, (k + 1) % MAX_THREADS, 0);
  }

  lemma {:induction false} RunAppend(s: State, steps: seq<Step>, s': State, step: Step)
    requires Run(s, steps, s') && Enabled(s', step)
    ensures Run(s, steps + [step], Next(s', step))
    decreases |steps|
  {
    var all := steps + [step];
    assert all[0] == if steps == [] then step else steps[0];
    if steps == [] {
      assert all[1..] == [];
    } else {
      assert all[1..] == steps[1..] + [step];
      RunAppend(Next(s, steps[0]), steps[1..], s', step);
    }
  }

  ghost predicate Reachable(n: nat, bigEndian: bool, s: State) {
    exists steps :: Run(Initial(n, bigEndian), steps, s)
  }

  lemma Reach(n: nat, bigEndian: bool, s: State, step: Step)
    requires Reachable(n, bigEndian, s) && Enabled(s, step)
    ensures Reachable(n, bigEndian, Next(s, step))
  {
    var steps :| Run(Initial(n, bigEndian), steps, s);
    RunAppend(Initial(n, bigEndian), steps, s, step);
  }

  /** The first `k` threads can take the read lock one after the other. */
  lemma {:induction false} ReachReaders(n: nat, bigEndian: bool, k: nat)
    requires k <= n
    ensures Reachable(n, bigEndian, WithReaders(n, bigEndian, k))
  {
    if k == 0 {
      assert WithReaders(n, bigEndian, 0).threads == Initial(n, bigEndian).threads;
      assert Run(Initial(n, bigEndian), [], WithReaders(n, bigEndian, 0));
    } else {
      ReachReaders(n, bigEndian, k - 1);
      ReaderEnters(n, bigEndian, k - 1);
      Reach(n, bigEndian, WithReaders(n, bigEndian, k - 1), ReadLockAdd(k - 1));
    }
  }

  /** With one thread more, 2^23 readers wrap the word to zero and a writer walks in beside them. */
  lemma TooManyThreads(n: nat, bigEndian: bool, k: nat)
    requires k == MAX_THREADS < n
    ensures !AlwaysExclusive(n, bigEndian)
  {
    var s := WithReaders(n, bigEndian, k);
    ReachReaders(n, bigEndian, k);
    Wrapped(k, 0);
    Reach(n, bigEndian, s, WriteLockSwap(k));
    var t := Next(s, WriteLockSwap(k));
    assert t.threads[k] == Writing && t.threads[0] == Reading;
  }

  /** Mutual exclusion holds in every run exactly when there are at most 2^23 threads. */
  lemma ExclusiveIff(n: nat, bigEndian: bool)
    ensures AlwaysExclusive(n, bigEndian) <==> n <= MAX_THREADS
  {
    if n <= MAX_THREADS {
      InitialInv(n, bigEndian);
      forall steps, s | Run(Initial(n, bigEndian), steps, s) ensures Exclusive(s) {
        RunKeeps(Initial(n, bigEndian), steps, s);
      }
    } else {
      TooManyThreads(n, bigEndian, MAX_THREADS);
    }
  }
}
