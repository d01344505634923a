/**
 The ordering an mmu_gather must keep (asm-generic/tlb.h): unhook, invalidate, free.

 A run interleaves the gather's own operations, broken up at every point where the TLB can
 act, with steps of the environment: new mappings, and TLB fills from the live page table
 at any moment. The invalidations are modelled by the least that the flush functions promise.
 */
module TlbShootdown {
  import opened Bits
  import opened MmuGather

  type Page = nat

  /** A page-table entry: addresses [lo, hi) reach `page`, either directly or as a lower-level table. */
  datatype Mapping = Mapping(lo: nat, hi: nat, page: Page, table: bool, vma: Vma)

  /** Where a translation is cached: data or instruction TLB, page-walk cache, or a secondary TLB behind a notifier. */
  datatype Cache = Data | Instruction | Walk | Secondary

  datatype Entry = Entry(cache: Cache, lo: nat, hi: nat, page: Page, hugetlb: bool)

  /** One call of a recording operation and the unhooked mappings it accounts for. */
  datatype Record = Record(level: Level, address: nat, size: nat, table: bool, mappings: set<Mapping>)

  datatype Bracket = Outside | Inside(vma: Vma)

  /** How far a flush in progress has come, whether it frees pages afterwards and whether it closes a VMA. */
  datatype Phase =
    | Idle
    | Invalidated(free: bool, close: bool)
    | Notified(free: bool, close: bool)
    | Freeing

  datatype State = State(
    g: Gather,
    live: set<Mapping>,
    unhooked: set<Mapping>,   // taken out of the page table, not yet recorded
    records: seq<Record>,     // recorded since the last reset
    tlb: set<Entry>,
    queue: set<Page>,
    freed: set<Page>,
    bracket: Bracket,
    phase: Phase)

  datatype Step =
    | Hook(m: Mapping)
    | Fill(m: Mapping, e: Entry)
    | Evict(e: Entry)
    | Unhook(m: Mapping)
    | Recording(r: Record)
    | QueuePage(page: Page, full: bool)
    | OpenVma(vma: Vma)
    | CloseVma
    | ForceFlushAll
    | ChangePageSize(size: nat)
    | StartFlush(free: bool)
    | Notify
    | Reset
    | FreeQueue

  // ---------------------------------------------------------------- hardware

  /** Entry `e` can be cached from mapping `m`; leaf translations may be split, walk-cache entries are whole. */
  predicate CachedFrom(e: Entry, m: Mapping) {
    && e.page == m.page && m.lo <= e.lo < e.hi <= m.hi
    && e.hugetlb == m.vma.hugetlb
    && (m.table ==> e.cache == Walk && e.lo == m.lo && e.hi == m.hi)
    && (!m.table ==> e.cache != Walk)
    && (e.cache == Instruction ==> m.vma.exec)
  }

  predicate Overlaps(e: Entry, lo: nat, hi: nat) {
    e.lo < hi && lo < e.hi
  }

  /**
   The entries a CPU invalidation is sure to remove. A ranged flush may look only at large
   pages when VM_HUGETLB is set (and only at others when it is not), and may leave the
   instruction TLB alone without VM_EXEC; it always drops walk-cache entries it touches.
   */
  predicate Invalidates(f: Flush, e: Entry) {
    && e.cache != Secondary
    && match f
       case NoFlush => false
       case FlushMm => true
       case FlushRange(v, lo, hi) =>
         Overlaps(e, lo, hi)
         && (e.cache == Walk || (e.hugetlb == v.hugetlb && (e.cache == Instruction ==> v.exec)))
  }

  // ---------------------------------------------------------------- steps

  /** The record accounts for the mapping: all of a leaf, some address of a table's span. */
  predicate Accounts(r: Record, m: Mapping) {
    if m.table then r.address < m.hi && m.lo < r.address + r.size
    else r.address <= m.lo && m.hi <= r.address + r.size
  }

  /** A record call whose size and address the tracked range can hold. */
  predicate Representable(r: Record) {
    r.size > 0 && Fits(r.address, r.size) && (r.level == Top ==> r.table)
  }

  /** Leaf mappings are recorded inside the bracket of their own VMA, unless the whole mm goes. */
  predicate InBracket(cfg: Config, s: State, m: Mapping) {
    m.table || cfg.noRange || s.g.fullmm || s.bracket == Inside(m.vma)
  }

  /** What a step needs of the state; Enabled adds what a caller must keep to when recording. */
  predicate Permitted(cfg: Config, s: State, step: Step) {
    match step
    case Hook(m) => m.lo < m.hi && m.page !in s.queue
    case Fill(m, e) => m in s.live && CachedFrom(e, m)
    case Evict(e) => true
    case Unhook(m) => m in s.live && s.phase == Idle
    case Recording(r) =>
      && s.phase == Idle && r.mappings <= s.unhooked
      && forall m :: m in r.mappings ==> Accounts(r, m) && InBracket(cfg, s, m)
    case QueuePage(p, _) =>
      && s.phase == Idle && p !in s.freed
      && forall m :: m in s.live + s.unhooked ==> m.page != p
    case OpenVma(_) => s.phase == Idle && s.bracket == Outside
    case CloseVma => s.phase == Idle && s.bracket != Outside
    case ForceFlushAll => s.phase == Idle
    case ChangePageSize(_) => s.phase == Idle
    case StartFlush(_) => s.phase == Idle
    case Notify => s.phase.Invalidated?
    case Reset => s.phase.Notified?
    case FreeQueue => s.phase == Freeing
  }

  predicate Enabled(cfg: Config, s: State, step: Step) {
    Permitted(cfg, s, step) && (step.Recording? ==> Representable(step.r))
  }

  function AfterReset(free: bool): Phase {
    if free then Freeing else Idle
  }

  /** Entry of `tlb_flush_mmu_tlbonly`: the early return, or the CPU invalidation. */
  function BeginFlush(cfg: Config, s: State, free: bool, close: bool): State {
    if !AnyCleared(s.g) then
      s.(phase := AfterReset(free), bracket := if close then Outside else s.bracket)
    else
      s.(tlb := (set e | e in s.tlb && !Invalidates(FlushFor(cfg, s.g), e)),
         phase := Invalidated(free, close))
  }

  function Next(cfg: Config, s: State, step: Step): State
    requires Permitted(cfg, s, step)
  {
    match step
    case Hook(m) => s.(live := s.live + {m}, freed := s.freed - {m.page})
    case Fill(m, e) => s.(tlb := s.tlb + {e})
    case Evict(e) => s.(tlb := s.tlb - {e})
    case Unhook(m) => s.(live := s.live - {m}, unhooked := s.unhooked + {m})
    case Recording(r) =>
      s.(g := RecordRange(s.g, r.level, r.address, r.size, r.table),
         unhooked := s.unhooked - r.mappings,
         records := s.records + [r])
    case QueuePage(p, full) =>
      var s' := s.(queue := s.queue + {p});
      if full then BeginFlush(cfg, s', true, false) else s'
    case OpenVma(v) => s.(g := StartVma(cfg, s.g, v), bracket := Inside(v))
    case CloseVma =>
      if EndVmaFlushes(cfg, s.g) then BeginFlush(cfg, s, false, true) else s.(bracket := Outside)
    case ForceFlushAll => s.(g := s.g.(needFlushAll := true))
    case ChangePageSize(size) =>
      var flush := PageSizeFlushes(cfg, s.g, size);
      var s' := s.(g := SetPageSize(cfg, s.g, size));
      if flush then BeginFlush(cfg, s', true, false) else s'
    case StartFlush(free) => BeginFlush(cfg, s, free, false)
    case Notify =>
      s.(tlb := (set e | e in s.tlb && !(e.cache == Secondary && Overlaps(e, s.g.start, s.g.end))),
         phase := Notified(s.phase.free, s.phase.close))
    case Reset =>
      s.(g := ResetRange(cfg, s.g), records := [],
         bracket := if s.phase.close then Outside else s.bracket,
         phase := AfterReset(s.phase.free))
    case FreeQueue => s.(freed := s.freed + s.queue, queue := {}, phase := Idle)
  }

  // ---------------------------------------------------------------- invariants

  ghost predicate HasLevel(records: seq<Record>, level: Level) {
    exists r :: r in records && r.level == level
  }

  ghost predicate HasTable(records: seq<Record>) {
    exists r :: r in records && r.table
  }

  /** Each level bit is set exactly when a range of that level was recorded since the last reset. */
  ghost predicate BitsMatch(c: Cleared, records: seq<Record>) {
    && (c.ptes <==> HasLevel(records, Pte))
    && (c.pmds <==> HasLevel(records, Pmd))
    && (c.puds <==> HasLevel(records, Pud))
    && (c.p4ds <==> HasLevel(records, P4d))
    && (c.tables <==> HasTable(records))
  }

  /** The recorded range lies in the tracked one. */
  predicate Tracked(s: State, r: Record) {
    Representable(r) && s.g.start <= r.address && r.address + r.size <= s.g.end
  }

  ghost predicate RangesCovered(s: State) {
    forall r :: r in s.records ==> Tracked(s, r)
  }

  /** The record accounts for its mappings, each inside the bracket of its VMA. */
  ghost predicate WellRecorded(cfg: Config, s: State, r: Record) {
    forall m :: m in r.mappings ==> Accounts(r, m) && InBracket(cfg, s, m)
  }

  /** The tracked VMA flags are those of every leaf mapping waiting for a ranged flush. */
  ghost predicate FlagsMatch(cfg: Config, s: State) {
    && (s.bracket.Inside? && !cfg.noRange && !s.g.fullmm ==>
          s.bracket.vma == s.g.vma)
    && forall r :: r in s.records ==> WellRecorded(cfg, s, r)
  }

  ghost predicate FromLive(s: State, e: Entry) { exists m :: m in s.live && CachedFrom(e, m) }
  ghost predicate FromUnhooked(s: State, e: Entry) { exists m :: m in s.unhooked && CachedFrom(e, m) }
  ghost predicate FromRecord(s: State, e: Entry) {
    exists r, m :: r in s.records && m in r.mappings && CachedFrom(e, m)
  }

  /** A flush in progress has already removed the recorded entries of this cache. */
  predicate AlreadyFlushed(s: State, e: Entry) {
    s.phase.Notified? || (s.phase.Invalidated? && e.cache != Secondary)
  }

  /** Every cached entry comes from a live mapping, from one not yet recorded, or from one still to be flushed. */
  ghost predicate EntriesExplained(s: State) {
    forall e :: e in s.tlb ==>
      FromLive(s, e) || FromUnhooked(s, e) || (FromRecord(s, e) && !AlreadyFlushed(s, e))
  }

  ghost predicate PagesHeld(s: State) {
    && (forall m :: m in s.live || m in s.unhooked ==> m.page !in s.queue && m.page !in s.freed)
    && (forall e :: e in s.tlb ==> e.page !in s.freed)
    && s.queue !! s.freed
  }

  ghost predicate PhaseMatch(cfg: Config, s: State) {
    && (s.phase == Freeing ==> s.records == [])
    && ((s.phase.Invalidated? || s.phase.Notified?) && s.phase.close ==> EndVmaFlushes(cfg, s.g))
    && s.g.end < TWO64
  }

  ghost predicate Inv(cfg: Config, s: State) {
    && BitsMatch(s.g.cleared, s.records) && RangesCovered(s) && FlagsMatch(cfg, s)
    && EntriesExplained(s) && PagesHeld(s) && PhaseMatch(cfg, s)
  }

  /** A gather just started, over any page table and any TLB filled from it. */
  ghost predicate Initial(cfg: Config, s: State) {
    && (s.g == Started(cfg, true) || s.g == Started(cfg, false))
    && s.unhooked == {} && s.records == [] && s.queue == {} && s.bracket == Outside && s.phase == Idle
    && (forall m :: m in s.live ==> m.page !in s.freed)
    && (forall e :: e in s.tlb ==> FromLive(s, e))
  }

  lemma InitialInv(cfg: Config, s: State)
    requires Initial(cfg, s)
    ensures Inv(cfg, s)
  {
  }

  /** Something was recorded exactly when one of the five bits is set, so the early return drops nothing. */
  lemma AnyClearedIffRecorded(s: State)
    requires BitsMatch(s.g.cleared, s.records) && RangesCovered(s)
    ensures AnyCleared(s.g) <==> s.records != []
  {
    if s.records != [] {
      assert Tracked(s, s.records[0]);
    }
  }

  /** The CPU invalidation removes every recorded entry outside the secondary TLB. */
  lemma InvalidationReaches(cfg: Config, s: State, e: Entry)
    requires RangesCovered(s) && FlagsMatch(cfg, s)
    requires FromRecord(s, e) && e.cache != Secondary
    ensures Invalidates(FlushFor(cfg, s.g), e)
  {
    var r, m :| r in s.records && m in r.mappings && CachedFrom(e, m);
    assert Tracked(s, r) && WellRecorded(cfg, s, r);
  }

  /** The range given to the notifiers covers every recorded entry. */
  lemma NotifierReaches(cfg: Config, s: State, e: Entry)
    requires RangesCovered(s) && FlagsMatch(cfg, s) && FromRecord(s, e)
    ensures Overlaps(e, s.g.start, s.g.end)
  {
    var r, m :| r in s.records && m in r.mappings && CachedFrom(e, m);
    assert Tracked(s, r) && WellRecorded(cfg, s, r);
  }

  lemma BeginFlushKeeps(cfg: Config, s: State, free: bool, close: bool)
    requires Inv(cfg, s) && s.phase == Idle && (close ==> EndVmaFlushes(cfg, s.g))
    ensures Inv(cfg, BeginFlush(cfg, s, free, close))
  {
    AnyClearedIffRecorded(s);
    var s' := BeginFlush(cfg, s, free, close);
    forall e | e in s'.tlb
      ensures FromLive(s', e) || FromUnhooked(s', e) || (FromRecord(s', e) && !AlreadyFlushed(s', e))
    {
      assert e in s.tlb;
      if FromRecord(s, e) && e.cache != Secondary { InvalidationReaches(cfg, s, e); }
    }
  }

  lemma RecordingKeeps(cfg: Config, s: State, r: Record)
    requires Inv(cfg, s) && Enabled(cfg, s, Recording(r))
    ensures Inv(cfg, Next(cfg, s, Recording(r)))
  {
    var s' := Next(cfg, s, Recording(r));
    RecordedRange(s.g, r);
    RecordingKeepsBits(s.g.cleared, s.records, r);
    RecordingTracks(cfg, s, r, s');
    RecordingKeepsEntries(s, r, s');
  }

  /** Recording widens the tracked range and leaves the flags that drive a flush alone. */
  lemma RecordedRange(g: Gather, r: Record)
    requires Representable(r)
    ensures var g' := RecordRange(g, r.level, r.address, r.size, r.table);
            && g'.start == Min(g.start, r.address) && g'.end == Max(g.end, r.address + r.size)
            && g'.fullmm == g.fullmm && g'.vma == g.vma
  {
    assert U32(r.size) == r.size && U64(r.address + r.size) == r.address + r.size;
  }

  lemma RecordingKeepsEntries(s: State, r: Record, s': State)
    requires EntriesExplained(s)
    requires s'.records == s.records + [r] && s'.unhooked == s.unhooked - r.mappings
    requires s'.tlb == s.tlb && s'.live == s.live && s'.phase == s.phase == Idle
    ensures EntriesExplained(s')
  {
    assert r in s'.records;
    forall e | e in s'.tlb
      ensures FromLive(s', e) || FromUnhooked(s', e) || (FromRecord(s', e) && !AlreadyFlushed(s', e))
    {
      if FromUnhooked(s, e) {
        var m :| m in s.unhooked && CachedFrom(e, m);
        assert m in r.mappings || m in s'.unhooked;
      } else if FromRecord(s, e) {
        var x, m :| x in s.records && m in x.mappings && CachedFrom(e, m);
        assert x in s'.records;
      } else {
        assert FromLive(s, e);
      }
    }
  }

  lemma RecordingKeepsBits(c: Cleared, records: seq<Record>, r: Record)
    requires BitsMatch(c, records)
    ensures BitsMatch(MarkTable(MarkLevel(c, r.level), r.table), records + [r])
  {
    LevelAppended(records, r, Pte);
    LevelAppended(records, r, Pmd);
    LevelAppended(records, r, Pud);
    LevelAppended(records, r, P4d);
    assert r in records + [r];
    assert forall x :: x in records ==> x in records + [r];
    assert HasTable(records + [r]) <==> r.table || HasTable(records);
  }

  lemma LevelAppended(records: seq<Record>, r: Record, level: Level)
    ensures HasLevel(records + [r], level) <==> r.level == level || HasLevel(records, level)
  {
    assert r in records + [r];
    assert forall x :: x in records ==> x in records + [r];
  }

  lemma RecordingTracks(cfg: Config, s: State, r: Record, s': State)
    requires RangesCovered(s) && FlagsMatch(cfg, s)
    requires Representable(r) && WellRecorded(cfg, s, r)
    requires s'.records == s.records + [r] && s'.bracket == s.bracket
    requires s'.g.start == Min(s.g.start, r.address) && s'.g.end == Max(s.g.end, r.address + r.size)
    requires s'.g.fullmm == s.g.fullmm && s'.g.vma == s.g.vma
    ensures RangesCovered(s') && FlagsMatch(cfg, s')
  {
    forall x | x in s'.records ensures Tracked(s', x) && WellRecorded(cfg, s', x) {
      if x != r { assert Tracked(s, x) && WellRecorded(cfg, s, x); } else { assert WellRecorded(cfg, s, r); }
    }
  }

  lemma UnhookKeeps(cfg: Config, s: State, m: Mapping)
    requires Inv(cfg, s) && Enabled(cfg, s, Unhook(m))
    ensures Inv(cfg, Next(cfg, s, Unhook(m)))
  {
    var s' := Next(cfg, s, Unhook(m));
    forall e | e in s'.tlb
      ensures FromLive(s', e) || FromUnhooked(s', e) || (FromRecord(s', e) && !AlreadyFlushed(s', e))
    {
      if FromLive(s, e) {
        var m' :| m' in s.live && CachedFrom(e, m');
        if m' == m { assert m in s'.unhooked; } else { assert m' in s'.live; }
      } else if FromUnhooked(s, e) {
        var m' :| m' in s.unhooked && CachedFrom(e, m');
        assert m' in s'.unhooked;
      } else {
        assert FromRecord(s', e);
      }
    }
  }

  lemma NotifyKeeps(cfg: Config, s: State)
    requires Inv(cfg, s) && s.phase.Invalidated?
    ensures Inv(cfg, Next(cfg, s, Notify))
  {
    var s' := Next(cfg, s, Notify);
    forall e | e in s'.tlb
      ensures FromLive(s', e) || FromUnhooked(s', e) || (FromRecord(s', e) && !AlreadyFlushed(s', e))
    {
      assert e in s.tlb;
      if FromRecord(s, e) { NotifierReaches(cfg, s, e); }
    }
  }

  lemma ResetKeeps(cfg: Config, s: State)
    requires Inv(cfg, s) && s.phase.Notified?
    ensures Inv(cfg, Next(cfg, s, Reset))
  {
    var s' := Next(cfg, s, Reset);
    forall e | e in s'.tlb
      ensures FromLive(s', e) || FromUnhooked(s', e)
    {
      assert AlreadyFlushed(s, e);
      assert FromLive(s, e) || FromUnhooked(s, e);
    }
  }

  lemma FreeKeeps(cfg: Config, s: State)
    requires Inv(cfg, s) && s.phase == Freeing
    ensures Inv(cfg, Next(cfg, s, FreeQueue))
  {
    forall e | e in s.tlb ensures e.page !in s.queue && (FromLive(s, e) || FromUnhooked(s, e)) {
      assert !FromRecord(s, e);
      var m :| (m in s.live || m in s.unhooked) && CachedFrom(e, m);
      assert m.page !in s.queue;
    }
  }

  /** Steps of the environment: a new mapping, a TLB fill at any moment, a dropped entry. */
  lemma EnvironmentKeeps(cfg: Config, s: State, step: Step)
    requires Inv(cfg, s) && Enabled(cfg, s, step) && (step.Hook? || step.Fill? || step.Evict?)
    ensures Inv(cfg, Next(cfg, s, step))
  {
    var s' := Next(cfg, s, step);
    forall e | e in s'.tlb
      ensures FromLive(s', e) || FromUnhooked(s', e) || (FromRecord(s', e) && !AlreadyFlushed(s', e))
    {
      if step.Fill? && e == step.e {
        assert FromLive(s', e);
      } else {
        assert e in s.tlb;
        if FromLive(s, e) {
          var m :| m in s.live && CachedFrom(e, m);
          assert m in s'.live;
        } else if FromUnhooked(s, e) {
          assert FromUnhooked(s', e);
        } else {
          assert FromRecord(s', e);
        }
      }
    }
  }

  lemma QueueKeeps(cfg: Config, s: State, p: Page, full: bool)
    requires Inv(cfg, s) && Enabled(cfg, s, QueuePage(p, full))
    ensures Inv(cfg, Next(cfg, s, QueuePage(p, full)))
  {
    var s' := s.(queue := s.queue + {p});
    assert Inv(cfg, s') by { SameEntries(cfg, s, s'); }
    if full { BeginFlushKeeps(cfg, s', true, false); }
  }

  /** Only bookkeeping that the entries do not depend on has changed. */
  lemma SameEntries(cfg: Config, s: State, s': State)
    requires EntriesExplained(s)
    requires s'.live == s.live && s'.unhooked == s.unhooked && s'.records == s.records && s'.tlb == s.tlb
    requires s'.phase == s.phase
    ensures EntriesExplained(s')
  {
    forall e | e in s'.tlb
      ensures FromLive(s', e) || FromUnhooked(s', e) || (FromRecord(s', e) && !AlreadyFlushed(s', e))
    {
      assert FromLive(s', e) == FromLive(s, e);
      assert FromUnhooked(s', e) == FromUnhooked(s, e);
      assert FromRecord(s', e) == FromRecord(s, e);
    }
  }

  lemma ChangePageSizeKeeps(cfg: Config, s: State, size: nat)
    requires Inv(cfg, s) && Enabled(cfg, s, ChangePageSize(size))
    ensures Inv(cfg, Next(cfg, s, ChangePageSize(size)))
  {
    var s' := s.(g := SetPageSize(cfg, s.g, size));
    assert Inv(cfg, s') by { SameEntries(cfg, s, s'); }
    if PageSizeFlushes(cfg, s.g, size) { BeginFlushKeeps(cfg, s', true, false); }
  }

  lemma VmaStepKeeps(cfg: Config, s: State, step: Step)
    requires Inv(cfg, s) && Enabled(cfg, s, step)
    requires step.OpenVma? || step.CloseVma? || step.ForceFlushAll? || step.ChangePageSize? || step.StartFlush?
    ensures Inv(cfg, Next(cfg, s, step))
  {
    match step {
      case OpenVma(v) => SameEntries(cfg, s, Next(cfg, s, step));
      case CloseVma =>
        if EndVmaFlushes(cfg, s.g) {
          BeginFlushKeeps(cfg, s, false, true);
        } else {
          SameEntries(cfg, s, Next(cfg, s, step));
        }
      case ForceFlushAll => SameEntries(cfg, s, Next(cfg, s, step));
      case ChangePageSize(size) => ChangePageSizeKeeps(cfg, s, size);
      case StartFlush(free) => BeginFlushKeeps(cfg, s, free, false);
    }
  }

  lemma StepKeeps(cfg: Config, s: State, step: Step)
    requires Inv(cfg, s) && Enabled(cfg, s, step)
    ensures Inv(cfg, Next(cfg, s, step))
  {
    match step {
      case Hook(_) => EnvironmentKeeps(cfg, s, step);
      case Fill(_, _) => EnvironmentKeeps(cfg, s, step);
      case Evict(_) => EnvironmentKeeps(cfg, s, step);
      case Unhook(m) => UnhookKeeps(cfg, s, m);
      case Recording(r) => RecordingKeeps(cfg, s, r);
      case QueuePage(p, full) => QueueKeeps(cfg, s, p, full);
      case Notify => NotifyKeeps(cfg, s);
      case Reset => ResetKeeps(cfg, s);
      case FreeQueue => FreeKeeps(cfg, s);
      case _ => VmaStepKeeps(cfg, s, step);
    }
  }

  // ---------------------------------------------------------------- runs

  ghost predicate Run(cfg: Config, s: State, steps: seq<Step>, s': State)
    decreases |steps|
  {
    if steps == [] then s' == s
    else Enabled(cfg, s, steps[0]) && Run(cfg, Next(cfg, s, steps[0]), steps[1..], s')
  }

  lemma {:induction false} RunKeeps(cfg: Config, s: State, steps: seq<Step>, s': State)
    requires Inv(cfg, s) && Run(cfg, s, steps, s')
    ensures Inv(cfg, s')
    decreases |steps|
  {
    if steps != [] {
      StepKeeps(cfg, s, steps[0]);
      RunKeeps(cfg, Next(cfg, s, steps[0]), steps[1..], s');
    }
  }

  /** In every run, no cached translation of any kind ever leads to a freed page. */
  lemma NoTranslationToFreedPage(cfg: Config, s: State, steps: seq<Step>, s': State)
    requires Initial(cfg, s) && Run(cfg, s, steps, s')
    ensures forall e :: e in s'.tlb ==> e.page !in s'.freed
  {
    InitialInv(cfg, s);
    RunKeeps(cfg, s, steps, s');
  }

  // ---------------------------------------------------------------- what a flush does

  /** With need_flush_all, or where ranges are not used, a flush leaves only secondary TLB entries behind. */
  lemma WholeFlushLeavesNothing(cfg: Config, s: State, steps: seq<Step>, s': State, free: bool)
    requires Initial(cfg, s) && Run(cfg, s, steps, s') && s'.phase == Idle && s'.records != []
    requires s'.g.needFlushAll || s'.g.fullmm || cfg.noRange
    ensures forall e :: e in Next(cfg, s', StartFlush(free)).tlb ==> e.cache == Secondary
  {
    NothingRecordedIsDropped(cfg, s, steps, s');
  }

  /** The tracked range is no wider than what was recorded: each end is an end of some record, or still as reset. */
  ghost predicate Hull(cfg: Config, s: State) {
    var base := ResetRange(cfg, s.g);
    && (s.g.start == base.start || exists r :: r in s.records && s.g.start == r.address)
    && (s.g.end == base.end || exists r :: r in s.records && s.g.end == r.address + r.size)
  }

  lemma RecordingKeepsHull(cfg: Config, s: State, r: Record)
    requires Hull(cfg, s) && Enabled(cfg, s, Recording(r))
    ensures Hull(cfg, Next(cfg, s, Recording(r)))
  {
    RecordedRange(s.g, r);
    var t := Next(cfg, s, Recording(r));
    assert r in t.records && forall x :: x in s.records ==> x in t.records;
  }

  lemma OtherStepKeepsHull(cfg: Config, s: State, step: Step)
    requires Hull(cfg, s) && Enabled(cfg, s, step) && !step.Recording?
    ensures Hull(cfg, Next(cfg, s, step))
  {
  }

  lemma {:induction false} RunKeepsHull(cfg: Config, s: State, steps: seq<Step>, s': State)
    requires Hull(cfg, s) && Run(cfg, s, steps, s')
    ensures Hull(cfg, s')
    decreases |steps|
  {
    if steps != [] {
      if steps[0].Recording? { RecordingKeepsHull(cfg, s, steps[0].r); } else { OtherStepKeepsHull(cfg, s, steps[0]); }
      RunKeepsHull(cfg, Next(cfg, s, steps[0]), steps[1..], s');
    }
  }

  /**
   A flush that goes by range goes from the lowest recorded address (or TASK_SIZE, if that is
   lower) to the highest recorded end, neither more nor less.
   */
  lemma RangedFlushIsHull(cfg: Config, s: State, steps: seq<Step>, s': State)
    requires Initial(cfg, s) && Run(cfg, s, steps, s') && s'.records != []
    ensures FlushFor(cfg, s'.g).FlushRange? <==> !cfg.noRange && !s'.g.fullmm && !s'.g.needFlushAll
    ensures var f := FlushFor(cfg, s'.g);
            f.FlushRange? ==>
              && (forall r :: r in s'.records ==> f.start <= r.address && r.address + r.size <= f.end)
              && (f.start == cfg.taskSize || exists r :: r in s'.records && f.start == r.address)
              && (exists r :: r in s'.records && f.end == r.address + r.size)
  {
    NothingRecordedIsDropped(cfg, s, steps, s');
    RunKeepsHull(cfg, s, steps, s');
    assert s'.records[0] in s'.records;
    InitialInv(cfg, s);
    RunKeeps(cfg, s, steps, s');
  }

  /**
   `tlb_flush_mmu` left alone: the CPU invalidation, the notification, the reset, and then every
   queued page is freed; the batch is empty and nothing else has changed.
   */
  lemma FlushMmuFinishes(cfg: Config, s: State) returns (a: State, b: State, c: State, d: State)
    requires Inv(cfg, s) && s.phase == Idle
    ensures a == Next(cfg, s, StartFlush(true))
    ensures s.records != [] ==>
              && Enabled(cfg, a, Notify) && b == Next(cfg, a, Notify)
              && Enabled(cfg, b, Reset) && c == Next(cfg, b, Reset)
    ensures s.records == [] ==> c == a
    ensures Enabled(cfg, c, FreeQueue) && d == Next(cfg, c, FreeQueue)
    ensures d.phase == Idle && d.records == [] && d.queue == {} && d.freed == s.freed + s.queue
    ensures d.live == s.live && d.unhooked == s.unhooked && d.bracket == s.bracket && d.tlb <= s.tlb
  {
    AnyClearedIffRecorded(s);
    a := Next(cfg, s, StartFlush(true));
    b, c := a, a;
    if s.records != [] {
      b := Next(cfg, a, Notify);
      c := Next(cfg, b, Reset);
    }
    d := Next(cfg, c, FreeQueue);
  }

  /** need_flush_all makes the next flush a whole one, whatever was recorded. */
  lemma ForcedFlushLeavesNothing(cfg: Config, s: State, free: bool)
    requires Inv(cfg, s) && s.phase == Idle && s.records != []
    ensures var t := Next(cfg, s, ForceFlushAll);
            forall e :: e in Next(cfg, t, StartFlush(free)).tlb ==> e.cache == Secondary
  {
    AnyClearedIffRecorded(s);
    NonEmptyRange(cfg, s);
  }

  lemma NonEmptyRange(cfg: Config, s: State)
    requires Inv(cfg, s) && s.records != []
    ensures s.g.end != 0
  {
    assert Tracked(s, s.records[0]);
  }

  /** A page is queued; when that fills the queue the flush that will free it begins. */
  lemma QueuePageQueues(cfg: Config, s: State, p: Page, full: bool)
    requires Inv(cfg, s) && Enabled(cfg, s, QueuePage(p, full))
    ensures var t := Next(cfg, s, QueuePage(p, full));
            && t.queue == s.queue + {p} && t.records == s.records && t.freed == s.freed
            && t.phase == (if !full then Idle else if s.records == [] then Freeing else Invalidated(true, false))
  {
    AnyClearedIffRecorded(s);
  }

  /** A change of page size flushes a batch of another size, unless the whole mm goes anyway. */
  lemma PageSizeChange(cfg: Config, s: State, size: nat)
    requires Inv(cfg, s) && s.phase == Idle
    ensures var t := Next(cfg, s, ChangePageSize(size));
            var other := cfg.trackPageSize && s.g.pageSize != 0 && s.g.pageSize != size;
            && t.g.pageSize == (if cfg.trackPageSize then size else s.g.pageSize)
            && t.phase == (if !other || s.g.fullmm || s.g.needFlushAll then Idle
                           else if s.records == [] then Freeing else Invalidated(true, false))
  {
    AnyClearedIffRecorded(s);
  }

  // ---------------------------------------------------------------- sizes that are not tracked

  /** Which address and size callers may record. */
  type Sizes = (nat, nat) -> bool

  predicate EnabledBy(cfg: Config, sizes: Sizes, s: State, step: Step) {
    && Permitted(cfg, s, step)
    && (step.Recording? ==>
          var r := step.r;
          r.size > 0 && sizes(r.address, r.size) && (r.level == Top ==> r.table))
  }

  ghost predicate RunBy(cfg: Config, sizes: Sizes, s: State, steps: seq<Step>, s': State)
    decreases |steps|
  {
    if steps == [] then s' == s
    else EnabledBy(cfg, sizes, s, steps[0]) && RunBy(cfg, sizes, Next(cfg, s, steps[0]), steps[1..], s')
  }

  ghost predicate ReachableBy(cfg: Config, sizes: Sizes, s: State) {
    exists s0, steps :: Initial(cfg, s0) && RunBy(cfg, sizes, s0, steps, s)
  }

  ghost predicate Safe(s: State) {
    forall e :: e in s.tlb ==> e.page !in s.freed
  }

  ghost predicate AlwaysSafe(cfg: Config, sizes: Sizes) {
    forall s :: ReachableBy(cfg, sizes, s) ==> Safe(s)
  }

  ghost predicate AllFit(sizes: Sizes) {
    forall a: nat, n: nat :: n > 0 && sizes(a, n) ==> Fits(a, n)
  }

  /** With sizes that fit, these are the runs of before. */
  lemma {:induction false} FittingRun(cfg: Config, sizes: Sizes, s: State, steps: seq<Step>, s': State)
    requires AllFit(sizes) && RunBy(cfg, sizes, s, steps, s')
    ensures Run(cfg, s, steps, s')
    decreases |steps|
  {
    if steps != [] { FittingRun(cfg, sizes, Next(cfg, s, steps[0]), steps[1..], s'); }
  }

  lemma {:induction false} RunByAppend(
    cfg: Config, sizes: Sizes, s: State, steps: seq<Step>, s': State, step: Step)
    requires RunBy(cfg, sizes, s, steps, s') && EnabledBy(cfg, sizes, s', step)
    ensures RunBy(cfg, sizes, s, steps + [step], Next(cfg, s', step))
    decreases |steps|
  {
    var all := steps + [step];
    assert all[0] == if steps == [] then step else steps[0];
    if steps == [] {
      assert all[1..] == [];
    } else {
      assert all[1..] == steps[1..] + [step];
      RunByAppend(cfg, sizes, Next(cfg, s, steps[0]), steps[1..], s', step);
    }
  }

  lemma ReachBy(cfg: Config, sizes: Sizes, s: State, step: Step) returns (t: State)
    requires ReachableBy(cfg, sizes, s) && EnabledBy(cfg, sizes, s, step)
    ensures t == Next(cfg, s, step) && ReachableBy(cfg, sizes, t)
  {
    t := Next(cfg, s, step);
    var s0, steps :| Initial(cfg, s0) && RunBy(cfg, sizes, s0, steps, s);
    RunByAppend(cfg, sizes, s0, steps, s, step);
  }

  /** A page mapped at [a, a + n), and its last address in a TLB. */
  function LostMapping(a: nat, n: nat): Mapping {
    Mapping(a, a + n, 0, false, Vma(false, false))
  }

  function LostEntry(cache: Cache, a: nat, n: nat): Entry
    requires n > 0
  {
    Entry(cache, a + n - 1, a + n, 0, false)
  }

  /** The mapping is unhooked with its translation cached. */
  lemma ReachUnhooked(cfg: Config, sizes: Sizes, cache: Cache, a: nat, n: nat) returns (s: State)
    requires n > 0 && (cache == Data || cache == Secondary)
    ensures ReachableBy(cfg, sizes, s) && s.g == StartVma(cfg, Started(cfg, false), Vma(false, false))
    ensures s.live == {} && s.unhooked == {LostMapping(a, n)} && s.tlb == {LostEntry(cache, a, n)}
    ensures s.queue == {} && s.freed == {} && s.bracket == Inside(Vma(false, false)) && s.phase == Idle
  {
    var m, e, v := LostMapping(a, n), LostEntry(cache, a, n), Vma(false, false);
    s := State(Started(cfg, false), {m}, {}, [], {}, {}, {}, Outside, Idle);
    assert Initial(cfg, s) && RunBy(cfg, sizes, s, [], s);
    s := ReachBy(cfg, sizes, s, OpenVma(v));
    s := ReachBy(cfg, sizes, s, Fill(m, e));
    s := ReachBy(cfg, sizes, s, Unhook(m));
  }

  /** Notified ranges always follow start and end, invalidations of the CPU only if ranges are tracked. */
  predicate Missable(cfg: Config, cache: Cache) {
    cache == Secondary || (cache == Data && !cfg.noRange)
  }

  /** Recorded with a size that does not fit, the range stops short of the cached address. */
  lemma FlushMisses(cfg: Config, cache: Cache, a: nat, n: nat, g: Gather)
    requires n > 0 && !Fits(a, n) && Missable(cfg, cache)
    requires g == RecordRange(StartVma(cfg, Started(cfg, false), Vma(false, false)), Pmd, a, n, false)
    ensures var e := LostEntry(cache, a, n);
            AnyCleared(g) && !Invalidates(FlushFor(cfg, g), e) && !Overlaps(e, g.start, g.end)
  {
    AdjustCoversIff(Started(cfg, false), a, n);
  }

  /**
   A size that does not fit 32 bits, or an end past the address space: a run that frees the page
   while its translation is still cached, in a secondary TLB always, in the data TLB whenever
   flushes go by range.
   */
  lemma WideRecordFreesTooEarly(cfg: Config, sizes: Sizes, cache: Cache, a: nat, n: nat) returns (s: State)
    requires n > 0 && sizes(a, n) && !Fits(a, n) && Missable(cfg, cache)
    ensures ReachableBy(cfg, sizes, s)
    ensures LostEntry(cache, a, n) in s.tlb && LostEntry(cache, a, n).page in s.freed
  {
    s := ReachUnhooked(cfg, sizes, cache, a, n);
    s := ReachBy(cfg, sizes, s, Recording(Record(Pmd, a, n, false, {LostMapping(a, n)})));
    FlushMisses(cfg, cache, a, n, s.g);
    s := ReachBy(cfg, sizes, s, QueuePage(0, false));
    s := FlushAndFree(cfg, sizes, s, LostEntry(cache, a, n));
  }

  lemma FlushAndFree(cfg: Config, sizes: Sizes, s: State, e: Entry) returns (t: State)
    requires ReachableBy(cfg, sizes, s) && s.phase == Idle && AnyCleared(s.g)
    requires e in s.tlb && e.page in s.queue
    requires !Invalidates(FlushFor(cfg, s.g), e) && !Overlaps(e, s.g.start, s.g.end)
    ensures ReachableBy(cfg, sizes, t) && e in t.tlb && e.page in t.freed
  {
    t := ReachBy(cfg, sizes, s, StartFlush(true));
    t := ReachBy(cfg, sizes, t, Notify);
    t := ReachBy(cfg, sizes, t, Reset);
    t := ReachBy(cfg, sizes, t, FreeQueue);
  }

  /** No translation outlives its page, in any run, exactly when every size recorded fits. */
  lemma SafeIffSizesFit(cfg: Config, sizes: Sizes)
    ensures AlwaysSafe(cfg, sizes) <==> AllFit(sizes)
  {
    if AllFit(sizes) {
      forall s | ReachableBy(cfg, sizes, s) ensures Safe(s) {
        var s0, steps :| Initial(cfg, s0) && RunBy(cfg, sizes, s0, steps, s);
        FittingRun(cfg, sizes, s0, steps, s);
        NoTranslationToFreedPage(cfg, s0, steps, s);
      }
    } else {
      var a: nat, n: nat :| n > 0 && sizes(a, n) && !Fits(a, n);
      var s := WideRecordFreesTooEarly(cfg, sizes, Secondary, a, n);
    }
  }

  // ---------------------------------------------------------------- what is recorded

  /**
   In every reachable state the recorded ranges lie in the tracked range, and the test that
   lets `tlb_flush_mmu_tlbonly` return early is true exactly when nothing was recorded.
   */
  lemma NothingRecordedIsDropped(cfg: Config, s: State, steps: seq<Step>, s': State)
    requires Initial(cfg, s) && Run(cfg, s, steps, s')
    ensures AnyCleared(s'.g) <==> s'.records != []
    ensures forall r :: r in s'.records ==> s'.g.start <= r.address && r.address + r.size <= s'.g.end
    ensures s'.records != [] ==> FlushFor(cfg, s'.g) != NoFlush
  {
    InitialInv(cfg, s);
    RunKeeps(cfg, s, steps, s');
    AnyClearedIffRecorded(s');
    assert forall r :: r in s'.records ==> Tracked(s', r);
    if s'.records != [] { assert Tracked(s', s'.records[0]); }
  }

  /** In every reachable state a ranged flush would carry the flags of the VMA each recorded leaf came from. */
  lemma RangedFlushCarriesVmaFlags(cfg: Config, s: State, steps: seq<Step>, s': State, r: Record, m: Mapping)
    requires Initial(cfg, s) && Run(cfg, s, steps, s')
    requires r in s'.records && m in r.mappings && !m.table
    ensures FlushFor(cfg, s'.g).FlushRange? ==> FlushFor(cfg, s'.g).vma == m.vma
  {
    InitialInv(cfg, s);
    RunKeeps(cfg, s, steps, s');
    assert WellRecorded(cfg, s', r);
  }

  /**
   tlb_get_unmap_shift returns the smallest entry size recorded since the last reset: none
   is smaller, and once a range with a level bit was recorded it is one of them.
   */
  lemma UnmapShiftIsSmallest(cfg: Config, s: State, steps: seq<Step>, s': State)
    requires cfg.Valid() && Initial(cfg, s) && Run(cfg, s, steps, s')
    ensures forall r :: r in s'.records && r.level != Top ==> UnmapShift(cfg, s'.g) <= LevelShift(cfg, r.level)
    ensures (exists r :: r in s'.records && r.level != Top) ==>
              exists r :: r in s'.records && r.level != Top && UnmapShift(cfg, s'.g) == LevelShift(cfg, r.level)
  {
    InitialInv(cfg, s);
    RunKeeps(cfg, s, steps, s');
    if r :| r in s'.records && r.level != Top {
      var level := if s'.g.cleared.ptes then Pte else if s'.g.cleared.pmds then Pmd
                   else if s'.g.cleared.puds then Pud else P4d;
      var x :| x in s'.records && x.level == level;
    }
  }
}
