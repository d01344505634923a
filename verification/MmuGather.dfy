/**
 The mmu_gather state and its operations (asm-generic/tlb.h): which address range and which
 page-table levels are waiting for a TLB invalidation, and which invalidation is issued.

 `Gather` is the value of `struct mmu_gather`; the functions below give the meaning of each
 operation and the class `MmuGather` carries them out field by field.
 */
module MmuGather {
  import opened Bits

  /** Compile-time choices and architecture constants. */
  datatype Config = Config(
    taskSize: nat, pageShift: nat, pmdShift: nat, pudShift: nat, p4dShift: nat,
    noRange: bool,       // CONFIG_MMU_GATHER_NO_RANGE
    trackPageSize: bool  // CONFIG_MMU_GATHER_PAGE_SIZE
  ) {
    function PageSize(): nat { Pow2(pageShift) }
    function PmdSize(): nat { Pow2(pmdShift) }
    function PudSize(): nat { Pow2(pudShift) }
    ghost predicate Valid() {
      pageShift <= pmdShift <= pudShift <= p4dShift && pageShift < 32
    }
  }

  datatype Vma = Vma(exec: bool, hugetlb: bool)

  /** freed_tables and the four cleared_* bits. */
  datatype Cleared = Cleared(tables: bool, ptes: bool, pmds: bool, puds: bool, p4ds: bool) {
    predicate Any() { tables || ptes || pmds || puds || p4ds }
  }

  const NOTHING := Cleared(false, false, false, false, false)

  /** `vma` holds vma_exec and vma_huge. */
  datatype Gather = Gather(
    start: nat, end: nat, fullmm: bool, needFlushAll: bool, cleared: Cleared, vma: Vma, pageSize: nat)

  /** The CPU invalidation issued by the default `tlb_flush`. */
  datatype Flush = NoFlush | FlushMm | FlushRange(vma: Vma, start: nat, end: nat)

  /** The page-table level a recorded range belongs to; `Top` is p4d_free_tlb, which has no level bit. */
  datatype Level = Pte | Pmd | Pud | P4d | Top

  // ---------------------------------------------------------------- meaning of the operations

  function Min(a: nat, b: nat): nat { if a < b then a else b }
  function Max(a: nat, b: nat): nat { if a < b then b else a }

  /** `__tlb_adjust_range`; its size parameter is an `unsigned int` and the sum is an `unsigned long`. */
  function AdjustRange(g: Gather, address: nat, size: nat): Gather {
    g.(start := Min(g.start, address), end := Max(g.end, U64(address + U32(size))))
  }

  /** `__tlb_reset_range`. */
  function ResetRange(cfg: Config, g: Gather): Gather {
    g.(start := if g.fullmm then TWO64 - 1 else cfg.taskSize,
       end := if g.fullmm then TWO64 - 1 else 0,
       cleared := NOTHING)
  }

  function MarkLevel(c: Cleared, level: Level): Cleared {
    match level
    case Pte => c.(ptes := true)
    case Pmd => c.(pmds := true)
    case Pud => c.(puds := true)
    case P4d => c.(p4ds := true)
    case Top => c
  }

  /** The bit of this level is set. */
  predicate Marked(c: Cleared, level: Level) {
    match level
    case Pte => c.ptes
    case Pmd => c.pmds
    case Pud => c.puds
    case P4d => c.p4ds
    case Top => false
  }

  function MarkTable(c: Cleared, table: bool): Cleared {
    if table then c.(tables := true) else c
  }

  /** `tlb_flush_{pte,pmd,pud,p4d}_range`, and with `table` the `*_free_tlb` macros around them. */
  function RecordRange(g: Gather, level: Level, address: nat, size: nat, table: bool): Gather {
    AdjustRange(g, address, size).(cleared := MarkTable(MarkLevel(g.cleared, level), table))
  }

  /** The test at the top of `tlb_flush_mmu_tlbonly`. */
  predicate AnyCleared(g: Gather) {
    g.cleared.Any()
  }

  /** The two default versions of `tlb_flush`. */
  function FlushFor(cfg: Config, g: Gather): Flush {
    if cfg.noRange then
      if g.end != 0 then FlushMm else NoFlush
    else if g.fullmm || g.needFlushAll then FlushMm
    else if g.end != 0 then FlushRange(g.vma, g.start, g.end)
    else NoFlush
  }

  /** `tlb_start_vma` with `tlb_update_vma_flags`. */
  function StartVma(cfg: Config, g: Gather, v: Vma): Gather {
    if g.fullmm || cfg.noRange then g else g.(vma := v)
  }

  /** Whether `tlb_end_vma` calls `tlb_flush_mmu_tlbonly`. */
  predicate EndVmaFlushes(cfg: Config, g: Gather) {
    !cfg.noRange && !g.fullmm
  }

  /** Whether `tlb_change_page_size` calls `tlb_flush_mmu`. */
  predicate PageSizeFlushes(cfg: Config, g: Gather, size: nat) {
    cfg.trackPageSize && g.pageSize != 0 && g.pageSize != size && !g.fullmm && !g.needFlushAll
  }

  function SetPageSize(cfg: Config, g: Gather, size: nat): Gather {
    if cfg.trackPageSize then g.(pageSize := size) else g
  }

  function LevelShift(cfg: Config, level: Level): nat
    requires level != Top
  {
    match level
    case Pte => cfg.pageShift
    case Pmd => cfg.pmdShift
    case Pud => cfg.pudShift
    case P4d => cfg.p4dShift
  }

  /** `tlb_get_unmap_shift`. */
  function UnmapShift(cfg: Config, g: Gather): nat {
    if g.cleared.ptes then cfg.pageShift
    else if g.cleared.pmds then cfg.pmdShift
    else if g.cleared.puds then cfg.pudShift
    else if g.cleared.p4ds then cfg.p4dShift
    else cfg.pageShift
  }

  /** The gather that tlb_gather_mmu starts from. */
  function Started(cfg: Config, fullmm: bool): Gather {
    ResetRange(cfg, Gather(0, 0, fullmm, false, NOTHING, Vma(false, false), 0))
  }

  // ---------------------------------------------------------------- when a record covers its range

  /** The tracked range contains the requested one. */
  predicate Covers(g: Gather, address: nat, size: nat) {
    g.start <= address && address + size <= g.end
  }

  /** The size fits `unsigned int` and the sum fits `unsigned long`. */
  predicate Fits(address: nat, size: nat) {
    size < TWO32 && address + size < TWO64
  }

  /**
   After `__tlb_adjust_range` the tracked range contains the requested one exactly when it
   already reached that far, or the size fits `unsigned int` and the sum fits `unsigned long`.
   */
  lemma AdjustCoversIff(g: Gather, address: nat, size: nat)
    requires g.end < TWO64 && size > 0
    ensures Covers(AdjustRange(g, address, size), address, size) <==> address + size <= g.end || Fits(address, size)
  {
    if size < TWO32 && address + size < TWO64 {
      assert U32(size) == size && U64(address + size) == address + size;
    } else if size >= TWO32 {
      assert U32(size) <= size - TWO32;
      assert U64(address + U32(size)) <= address + U32(size);
    }
  }

  /** A concrete size lost by the truncation: a 4 GiB entry leaves the tracked end at its start. */
  lemma WideSizeIsLost(cfg: Config)
    ensures var g := AdjustRange(Started(cfg, false), 0x1000, TWO32);
            g.end == 0x1000 && !(0x1000 + TWO32 <= g.end)
  {
    assert U32(TWO32) == 0;
  }

  /** `tlb_remove_huge_tlb_entry`: a size that is neither PMD_SIZE nor PUD_SIZE records nothing. */
  function RecordHuge(cfg: Config, g: Gather, address: nat, size: nat): Gather {
    if size == cfg.PmdSize() then RecordRange(g, Pmd, address, size, false)
    else if size == cfg.PudSize() then RecordRange(g, Pud, address, size, false)
    else g
  }

  /**
   Whatever was recorded before, a huge entry sets the bit of its own level and is covered
   without loss exactly when its size is PMD_SIZE or PUD_SIZE and fits, or reached no further
   than the range did already; any other size leaves the gather as it was.
   */
  lemma HugeRecordedIff(cfg: Config, g: Gather, address: nat, size: nat)
    requires g.end < TWO64 && size > 0
    ensures var g' := RecordHuge(cfg, g, address, size);
            var sized := size == cfg.PmdSize() || size == cfg.PudSize();
            && (Covers(g', address, size) <==>
                  if sized then address + size <= g.end || Fits(address, size) else Covers(g, address, size))
            && (g'.cleared.pmds <==> g.cleared.pmds || size == cfg.PmdSize())
            && (g'.cleared.puds <==> g.cleared.puds || (size == cfg.PudSize() && size != cfg.PmdSize()))
            && (!sized ==> g' == g)
            && (!AnyCleared(g) ==> (AnyCleared(g') <==> sized))
  {
    AdjustCoversIff(g, address, size);
  }

  /** Into an empty batch a huge entry leaves its own size as the one `tlb_get_unmap_size` reports. */
  lemma HugeUnmapSize(cfg: Config, g: Gather, address: nat, size: nat)
    requires !AnyCleared(g) && (size == Pow2(cfg.pmdShift) || size == Pow2(cfg.pudShift))
    ensures Pow2(UnmapShift(cfg, RecordHuge(cfg, g, address, size))) == size
  {
  }

  // ---------------------------------------------------------------- the structure itself

  /** `struct mmu_gather` with its inline operations. */
  class MmuGather {
    const cfg: Config
    var start: nat
    var end: nat
    var fullmm: bool
    var needFlushAll: bool
    var freedTables: bool
    var clearedPtes: bool
    var clearedPmds: bool
    var clearedPuds: bool
    var clearedP4ds: bool
    var vmaExec: bool
    var vmaHuge: bool
    var pageSize: nat

    ghost function Value(): Gather
      reads this
    {
      Gather(start, end, fullmm, needFlushAll,
             Cleared(freedTables, clearedPtes, clearedPmds, clearedPuds, clearedP4ds),
             Vma(vmaExec, vmaHuge), pageSize)
    }

    constructor (cfg: Config, fullmm: bool)
      ensures this.cfg == cfg && Value() == Started(cfg, fullmm)
    {
      this.cfg := cfg;
      this.fullmm := fullmm;
      needFlushAll, vmaExec, vmaHuge, pageSize := false, false, false, 0;
      new;
      ResetTlbRange();
    }

    method AdjustTlbRange(address: nat, size: nat)
      modifies this
      ensures Value() == AdjustRange(old(Value()), address, size)
      ensures Fits(address, size) ==> Covers(Value(), address, size)
      ensures forall a, n: nat :: Covers(old(Value()), a, n) ==> Covers(Value(), a, n)
      // and the range grows no further than that
      ensures start == old(start) || start == address
      ensures Fits(address, size) ==> end == old(end) || end == address + size
      ensures Value() == old(Value()).(start := start, end := end)
    {
      if Fits(address, size) { assert U32(size) == size && U64(address + size) == address + size; }
      start := Min(start, address);
      end := Max(end, U64(address + U32(size)));
    }

    method ResetTlbRange()
      modifies this
      ensures Value() == ResetRange(cfg, old(Value()))
      ensures !AnyCleared(Value()) && Value().vma == old(Value().vma)
      ensures !fullmm ==> start == cfg.taskSize && end == 0
      ensures fullmm ==> start == end == TWO64 - 1
      ensures !fullmm && cfg.taskSize > 0 ==> forall a, n: nat :: !Covers(Value(), a, n)
    {
      if fullmm {
        start, end := TWO64 - 1, TWO64 - 1;
      } else {
        start := cfg.taskSize;
        end := 0;
      }
      freedTables := false;
      clearedPtes := false;
      clearedPmds := false;
      clearedPuds := false;
      clearedP4ds := false;
    }

    /** `tlb_flush_pte_range` and its three siblings, chosen by `level`. */
    method FlushLevelRange(level: Level, address: nat, size: nat)
      modifies this
      ensures Value() == RecordRange(old(Value()), level, address, size, false)
      ensures Fits(address, size) ==> Covers(Value(), address, size)
      ensures forall a, n: nat :: Covers(old(Value()), a, n) ==> Covers(Value(), a, n)
      ensures clearedPtes == (old(clearedPtes) || level == Pte) && clearedPmds == (old(clearedPmds) || level == Pmd)
      ensures clearedPuds == (old(clearedPuds) || level == Pud) && clearedP4ds == (old(clearedP4ds) || level == P4d)
      ensures freedTables == old(freedTables)
    {
      AdjustTlbRange(address, size);
      SetLevelBit(level);
    }

    /** `tlb->cleared_* = 1` */
    method SetLevelBit(level: Level)
      modifies this
      ensures Value() == old(Value()).(cleared := MarkLevel(old(Value()).cleared, level))
      ensures start == old(start) && end == old(end)
    {
      match level {
        case Pte => clearedPtes := true;
        case Pmd => clearedPmds := true;
        case Pud => clearedPuds := true;
        case P4d => clearedP4ds := true;
        case Top =>
      }
    }

    /** `pte_free_tlb` to `p4d_free_tlb`: the level is the one above the freed table. */
    method FreeTable(level: Level, address: nat)
      modifies this
      ensures Value() == RecordRange(old(Value()), level, address, cfg.PageSize(), true)
      ensures freedTables
      ensures Fits(address, Pow2(cfg.pageShift)) ==>
                Covers(Value(), address, Pow2(cfg.pageShift))
                && (end == old(end) || end == address + Pow2(cfg.pageShift))
    {
      var size := cfg.PageSize();
      if Fits(address, size) { assert U32(size) == size && U64(address + size) == address + size; }
      FlushLevelRange(level, address, size);
      freedTables := true;
    }

    method RemoveHugeEntry(address: nat, size: nat)
      modifies this
      ensures Value() == RecordHuge(cfg, old(Value()), address, size)
      // each of the two sizes sets the bit of its own level and no other
      ensures clearedPmds == (old(clearedPmds) || size == Pow2(cfg.pmdShift))
      ensures clearedPuds == (old(clearedPuds) || (size == Pow2(cfg.pudShift) && size != Pow2(cfg.pmdShift)))
      ensures clearedPtes == old(clearedPtes) && clearedP4ds == old(clearedP4ds)
      ensures size != Pow2(cfg.pmdShift) && size != Pow2(cfg.pudShift) ==> Value() == old(Value())
    {
      if size == cfg.PmdSize() {
        FlushLevelRange(Pmd, address, size);
      } else if size == cfg.PudSize() {
        FlushLevelRange(Pud, address, size);
      }
    }

    method TlbFlush() returns (f: Flush)
      ensures f == FlushFor(cfg, Value())
      // the whole mm when asked for, what was tracked otherwise, nothing if nothing was
      ensures !cfg.noRange && (fullmm || needFlushAll) ==> f == FlushMm
      ensures !cfg.noRange && !fullmm && !needFlushAll && end != 0 ==>
                f == FlushRange(Vma(vmaExec, vmaHuge), start, end)
      ensures cfg.noRange && end != 0 ==> f == FlushMm
      ensures end == 0 && (cfg.noRange || !(fullmm || needFlushAll)) ==> f == NoFlush
    {
      if cfg.noRange {
        f := if end != 0 then FlushMm else NoFlush;
      } else if fullmm || needFlushAll {
        f := FlushMm;
      } else if end != 0 {
        f := FlushRange(Vma(vmaExec, vmaHuge), start, end);
      } else {
        f := NoFlush;
      }
    }

    /**
     `tlb_flush_mmu_tlbonly`: the CPU invalidation and the range handed to the MMU notifiers
     (the empty range [0, 0) when nothing had been recorded).
     */
    method FlushMmuTlbonly() returns (f: Flush, lo: nat, hi: nat)
      modifies this
      ensures !old(AnyCleared(Value())) ==> f == NoFlush && lo == hi == 0 && Value() == old(Value())
      ensures old(AnyCleared(Value())) ==>
                && f == FlushFor(cfg, old(Value()))
                && lo == old(start) && hi == old(end)
                && Value() == ResetRange(cfg, old(Value()))
    {
      f, lo, hi := NoFlush, 0, 0;
      if !(freedTables || clearedPtes || clearedPmds || clearedPuds || clearedP4ds) {
        return;
      }
      f := TlbFlush();
      lo, hi := start, end;
      ResetTlbRange();
    }

    method BeginVma(v: Vma)
      modifies this
      ensures Value() == StartVma(cfg, old(Value()), v)
      ensures !fullmm && !cfg.noRange ==> vmaExec == v.exec && vmaHuge == v.hugetlb
      ensures fullmm || cfg.noRange ==> Value() == old(Value())
    {
      if fullmm { return; }
      if !cfg.noRange {
        vmaHuge := v.hugetlb;
        vmaExec := v.exec;
      }
    }

    method EndVma() returns (f: Flush, lo: nat, hi: nat)
      modifies this
      ensures !(EndVmaFlushes(cfg, old(Value())) && old(AnyCleared(Value()))) ==>
                f == NoFlush && lo == hi == 0 && Value() == old(Value())
      ensures EndVmaFlushes(cfg, old(Value())) && old(AnyCleared(Value())) ==>
                && f == FlushFor(cfg, old(Value()))
                && lo == old(start) && hi == old(end)
                && Value() == ResetRange(cfg, old(Value()))
      ensures fullmm || cfg.noRange ==> f == NoFlush && Value() == old(Value())
      ensures !fullmm && !cfg.noRange ==> !AnyCleared(Value())
    {
      f, lo, hi := NoFlush, 0, 0;
      if cfg.noRange || fullmm { return; }
      f, lo, hi := FlushMmuTlbonly();
    }

    /** `tlb_change_page_size`: a batch holds pages of one size, unless the whole mm goes anyway. */
    method ChangePageSize(size: nat) returns (f: Flush, lo: nat, hi: nat)
      modifies this
      ensures pageSize == if cfg.trackPageSize then size else old(pageSize)
      ensures cfg.trackPageSize && old(pageSize) != 0 && old(pageSize) != size && !fullmm && !needFlushAll ==>
                !AnyCleared(Value()) && (old(AnyCleared(Value())) ==> f == FlushFor(cfg, old(Value())))
      ensures !PageSizeFlushes(cfg, old(Value()), size) ==>
                f == NoFlush && Value() == SetPageSize(cfg, old(Value()), size)
    {
      f, lo, hi := NoFlush, 0, 0;
      if cfg.trackPageSize {
        if pageSize != 0 && pageSize != size {
          if !fullmm && !needFlushAll { f, lo, hi := FlushMmuTlbonly(); }
        }
        pageSize := size;
      }
    }

    method GetUnmapShift() returns (shift: nat)
      ensures shift == UnmapShift(cfg, Value())
      ensures clearedPtes ==> shift == cfg.pageShift
      ensures clearedPmds && !clearedPtes ==> shift == cfg.pmdShift
      ensures clearedPuds && !clearedPtes && !clearedPmds ==> shift == cfg.pudShift
      ensures clearedP4ds && !clearedPtes && !clearedPmds && !clearedPuds ==> shift == cfg.p4dShift
      // the smallest level with its bit set, and the base page without any
      ensures cfg.Valid() ==> forall l :: Marked(Value().cleared, l) ==> shift <= LevelShift(cfg, l)
      ensures if exists l :: Marked(Value().cleared, l)
              then exists l :: Marked(Value().cleared, l) && shift == LevelShift(cfg, l)
              else shift == cfg.pageShift
    {
      assert Marked(Value().cleared, Pte) == clearedPtes && Marked(Value().cleared, Pmd) == clearedPmds;
      assert Marked(Value().cleared, Pud) == clearedPuds && Marked(Value().cleared, P4d) == clearedP4ds;
      if clearedPtes { return cfg.pageShift; }
      if clearedPmds { return cfg.pmdShift; }
      if clearedPuds { return cfg.pudShift; }
      if clearedP4ds { return cfg.p4dShift; }
      return cfg.pageShift;
    }
  }

  // ---------------------------------------------------------------- a caller

  /** The invalidation reaches the whole page and carries the VMA's flags. */
  predicate Hits(f: Flush, v: Vma, address: nat, size: nat) {
    f == FlushMm || (f.FlushRange? && f.vma == v && f.start <= address && address + size <= f.end)
  }

  /**
   Tearing down the pages of one VMA: start, one `tlb_remove_tlb_entry` per page, end, and the
   flush that finishes the gather. One of the two invalidations reaches every page.
   */
  method ZapVma(cfg: Config, fullmm: bool, v: Vma, pages: seq<nat>) returns (atEnd: Flush, atFinish: Flush)
    requires forall i :: 0 <= i < |pages| ==> Fits(pages[i], cfg.PageSize())
    ensures forall i :: 0 <= i < |pages| ==>
              Hits(atEnd, v, pages[i], cfg.PageSize()) || Hits(atFinish, v, pages[i], cfg.PageSize())
    ensures pages == [] ==> atEnd == NoFlush && atFinish == NoFlush
    ensures !cfg.noRange && !fullmm ==> atFinish == NoFlush
    ensures cfg.noRange || fullmm ==> atEnd == NoFlush
  {
    var tlb := new MmuGather(cfg, fullmm);
    tlb.BeginVma(v);
    for k := 0 to |pages|
      invariant tlb.cfg == cfg && tlb.fullmm == fullmm && !tlb.needFlushAll
      invariant !cfg.noRange && !fullmm ==> tlb.Value().vma == v
      invariant AnyCleared(tlb.Value()) <==> k > 0
      invariant forall i :: 0 <= i < k ==> Covers(tlb.Value(), pages[i], cfg.PageSize())
    {
      tlb.FlushLevelRange(Pte, pages[k], cfg.PageSize());
    }
    var lo, hi;
    atEnd, lo, hi := tlb.EndVma();
    atFinish, lo, hi := tlb.FlushMmuTlbonly();
  }
}
