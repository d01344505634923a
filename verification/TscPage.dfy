/**
 Reading the Hyper-V reference TSC page (clocksource/hyperv_timer.h): a sequence-checked
 read of a scale and an offset that the host may rewrite at any moment.

 The host follows the documented protocol: it sets the sequence to zero, changes the fields,
 and publishes them under a nonzero sequence. Which sequence it may publish in which
 state is a parameter, `may`: the results say which hosts are safe.
 */
module TscPage {
  import opened Bits
  import Math64

  datatype Publication = Publication(sequence: nat, scale: nat, offset: nat)

  datatype Page = Page(sequence: nat, scale: nat, offset: nat)

  datatype Reader =
    | Top
    | HaveSequence(sequence: nat)
    | HaveScale(sequence: nat, scale: nat)
    | HaveOffset(sequence: nat, scale: nat, offset: nat)
    | HaveTsc(sequence: nat, scale: nat, offset: nat, tsc: nat)
    | Unreliable                                  // returned U64_MAX
    | Returned(sequence: nat, scale: nat, offset: nat, tsc: nat, time: nat)

  /** `since` is the publication that was current when the sequence was read; no step looks at it. */
  datatype State = State(page: Page, reader: Reader, published: seq<Publication>, since: nat)

  datatype Step =
    | Invalidate | SetScale(v: nat) | SetOffset(v: nat) | Publish(sequence: nat)
    | ReadSequence | ReadScale | ReadOffset | ReadTsc(tsc: nat) | CheckSequence

  /** May the host publish this sequence now? */
  type Policy = (State, nat) -> bool

  /** `mul_u64_u64_shr(tsc, scale, 64) + offset`. */
  function ReferenceTime(tsc: nat, scale: nat, offset: nat): nat {
    U64(tsc * scale / TWO64 + offset)
  }

  lemma WrapOnce(a: nat, b: nat)
    ensures U64(U64(a) + b) == U64(a + b)
  {
  }

  /** The same computed by the code for machines without a 128-bit type. */
  method ComputeTime(tsc: nat, scale: nat, offset: nat) returns (time: nat)
    requires tsc < TWO64 && scale < TWO64
    ensures time == ReferenceTime(tsc, scale, offset)
    ensures time == (tsc * scale / 0x1_0000_0000_0000_0000 + offset) % 0x1_0000_0000_0000_0000
  {
    var product := Math64.MulU64U64Shr(tsc, scale, 64);
    assert Pow2(64) == TWO64 by { Pow2Values(); }
    time := AddOffset(product, tsc * scale / TWO64, offset);
  }

  method AddOffset(product: nat, ghost quotient: nat, offset: nat) returns (time: nat)
    requires product == U64(quotient)
    ensures time == U64(quotient + offset)
  {
    WrapOnce(quotient, offset);
    time := U64(product + offset);
  }

  // ---------------------------------------------------------------- steps

  predicate Enabled(may: Policy, s: State, step: Step) {
    match step
    case Invalidate => true
    case SetScale(v) => s.page.sequence == 0 && v < TWO64
    case SetOffset(v) => s.page.sequence == 0 && v < TWO64
    case Publish(n) => s.page.sequence == 0 && 0 < n < TWO32 && may(s, n)
    case ReadSequence => s.reader == Top
    case ReadScale => s.reader.HaveSequence?
    case ReadOffset => s.reader.HaveScale?
    case ReadTsc(tsc) => s.reader.HaveOffset? && tsc < TWO64
    case CheckSequence => s.reader.HaveTsc?
  }

  function Next(may: Policy, s: State, step: Step): State
    requires Enabled(may, s, step)
  {
    var r := s.reader;
    match step
    case Invalidate => s.(page := s.page.(sequence := 0))
    case SetScale(v) => s.(page := s.page.(scale := v))
    case SetOffset(v) => s.(page := s.page.(offset := v))
    case Publish(n) =>
      s.(page := s.page.(sequence := n), published := s.published + [Publication(n, s.page.scale, s.page.offset)])
    case ReadSequence =>
      s.(reader := if s.page.sequence == 0 then Unreliable else HaveSequence(s.page.sequence),
         since := if s.published == [] then 0 else |s.published| - 1)
    case ReadScale => s.(reader := HaveScale(r.sequence, s.page.scale))
    case ReadOffset => s.(reader := HaveOffset(r.sequence, r.scale, s.page.offset))
    case ReadTsc(tsc) => s.(reader := HaveTsc(r.sequence, r.scale, r.offset, tsc))
    case CheckSequence =>
      s.(reader := if s.page.sequence != r.sequence then Top
                   else Returned(r.sequence, r.scale, r.offset, r.tsc, ReferenceTime(r.tsc, r.scale, r.offset)))
  }

  // ---------------------------------------------------------------- the reader's answers

  /** A read begun on a page with sequence zero gives up at once; the source then returns U64_MAX. */
  lemma ZeroIsUnreliable(may: Policy, s: State)
    requires s.reader == Top
    ensures Enabled(may, s, ReadSequence)
    ensures var t := Next(may, s, ReadSequence);
            && t.reader == (if s.page.sequence == 0 then Unreliable else HaveSequence(s.page.sequence))
            && t.page == s.page && (s.published != [] ==> t.since == |s.published| - 1)
  {
  }

  /** That is the only way to become unreliable. */
  lemma UnreliableOnlyFromZero(may: Policy, s: State, step: Step)
    requires Enabled(may, s, step) && Next(may, s, step).reader.Unreliable?
    ensures s.reader.Unreliable? || (step == ReadSequence && s.reader == Top && s.page.sequence == 0)
  {
  }

  /** A check against another sequence, zero included, starts over at the top; the same one ends the read. */
  lemma CheckDecides(may: Policy, s: State)
    requires s.reader.HaveTsc?
    ensures Enabled(may, s, CheckSequence)
    ensures var r, t := s.reader, Next(may, s, CheckSequence);
            && t.page == s.page
            && (s.page.sequence != r.sequence ==> t.reader == Top)
            && (s.page.sequence == r.sequence ==>
                  t.reader == Returned(r.sequence, r.scale, r.offset, r.tsc,
                    (r.tsc * r.scale / 0x1_0000_0000_0000_0000 + r.offset) % 0x1_0000_0000_0000_0000))
  {
  }

  /** Left alone on a valid page, the reader returns the time from the page's own scale and offset. */
  lemma UndisturbedRead(may: Policy, s: State, tsc: nat) returns (t: State)
    requires s.reader == Top && s.page.sequence != 0 && tsc < TWO64
    ensures Run(may, s, [ReadSequence, ReadScale, ReadOffset, ReadTsc(tsc), CheckSequence], t)
    ensures t.page == s.page && t.published == s.published
    ensures t.reader == Returned(s.page.sequence, s.page.scale, s.page.offset, tsc,
      (tsc * s.page.scale / 0x1_0000_0000_0000_0000 + s.page.offset) % 0x1_0000_0000_0000_0000)
  {
    var a := Next(may, s, ReadSequence);
    var b := Next(may, a, ReadScale);
    var c := Next(may, b, ReadOffset);
    var d := Next(may, c, ReadTsc(tsc));
    t := Next(may, d, CheckSequence);
    assert Run(may, t, [], t);
    var four, three := [ReadScale, ReadOffset, ReadTsc(tsc), CheckSequence], [ReadOffset, ReadTsc(tsc), CheckSequence];
    assert Run(may, d, [CheckSequence], t);
    assert [ReadTsc(tsc), CheckSequence][1..] == [CheckSequence];
    assert Run(may, c, [ReadTsc(tsc), CheckSequence], t);
    assert three[1..] == [ReadTsc(tsc), CheckSequence];
    assert Run(may, b, three, t);
    assert four[1..] == three;
    assert Run(may, a, four, t);
    assert [ReadSequence, ReadScale, ReadOffset, ReadTsc(tsc), CheckSequence][1..] == four;
  }

  /** A page not yet valid, or valid under one publication. */
  predicate Initial(s: State) {
    && s.reader == Top && s.since == 0
    && s.page.sequence < TWO32 && s.page.scale < TWO64 && s.page.offset < TWO64
    && s.published == if s.page.sequence == 0 then []
                      else [Publication(s.page.sequence, s.page.scale, s.page.offset)]
  }

  ghost predicate Run(may: Policy, s: State, steps: seq<Step>, s': State)
    decreases |steps|
  {
    if steps == [] then s' == s
    else Enabled(may, s, steps[0]) && Run(may, Next(may, s, steps[0]), steps[1..], s')
  }

  ghost predicate Reachable(may: Policy, s: State) {
    exists s0, steps :: Initial(s0) && Run(may, s0, steps, s)
  }

  // ---------------------------------------------------------------- what is promised

  /** Publication `k` gave the reader its sequence, scale and offset. */
  predicate Gave(s: State, k: nat)
    requires s.reader.Returned?
  {
    k < |s.published| && s.published[k] == Publication(s.reader.sequence, s.reader.scale, s.reader.offset)
  }

  /**
   The time returned was computed from a scale and an offset published together under one
   nonzero sequence, in a publication that was current at some moment of the read.
   */
  ghost predicate Consistent(s: State) {
    s.reader.Returned? ==>
      && s.reader.sequence != 0
      && s.reader.time == ReferenceTime(s.reader.tsc, s.reader.scale, s.reader.offset)
      && exists k: nat :: s.since <= k && Gave(s, k)
  }

  ghost predicate AlwaysConsistent(may: Policy) {
    forall s :: Reachable(may, s) ==> Consistent(s)
  }

  /** The reader has begun to read the fields. */
  predicate Reading(r: Reader) { r.HaveScale? || r.HaveOffset? || r.HaveTsc? }

  /** The offset the reader has, or would read now. */
  function OffsetOf(s: State): nat
    requires Reading(s.reader)
  {
    if s.reader.HaveScale? then s.page.offset else s.reader.offset
  }

  /** Publication `k` of this read holds what the reader has. */
  predicate Offered(s: State, k: nat)
    requires Reading(s.reader)
  {
    && s.since <= k < |s.published|
    && s.published[k] == Publication(s.reader.sequence, s.reader.scale, OffsetOf(s))
  }

  /**
   Publishing the held sequence now would let the reader finish on values that no publication
   of this read had together: not an earlier one, and not this one either.
   */
  ghost predicate Tears(s: State) {
    && s.page.sequence == 0 && Reading(s.reader) && 0 < s.reader.sequence < TWO32
    && (s.page.scale != s.reader.scale || s.page.offset != OffsetOf(s))
    && forall k: nat :: k < |s.published| ==> !Offered(s, k)
  }

  /** The host never publishes the held sequence where that would tear the read. */
  ghost predicate KeepsFresh(may: Policy) {
    forall s :: Reachable(may, s) && Tears(s) ==> !may(s, s.reader.sequence)
  }

  // ---------------------------------------------------------------- such a host is safe

  ghost predicate Inv(s: State) {
    && s.page.sequence < TWO32
    && (s.page.sequence != 0 ==>
          s.published != [] &&
          s.published[|s.published| - 1] == Publication(s.page.sequence, s.page.scale, s.page.offset))
    && (s.reader.HaveSequence? || Reading(s.reader) ==> 0 < s.reader.sequence < TWO32 && s.since < |s.published|)
    // while the page shows the sequence held, what the reader has was published together during the read
    && (Reading(s.reader) && s.page.sequence == s.reader.sequence ==> exists k: nat :: Offered(s, k))
    && Consistent(s)
  }

  lemma HostKeeps(may: Policy, s: State, step: Step)
    requires Inv(s) && Enabled(may, s, step)
    requires step.Invalidate? || step.SetScale? || step.SetOffset? || step.Publish?
    requires Tears(s) ==> !may(s, s.reader.sequence)
    ensures Inv(Next(may, s, step))
  {
    var t := Next(may, s, step);
    if t.reader.Returned? {
      var k: nat :| s.since <= k && Gave(s, k);
      assert Gave(t, k);
    }
    if step.Publish? && Reading(t.reader) && t.page.sequence == t.reader.sequence {
      if s.page.scale == s.reader.scale && s.page.offset == OffsetOf(s) {
        assert Offered(t, |s.published|);
      } else {
        var k: nat :| k < |s.published| && Offered(s, k);
        assert Offered(t, k);
      }
    }
  }

  lemma ReaderKeeps(may: Policy, s: State, step: Step)
    requires Inv(s) && Enabled(may, s, step)
    requires step.ReadSequence? || step.ReadScale? || step.ReadOffset? || step.ReadTsc? || step.CheckSequence?
    ensures Inv(Next(may, s, step))
  {
    var t := Next(may, s, step);
    if Reading(t.reader) && t.page.sequence == t.reader.sequence {
      if step.ReadScale? {
        assert Offered(t, |s.published| - 1);
      } else {
        var k: nat :| Offered(s, k);
        assert Offered(t, k);
      }
    } else if t.reader.Returned? {
      var k: nat :| Offered(s, k);
      assert Gave(t, k);
    }
  }

  lemma {:induction false} RunKeeps(may: Policy, s: State, steps: seq<Step>, s': State)
    requires KeepsFresh(may) && Reachable(may, s) && Inv(s) && Run(may, s, steps, s')
    ensures Inv(s')
    decreases |steps|
  {
    if steps != [] {
      var step := steps[0];
      if step.Invalidate? || step.SetScale? || step.SetOffset? || step.Publish? {
        HostKeeps(may, s, step);
      } else {
        ReaderKeeps(may, s, step);
      }
      Reach(may, s, step);
      RunKeeps(may, Next(may, s, step), steps[1..], s');
    }
  }

  // ---------------------------------------------------------------- any other is not

  lemma {:induction false} RunAppend(may: Policy, s: State, steps: seq<Step>, s': State, step: Step)
    requires Run(may, s, steps, s') && Enabled(may, s', step)
    ensures Run(may, s, steps + [step], Next(may, s', step))
    decreases |steps|
  {
    var all := steps + [step];
    assert all[0] == if steps == [] then step else steps[0];
    if steps == [] {
      assert all[1..] == [];
    } else {
      assert all[1..] == steps[1..] + [step];
      RunAppend(may, Next(may, s, steps[0]), steps[1..], s', step);
    }
  }

  lemma Reach(may: Policy, s: State, step: Step)
    requires Reachable(may, s) && Enabled(may, s, step)
    ensures Reachable(may, Next(may, s, step))
  {
    var s0, steps :| Initial(s0) && Run(may, s0, steps, s);
    RunAppend(may, s0, steps, s, step);
  }

  /** The reader goes on from a page that shows its sequence, to the check. */
  lemma ReadOn(may: Policy, s: State, tsc: nat) returns (t: State)
    requires Reachable(may, s) && Reading(s.reader) && s.page.sequence == s.reader.sequence
    requires tsc < TWO64 && (s.reader.HaveTsc? ==> tsc == s.reader.tsc)
    ensures Reachable(may, t) && t.page == s.page && t.published == s.published && t.since == s.since
    ensures var r, o := s.reader, OffsetOf(s);
            t.reader == Returned(r.sequence, r.scale, o, tsc, ReferenceTime(tsc, r.scale, o))
    decreases if s.reader.HaveScale? then 2 else if s.reader.HaveOffset? then 1 else 0
  {
    var step := match s.reader
                case HaveScale(_, _) => ReadOffset
                case HaveOffset(_, _, _) => ReadTsc(tsc)
                case _ => CheckSequence;
    Reach(may, s, step);
    t := Next(may, s, step);
    if step != CheckSequence { t := ReadOn(may, t, tsc); }
  }

  /**
   A host that may publish the held sequence in a state where that tears the read can make the
   reader return values that were never published together while it was reading.
   */
  lemma ReuseTearsARead(may: Policy, s: State, tsc: nat) returns (t: State)
    requires Reachable(may, s) && Tears(s) && may(s, s.reader.sequence)
    requires tsc < TWO64 && (s.reader.HaveTsc? ==> tsc == s.reader.tsc)
    ensures Reachable(may, t) && !Consistent(t)
    ensures var r, o := s.reader, OffsetOf(s);
            t.reader == Returned(r.sequence, r.scale, o, tsc, ReferenceTime(tsc, r.scale, o))
    ensures t.published == s.published + [Publication(s.reader.sequence, s.page.scale, s.page.offset)]
  {
    var q := s.reader.sequence;
    Reach(may, s, Publish(q));
    t := ReadOn(may, Next(may, s, Publish(q)), tsc);
    forall k: nat | t.since <= k ensures !Gave(t, k) {
      if k < |s.published| { assert !Offered(s, k); }
    }
  }

  /**
   Every time returned, in every interleaving, comes from one publication of its read, exactly
   when the host never publishes a held sequence where that tears the read.
   */
  lemma ConsistentIffFresh(may: Policy)
    ensures AlwaysConsistent(may) <==> KeepsFresh(may)
  {
    if KeepsFresh(may) {
      forall s | Reachable(may, s) ensures Consistent(s) {
        var s0, steps :| Initial(s0) && Run(may, s0, steps, s);
        assert Run(may, s0, [], s0);
        RunKeeps(may, s0, steps, s);
      }
    } else {
      var s :| Reachable(may, s) && Tears(s) && may(s, s.reader.sequence);
      ReachableInRange(may, s);
      var t := ReuseTearsARead(may, s, if s.reader.HaveTsc? then s.reader.tsc else 0);
    }
  }

  // ---------------------------------------------------------------- hosts that look at page and reader

  /** The host's rule sees the page, the position and values of the reader, and the new sequence. */
  type PageRule = (Page, Reader, nat) -> bool

  function ByPage(may: PageRule): Policy {
    (s: State, n: nat) => may(s.page, s.reader, n)
  }

  /** The values an invalid page and a reader past its first field can hold. */
  predicate InRange(p: Page, r: Reader)
    requires Reading(r)
  {
    && p.sequence == 0 && p.scale < TWO64 && p.offset < TWO64
    && 0 < r.sequence < TWO32 && r.scale < TWO64
    && (!r.HaveScale? ==> r.offset < TWO64) && (r.HaveTsc? ==> r.tsc < TWO64)
  }

  /** The page differs from what the reader has of it. */
  predicate Changed(p: Page, r: Reader)
    requires Reading(r)
  {
    p.scale != r.scale || (!r.HaveScale? && p.offset != r.offset)
  }

  /** A sequence held is not published over other values than those the reader has. */
  ghost predicate NoReuse(may: PageRule) {
    forall p: Page, r: Reader :: Reading(r) && InRange(p, r) && Changed(p, r) ==> !may(p, r, r.sequence)
  }

  function Other(scale: nat): nat { if scale == 0 then 1 else 0 }

  /** Only one publication so far, under the sequence held but with a scale the reader does not have. */
  function OnePublication(p: Page, r: Reader): State
    requires Reading(r)
  {
    State(p, r, [Publication(r.sequence, Other(r.scale), p.offset)], 0)
  }

  /** Any such page and reader meet, whatever the host's policy. */
  lemma ReachAny(may: Policy, p: Page, r: Reader)
    requires Reading(r) && InRange(p, r)
    ensures Reachable(may, OnePublication(p, r))
  {
    var q, scale := r.sequence, r.scale;
    var first := [Publication(q, Other(scale), p.offset)];
    var s0 := State(Page(q, Other(scale), p.offset), Top, first, 0);
    assert Initial(s0) && Run(may, s0, [], s0);
    var s1, s2 := s0.(reader := HaveSequence(q)), State(Page(0, Other(scale), p.offset), HaveSequence(q), first, 0);
    Reach(may, s0, ReadSequence);
    assert Next(may, s0, ReadSequence) == s1;
    Reach(may, s1, Invalidate);
    assert Next(may, s1, Invalidate) == s2;
    var s3 := State(Page(0, scale, p.offset), HaveSequence(q), first, 0);
    Reach(may, s2, SetScale(scale));
    assert Next(may, s2, SetScale(scale)) == s3;
    Reach(may, s3, ReadScale);
    ReachFields(may, p, r, s3.(reader := HaveScale(q, scale)));
  }

  /** The reader goes on to where `r` is, over a page that the host leaves as `p`. */
  lemma ReachFields(may: Policy, p: Page, r: Reader, s: State)
    requires Reading(r) && InRange(p, r) && Reachable(may, s)
    requires s == OnePublication(Page(0, r.scale, p.offset), r).(reader := HaveScale(r.sequence, r.scale))
    ensures Reachable(may, OnePublication(p, r))
  {
    var t := s;
    if !r.HaveScale? {
      Reach(may, t, SetOffset(r.offset));
      t := Next(may, t, SetOffset(r.offset));
      Reach(may, t, ReadOffset);
      t := Next(may, t, ReadOffset);
      if r.HaveTsc? {
        Reach(may, t, ReadTsc(r.tsc));
        t := Next(may, t, ReadTsc(r.tsc));
      }
    }
    Reach(may, t, SetOffset(p.offset));
    t := Next(may, t, SetOffset(p.offset));
    Reach(may, t, SetScale(p.scale));
    t := Next(may, t, SetScale(p.scale));
    assert t == OnePublication(p, r);
  }

  /** For a host whose rule sees page and reader the condition needs no history. */
  lemma ConsistentIffNoReuse(may: PageRule)
    ensures AlwaysConsistent(ByPage(may)) <==> NoReuse(may)
  {
    var policy := ByPage(may);
    ConsistentIffFresh(policy);
    if NoReuse(may) {
      forall s | Reachable(policy, s) && Tears(s) ensures !policy(s, s.reader.sequence) {
        ReachableInRange(policy, s);
        assert Changed(s.page, s.reader);
      }
    } else {
      var p: Page, r: Reader :| Reading(r) && InRange(p, r) && Changed(p, r) && may(p, r, r.sequence);
      ReachAny(policy, p, r);
      assert Tears(OnePublication(p, r));
    }
  }

  predicate Bounded(s: State) {
    && s.page.scale < TWO64 && s.page.offset < TWO64
    && (Reading(s.reader) ==> s.reader.scale < TWO64)
    && (s.reader.HaveOffset? || s.reader.HaveTsc? ==> s.reader.offset < TWO64)
    && (s.reader.HaveTsc? ==> s.reader.tsc < TWO64)
  }

  lemma ReachableInRange(may: Policy, s: State)
    requires Reachable(may, s)
    ensures Bounded(s)
  {
    var s0, steps :| Initial(s0) && Run(may, s0, steps, s);
    RunBounded(may, s0, steps, s);
  }

  lemma {:induction false} RunBounded(may: Policy, s: State, steps: seq<Step>, s': State)
    requires Bounded(s) && Run(may, s, steps, s')
    ensures Bounded(s')
    decreases |steps|
  {
    if steps != [] { RunBounded(may, Next(may, s, steps[0]), steps[1..], s'); }
  }

  /** The time itself is then one that no publication gives, already with small numbers. */
  lemma ReuseGivesWrongTime(may: PageRule, q: nat) returns (s: State)
    requires 0 < q < TWO32 && may(Page(0, 0, 5), HaveScale(q, 2), q)
    ensures Reachable(ByPage(may), s) && s.reader.Returned?
    ensures forall p :: p in s.published ==> s.reader.time != ReferenceTime(s.reader.tsc, p.scale, p.offset)
  {
    var page, r := Page(0, 0, 5), HaveScale(q, 2);
    ReachAny(ByPage(may), page, r);
    assert Tears(OnePublication(page, r));
    s := ReuseTearsARead(ByPage(may), OnePublication(page, r), TWO63);
    assert ReferenceTime(TWO63, 2, 5) == 6 && ReferenceTime(TWO63, 0, 5) == 5;
  }

  /** `may(q, n)`: the host may publish n while a reader holds q; without a read in progress it is free. */
  function BySequence(may: (nat, nat) -> bool): PageRule {
    (p: Page, r: Reader, n: nat) => (r.HaveSequence? || Reading(r)) ==> may(r.sequence, n)
  }

  /** For a host that looks only at the sequence held: it may publish anything but that one value. */
  lemma ConsistentIffOtherSequence(may: (nat, nat) -> bool)
    ensures AlwaysConsistent(ByPage(BySequence(may))) <==> forall q: nat :: 0 < q < TWO32 ==> !may(q, q)
  {
    var rule := BySequence(may);
    ConsistentIffNoReuse(rule);
    if NoReuse(rule) {
      forall q: nat | 0 < q < TWO32 ensures !may(q, q) {
        var p, r := Page(0, 1, 0), HaveScale(q, 0);
        assert Changed(p, r) && !rule(p, r, q);
      }
    }
  }
}
