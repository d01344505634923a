/**
 The RAID-5 checksum routines (asm-generic/xor.h): four templates (8regs, 32regs and their
 prefetch variants), each for two to five buffers. The arities of a template are one method
 here, over the list `srcs` of the buffers p2, p3, ... that are XORed into p1. A machine
 word is the natural number it stands for.
 */
module XorTemplates {
  import opened Bits

  type Block = seq<nat>

  /** Word `j` of all the blocks together. */
  function XorAt(blocks: seq<Block>, j: nat): nat
    requires forall b :: b in blocks ==> j < |b|
  {
    if blocks == [] then 0 else Xor(blocks[0][j], XorAt(blocks[1..], j))
  }

  /** Block `p` with the blocks XORed into its words from `lo` to `hi`. */
  function XorRange(p: Block, blocks: seq<Block>, lo: nat, hi: nat): (r: Block)
    requires hi <= |p| && forall b :: b in blocks ==> hi <= |b|
    ensures |r| == |p|
  {
    seq(|p|, j requires 0 <= j < |p| => if lo <= j < hi then Xor(p[j], XorAt(blocks, j)) else p[j])
  }

  lemma RangeGrows(p: Block, blocks: seq<Block>, lo: nat, hi: nat)
    requires lo <= hi < |p| && forall b :: b in blocks ==> hi < |b|
    ensures XorRange(p, blocks, lo, hi)[hi] == p[hi]
    ensures XorRange(p, blocks, lo, hi + 1)
         == XorRange(p, blocks, lo, hi)[hi := Xor(p[hi], XorAt(blocks, hi))]
  {
  }

  lemma RangesJoin(p: Block, blocks: seq<Block>, lo: nat, mid: nat, hi: nat)
    requires lo <= mid <= hi <= |p| && forall b :: b in blocks ==> hi <= |b|
    ensures XorRange(XorRange(p, blocks, lo, mid), blocks, mid, hi) == XorRange(p, blocks, lo, hi)
  {
  }

  /** The number of blocks whose word `j` has bit `i` set. */
  function Count(blocks: seq<Block>, j: nat, i: nat): nat
    requires forall b :: b in blocks ==> j < |b|
  {
    if blocks == [] then 0 else (if Bit(blocks[0][j], i) then 1 else 0) + Count(blocks[1..], j, i)
  }

  /** Bit by bit the XOR of all blocks is their parity. */
  lemma {:induction false} XorAtIsParity(blocks: seq<Block>, j: nat, i: nat)
    requires forall b :: b in blocks ==> j < |b|
    ensures Bit(XorAt(blocks, j), i) <==> Count(blocks, j, i) % 2 == 1
  {
    if blocks == [] {
      BitZero(i);
    } else {
      XorAtIsParity(blocks[1..], j, i);
      BitXor(blocks[0][j], XorAt(blocks[1..], j), i);
    }
  }

  /** So each bit of the result is the parity over `p` and the blocks, and words out of range are as before. */
  lemma RangeIsParity(p: Block, blocks: seq<Block>, n: nat, j: nat, i: nat)
    requires n <= |p| && j < |p| && forall b :: b in blocks ==> n <= |b|
    ensures j < n ==> (Bit(XorRange(p, blocks, 0, n)[j], i) <==> Count([p] + blocks, j, i) % 2 == 1)
    ensures j >= n ==> XorRange(p, blocks, 0, n)[j] == p[j]
  {
    if j < n {
      assert ([p] + blocks)[1..] == blocks;
      XorAtIsParity(blocks, j, i);
      BitXor(p[j], XorAt(blocks, j), i);
    }
  }

  // ---------------------------------------------------------------- one line of eight words

  /** One to four sources holding `blocks`, apart from p1, with room for `n` words everywhere. */
  ghost predicate Buffers(p1: array<nat>, srcs: seq<array<nat>>, blocks: seq<Block>, n: nat)
    reads srcs
  {
    && 1 <= |srcs| <= 4 && n <= p1.Length && p1 !in srcs && |blocks| == |srcs|
    && (forall i :: 0 <= i < |srcs| ==> srcs[i][..] == blocks[i])
    && forall b :: b in blocks ==> n <= |b|
  }

  /** `p2[k] ^ p3[k] ^ ...`, from left to right. */
  method JoinSources(p1: array<nat>, srcs: seq<array<nat>>, k: nat, ghost blocks: seq<Block>) returns (x: nat)
    requires Buffers(p1, srcs, blocks, k + 1)
    ensures x == XorAt(blocks, k)
  {
    assert srcs[0][..] == blocks[0];
    x := srcs[0][k];
    for i := 1 to |srcs|
      invariant Xor(x, XorAt(blocks[i..], k)) == XorAt(blocks, k)
    {
      assert blocks[i..][1..] == blocks[i + 1..];
      assert srcs[i][..] == blocks[i];
      XorAssoc(x, srcs[i][k], XorAt(blocks[i + 1..], k));
      x := Xor(x, srcs[i][k]);
    }
    assert blocks[|srcs|..] == [];
    XorComm(x, 0);
  }

  /** `p1[k] ^= p2[k] ^ p3[k] ^ ...` for the eight words of the line at `at`. */
  method Line8Regs(p1: array<nat>, srcs: seq<array<nat>>, at: nat, ghost blocks: seq<Block>)
    requires Buffers(p1, srcs, blocks, at + 8)
    modifies p1
    ensures Buffers(p1, srcs, blocks, at + 8)
    ensures p1[..] == XorRange(old(p1[..]), blocks, at, at + 8)
  {
    ghost var before := p1[..];
    assert before == XorRange(before, blocks, at, at);
    for i := 0 to 8
      invariant Buffers(p1, srcs, blocks, at + 8)
      invariant p1[..] == XorRange(before, blocks, at, at + i)
    {
      XorWord(p1, srcs, at, at + i, blocks, before);
    }
  }

  method XorWord(p1: array<nat>, srcs: seq<array<nat>>, ghost lo: nat, k: nat, ghost blocks: seq<Block>,
                 ghost before: Block)
    requires lo <= k && Buffers(p1, srcs, blocks, k + 1) && |before| == p1.Length
    requires p1[..] == XorRange(before, blocks, lo, k)
    modifies p1
    ensures p1[..] == XorRange(before, blocks, lo, k + 1)
  {
    RangeGrows(before, blocks, lo, k);
    var x := JoinSources(p1, srcs, k, blocks);
    assert p1[k] == p1[..][k];
    p1[k] := Xor(p1[k], x);
  }

  /** The same line through eight registers: load, XOR one source after the other, store. */
  method Line32Regs(p1: array<nat>, srcs: seq<array<nat>>, at: nat, ghost blocks: seq<Block>)
    requires Buffers(p1, srcs, blocks, at + 8)
    modifies p1
    ensures Buffers(p1, srcs, blocks, at + 8)
    ensures p1[..] == XorRange(old(p1[..]), blocks, at, at + 8)
  {
    ghost var before := p1[..];
    var d := p1[at..at + 8];
    for k := 0 to |srcs|
      invariant Buffers(p1, srcs, blocks, at + 8)
      invariant |d| == 8 && p1[..] == before
      invariant forall i :: 0 <= i < 8 ==>
                  Xor(d[i], XorAt(blocks[k..], at + i)) == Xor(before[at + i], XorAt(blocks, at + i))
    {
      d := XorRegisters(d, srcs[k], at, blocks, k);
    }
    assert blocks[|srcs|..] == [];
    StoreRegisters(p1, d, at);
    forall i | 0 <= i < 8 ensures d[i] == Xor(before[at + i], XorAt(blocks, at + i)) {
      XorComm(d[i], 0);
    }
    ghost var now := p1[..];
    assert forall j :: 0 <= j < |now| ==> now[j] == p1[j];
    StoredIsRange(before, now, d, blocks, at);
  }

  lemma StoredIsRange(before: Block, now: Block, d: seq<nat>, blocks: seq<Block>, at: nat)
    requires |now| == |before| && at + 8 <= |before| && |d| == 8
    requires forall b :: b in blocks ==> at + 8 <= |b|
    requires forall i :: 0 <= i < 8 ==> d[i] == Xor(before[at + i], XorAt(blocks, at + i))
    requires forall j :: 0 <= j < |now| ==> now[j] == if at <= j < at + 8 then d[j - at] else before[j]
    ensures now == XorRange(before, blocks, at, at + 8)
  {
    var range := XorRange(before, blocks, at, at + 8);
    forall j | 0 <= j < |now| ensures now[j] == range[j] {
      if at <= j < at + 8 {
        var i := j - at;
        assert d[i] == Xor(before[at + i], XorAt(blocks, at + i));
      }
    }
  }

  /** `d0 ^= p[0]; ... d7 ^= p[7];` */
  method XorRegisters(d: seq<nat>, p: array<nat>, at: nat, ghost blocks: seq<Block>, ghost k: nat)
    returns (d': seq<nat>)
    requires |d| == 8 && k < |blocks| && p[..] == blocks[k] && forall b :: b in blocks ==> at + 8 <= |b|
    ensures |d'| == 8
    ensures forall i :: 0 <= i < 8 ==>
              Xor(d'[i], XorAt(blocks[k + 1..], at + i)) == Xor(d[i], XorAt(blocks[k..], at + i))
  {
    assert |p[..]| >= at + 8;
    d' := [Xor(d[0], p[at]), Xor(d[1], p[at + 1]), Xor(d[2], p[at + 2]), Xor(d[3], p[at + 3]),
           Xor(d[4], p[at + 4]), Xor(d[5], p[at + 5]), Xor(d[6], p[at + 6]), Xor(d[7], p[at + 7])];
    assert blocks[k..][1..] == blocks[k + 1..];
    forall i | 0 <= i < 8
      ensures Xor(d'[i], XorAt(blocks[k + 1..], at + i)) == Xor(d[i], XorAt(blocks[k..], at + i))
    {
      assert d'[i] == Xor(d[i], p[at + i]) && p[at + i] == blocks[k][at + i];
      XorAssoc(d[i], p[at + i], XorAt(blocks[k + 1..], at + i));
    }
  }

  method StoreRegisters(p1: array<nat>, d: seq<nat>, at: nat)
    requires |d| == 8 && at + 8 <= p1.Length
    modifies p1
    ensures forall j :: 0 <= j < p1.Length ==> p1[j] == if at <= j < at + 8 then d[j - at] else old(p1[..])[j]
  {
    p1[at] := d[0];
    p1[at + 1] := d[1];
    p1[at + 2] := d[2];
    p1[at + 3] := d[3];
    p1[at + 4] := d[4];
    p1[at + 5] := d[5];
    p1[at + 6] := d[6];
    p1[at + 7] := d[7];
  }

  // ---------------------------------------------------------------- the four templates

  /** The lines a call handles: a do-while loop runs once even when `bytes` is below one line. */
  function Lines(bytes: nat): (lines: nat)
    ensures bytes > 0 && bytes % 64 == 0 ==> 64 * lines == bytes && 8 * lines == bytes / 8
    ensures bytes >= 64 ==> 64 * lines <= bytes < 64 * lines + 64
    ensures bytes < 64 ==> lines == 1
  {
    if bytes / 8 / 8 == 0 then 1 else bytes / 8 / 8
  }

  method Xor8Regs(bytes: nat, p1: array<nat>, srcs: seq<array<nat>>, ghost blocks: seq<Block>)
    requires Buffers(p1, srcs, blocks, 8 * Lines(bytes))
    modifies p1
    ensures p1[..] == XorRange(old(p1[..]), blocks, 0, 8 * Lines(bytes))
    ensures bytes > 0 && bytes % 64 == 0 ==> p1[..] == XorRange(old(p1[..]), blocks, 0, bytes / 8)
  {
    ghost var before := p1[..];
    assert before == XorRange(before, blocks, 0, 0);
    var lines: int, at: nat := bytes / 8 / 8, 0;
    while true
      invariant at == 0 || lines > 0
      invariant at + 8 * lines == 8 * (bytes / 8 / 8)
      invariant at + 8 <= 8 * Lines(bytes)
      invariant Buffers(p1, srcs, blocks, 8 * Lines(bytes))
      invariant p1[..] == XorRange(before, blocks, 0, at)
      decreases lines + 1
    {
      Line8Regs(p1, srcs, at, blocks);
      RangesJoin(before, blocks, 0, at, at + 8);
      at, lines := at + 8, lines - 1;
      if lines <= 0 { break; }
    }
  }

  method Xor32Regs(bytes: nat, p1: array<nat>, srcs: seq<array<nat>>, ghost blocks: seq<Block>)
    requires Buffers(p1, srcs, blocks, 8 * Lines(bytes))
    modifies p1
    ensures p1[..] == XorRange(old(p1[..]), blocks, 0, 8 * Lines(bytes))
    ensures bytes > 0 && bytes % 64 == 0 ==> p1[..] == XorRange(old(p1[..]), blocks, 0, bytes / 8)
  {
    ghost var before := p1[..];
    assert before == XorRange(before, blocks, 0, 0);
    var lines: int, at: nat := bytes / 8 / 8, 0;
    while true
      invariant at == 0 || lines > 0
      invariant at + 8 * lines == 8 * (bytes / 8 / 8)
      invariant at + 8 <= 8 * Lines(bytes)
      invariant Buffers(p1, srcs, blocks, 8 * Lines(bytes))
      invariant p1[..] == XorRange(before, blocks, 0, at)
      decreases lines + 1
    {
      Line32Regs(p1, srcs, at, blocks);
      RangesJoin(before, blocks, 0, at, at + 8);
      at, lines := at + 8, lines - 1;
      if lines <= 0 { break; }
    }
  }

  /**
   `lines` starts one short, and a loop left with it at zero is entered once more past the
   prefetches: `again` is that jump.
   */
  method Xor8RegsPrefetch(bytes: nat, p1: array<nat>, srcs: seq<array<nat>>, ghost blocks: seq<Block>)
    requires Buffers(p1, srcs, blocks, 8 * Lines(bytes))
    modifies p1
    ensures p1[..] == XorRange(old(p1[..]), blocks, 0, 8 * Lines(bytes))
    ensures bytes > 0 && bytes % 64 == 0 ==> p1[..] == XorRange(old(p1[..]), blocks, 0, bytes / 8)
  {
    ghost var before := p1[..];
    assert before == XorRange(before, blocks, 0, 0);
    var lines: int, at: nat := bytes / 8 / 8 - 1, 0;
    var again := true;
    while again
      invariant Progress(bytes, lines, at, again)
      invariant Buffers(p1, srcs, blocks, 8 * Lines(bytes))
      invariant p1[..] == XorRange(before, blocks, 0, at)
      decreases if again then lines + 2 else 0
    {
      while true
        invariant Progress(bytes, lines, at, true)
        invariant Buffers(p1, srcs, blocks, 8 * Lines(bytes))
        invariant p1[..] == XorRange(before, blocks, 0, at)
        decreases lines + 2
      {
        Line8Regs(p1, srcs, at, blocks);
        RangesJoin(before, blocks, 0, at, at + 8);
        at, lines := at + 8, lines - 1;
        if lines <= 0 { break; }
      }
      again := lines == 0;
    }
  }

  method Xor32RegsPrefetch(bytes: nat, p1: array<nat>, srcs: seq<array<nat>>, ghost blocks: seq<Block>)
    requires Buffers(p1, srcs, blocks, 8 * Lines(bytes))
    modifies p1
    ensures p1[..] == XorRange(old(p1[..]), blocks, 0, 8 * Lines(bytes))
    ensures bytes > 0 && bytes % 64 == 0 ==> p1[..] == XorRange(old(p1[..]), blocks, 0, bytes / 8)
  {
    ghost var before := p1[..];
    assert before == XorRange(before, blocks, 0, 0);
    var lines: int, at: nat := bytes / 8 / 8 - 1, 0;
    var again := true;
    while again
      invariant Progress(bytes, lines, at, again)
      invariant Buffers(p1, srcs, blocks, 8 * Lines(bytes))
      invariant p1[..] == XorRange(before, blocks, 0, at)
      decreases if again then lines + 2 else 0
    {
      while true
        invariant Progress(bytes, lines, at, true)
        invariant Buffers(p1, srcs, blocks, 8 * Lines(bytes))
        invariant p1[..] == XorRange(before, blocks, 0, at)
        decreases lines + 2
      {
        Line32Regs(p1, srcs, at, blocks);
        RangesJoin(before, blocks, 0, at, at + 8);
        at, lines := at + 8, lines - 1;
        if lines <= 0 { break; }
      }
      again := lines == 0;
    }
  }

  /** A line is left at `at` as long as the prefetch loop goes on, and none once it ends. */
  ghost predicate Progress(bytes: nat, lines: int, at: nat, again: bool) {
    && at + 8 * (lines + 1) == 8 * (bytes / 8 / 8)
    && (again ==> at + 8 <= 8 * Lines(bytes) && (at == 0 || lines >= 0))
    && (!again ==> at == 8 * Lines(bytes))
    && lines >= if again then -1 else -2
  }

  // ---------------------------------------------------------------- parity and recovery

  /** `p` after one call per group of sources, over the first `n` words. */
  function Accumulate(p: Block, groups: seq<seq<Block>>, n: nat): (r: Block)
    requires n <= |p| && Fits(groups, n)
    ensures |r| == |p|
    decreases |groups|
  {
    if groups == [] then p
    else
      assert Wide(groups[0], n);
      Accumulate(XorRange(p, groups[0], 0, n), groups[1..], n)
  }

  function Flatten(groups: seq<seq<Block>>): (r: seq<Block>)
    ensures forall b :: b in r ==> exists g :: g in groups && b in g
  {
    if groups == [] then [] else groups[0] + Flatten(groups[1..])
  }

  lemma {:induction false} XorAtConcat(a: seq<Block>, b: seq<Block>, j: nat)
    requires forall x :: x in a + b ==> j < |x|
    ensures (forall x :: x in a ==> j < |x|) && (forall x :: x in b ==> j < |x|)
    ensures XorAt(a + b, j) == Xor(XorAt(a, j), XorAt(b, j))
  {
    assert forall x :: x in a || x in b ==> x in a + b;
    if a == [] {
      assert a + b == b;
    } else {
      assert (a + b)[1..] == a[1..] + b;
      XorAtConcat(a[1..], b, j);
      XorAssoc(a[0][j], XorAt(a[1..], j), XorAt(b, j));
    }
  }

  /** However the sources are split over calls, the block ends up with all of them XORed in. */
  lemma {:induction false} AccumulateIsOneXor(p: Block, groups: seq<seq<Block>>, n: nat)
    requires n <= |p| && Fits(groups, n)
    ensures Wide(Flatten(groups), n)
    ensures Accumulate(p, groups, n) == XorRange(p, Flatten(groups), 0, n)
    decreases |groups|
  {
    if groups == [] {
      forall j | 0 <= j < n ensures Xor(p[j], XorAt([], j)) == p[j] { XorComm(p[j], 0); }
    } else {
      var g, rest := groups[0], Flatten(groups[1..]);
      assert Wide(g, n);
      AccumulateIsOneXor(XorRange(p, g, 0, n), groups[1..], n);
      forall j | 0 <= j < n
        ensures Xor(Xor(p[j], XorAt(g, j)), XorAt(rest, j)) == Xor(p[j], XorAt(g + rest, j))
      {
        XorAtConcat(g, rest, j);
        XorAssoc(p[j], XorAt(g, j), XorAt(rest, j));
      }
    }
  }

  /** The order of the blocks does not matter. */
  lemma {:induction false} XorAtPermuted(a: seq<Block>, b: seq<Block>, j: nat)
    requires multiset(a) == multiset(b) && forall x :: x in a ==> j < |x|
    ensures forall x :: x in b ==> j < |x|
    ensures XorAt(a, j) == XorAt(b, j)
    decreases |a|
  {
    SameElements(a, b);
    if a == [] {
      assert |multiset(b)| == 0;
    } else {
      assert a[0] in multiset(b);
      var k :| 0 <= k < |b| && b[k] == a[0];
      Without(b, k);
      Without(a, 0);
      assert a[..0] + a[1..] == a[1..];
      XorAtPermuted(a[1..], b[..k] + b[k + 1..], j);
      XorAtExtract(b, k, j);
    }
  }

  lemma SameElements(a: seq<Block>, b: seq<Block>)
    requires multiset(a) == multiset(b)
    ensures |a| == |b| && forall x :: x in b ==> x in a
  {
    assert |multiset(a)| == |a| && |multiset(b)| == |b|;
    forall x | x in b ensures x in a { assert x in multiset(b); }
  }

  lemma Without(b: seq<Block>, k: nat)
    requires k < |b|
    ensures multiset(b[..k] + b[k + 1..]) == multiset(b) - multiset{b[k]}
  {
    assert b == b[..k] + [b[k]] + b[k + 1..];
  }

  lemma XorAtExtract(b: seq<Block>, k: nat, j: nat)
    requires k < |b| && forall x :: x in b ==> j < |x|
    ensures XorAt(b, j) == Xor(b[k][j], XorAt(b[..k] + b[k + 1..], j))
  {
    var l, r := b[..k], b[k + 1..];
    assert b == l + b[k..] && b[k..][1..] == r;
    XorAtConcat(l, b[k..], j);
    XorAtConcat(l, r, j);
    var u, v, w := XorAt(l, j), b[k][j], XorAt(r, j);
    XorAssoc(u, v, w);
    XorComm(u, v);
    XorAssoc(v, u, w);
  }

  /**
   The parity of a stripe, accumulated from zero by any mix of arities in any order, gives any
   one missing block back when the others are accumulated into it, again in any mix and order.
   */
  lemma {:induction false} ParityRecovers(
    stripe: seq<Block>, n: nat, build: seq<seq<Block>>, missing: nat, rebuild: seq<seq<Block>>)
    requires missing < |stripe| && forall b :: b in stripe ==> |b| == n
    requires multiset(Flatten(build)) == multiset(stripe)
    requires multiset(Flatten(rebuild)) == multiset(stripe[..missing] + stripe[missing + 1..])
    ensures Fits(build, n) && Fits(rebuild, n)
    ensures Accumulate(Accumulate(seq(n, i => 0), build, n), rebuild, n) == stripe[missing]
  {
    var others := stripe[..missing] + stripe[missing + 1..];
    var zero: Block := seq(n, i => 0);
    SameElements(stripe, Flatten(build));
    SameElements(others, Flatten(rebuild));
    FlattenFits(build, n);
    FlattenFits(rebuild, n);
    var parity := Accumulate(zero, build, n);
    AccumulateIsOneXor(zero, build, n);
    AccumulateIsOneXor(parity, rebuild, n);
    forall j | 0 <= j < n ensures Accumulate(parity, rebuild, n)[j] == stripe[missing][j] {
      XorAtPermuted(stripe, Flatten(build), j);
      XorAtPermuted(others, Flatten(rebuild), j);
      XorAtExtract(stripe, missing, j);
      XorTwice(stripe[missing][j], XorAt(others, j));
    }
  }

  ghost predicate Wide(blocks: seq<Block>, n: nat) {
    forall b :: b in blocks ==> n <= |b|
  }

  ghost predicate Fits(groups: seq<seq<Block>>, n: nat) {
    forall i :: 0 <= i < |groups| ==> Wide(groups[i], n)
  }

  lemma {:induction false} FlattenFits(groups: seq<seq<Block>>, n: nat)
    requires forall b :: b in Flatten(groups) ==> n <= |b|
    ensures Fits(groups, n)
  {
    if groups != [] {
      assert forall b :: b in Flatten(groups[1..]) ==> b in Flatten(groups);
      FlattenFits(groups[1..], n);
      assert forall b :: b in groups[0] ==> b in Flatten(groups);
      assert forall i :: 0 < i < |groups| ==> groups[i] == groups[1..][i - 1];
    }
  }
}
