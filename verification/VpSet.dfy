/**
 Encoding a CPU mask as a Hyper-V sparse virtual-processor set (asm-generic/mshyperv.h): a
 mask of valid banks, followed by the 64-bit contents of the valid banks only, packed.
 */
module VpSet {
  import opened Bits

  const VP_INVAL: nat := 0xFFFF_FFFF

  // ---------------------------------------------------------------- what a set means

  /** The number of valid banks below bank `b`: where the packed contents of bank `b` are. */
  function PackedIndex(mask: nat, b: nat): (k: nat)
    ensures k <= b
  {
    if b == 0 then 0 else PackedIndex(mask, b - 1) + if Bit(mask, b - 1) then 1 else 0
  }

  ghost function BanksBelow(mask: nat, b: nat): set<nat> {
    set i: nat | i < b && Bit(mask, i)
  }

  /** The place is the number of valid banks below, so valid banks are packed in order without gaps. */
  lemma {:induction false} PackedIndexCounts(mask: nat, b: nat)
    ensures PackedIndex(mask, b) == |BanksBelow(mask, b)|
  {
    if b > 0 {
      PackedIndexCounts(mask, b - 1);
      var below := BanksBelow(mask, b - 1);
      assert BanksBelow(mask, b) == if Bit(mask, b - 1) then below + {b - 1} else below;
    }
  }

  /** Virtual processor `v` is in the set, as the hypervisor reads it. */
  predicate Contains(mask: nat, contents: seq<nat>, v: nat) {
    && Bit(mask, v / 64)
    && PackedIndex(mask, v / 64) < |contents|
    && Bit(contents[PackedIndex(mask, v / 64)], v % 64)
  }

  /** When all banks below are valid, packing leaves a bank at its own number. */
  lemma {:induction false} PackedInPlace(n: nat, b: nat)
    requires b <= n
    ensures PackedIndex(Pow2(n) - 1, b) == b
  {
    if b > 0 {
      PackedInPlace(n, b - 1);
      BitMask(n, b - 1);
    }
  }

  lemma DenseContains(n: nat, contents: seq<nat>, v: nat)
    requires n <= |contents|
    ensures Contains(Pow2(n) - 1, contents, v) <==> v / 64 < n && Bit(contents[v / 64], v % 64)
  {
    BitMask(n, v / 64);
    if v / 64 < n { PackedInPlace(n, v / 64); }
  }

  // ---------------------------------------------------------------- struct hv_vpset

  /** The banks hold exactly the processors of `vps`. */
  ghost predicate Holds(banks: seq<nat>, n: nat, vps: set<nat>)
    requires n <= |banks|
  {
    forall v: nat :: v / 64 < n ==> (Bit(banks[v / 64], v % 64) <==> v in vps)
  }

  /** The processors of the CPUs below `limit` in the mask. */
  ghost function ProcessorsBelow(vpIndex: seq<nat>, cpus: set<nat>, limit: nat): set<nat>
    requires limit <= |vpIndex|
  {
    set c: nat | c in cpus && c < limit :: vpIndex[c]
  }

  lemma SetBit(banks: seq<nat>, n: nat, vps: set<nat>, v: nat)
    requires n <= |banks| && Holds(banks, n, vps) && v / 64 < n
    ensures Holds(banks[v / 64 := Or(banks[v / 64], Pow2(v % 64))], n, vps + {v})
  {
    var banks' := banks[v / 64 := Or(banks[v / 64], Pow2(v % 64))];
    forall w: nat | w / 64 < n ensures Bit(banks'[w / 64], w % 64) <==> w in vps + {v} {
      assert w == 64 * (w / 64) + w % 64 && v == 64 * (v / 64) + v % 64;
      if w / 64 == v / 64 {
        BitOr(banks[v / 64], Pow2(v % 64), w % 64);
        BitPow2(v % 64, w % 64);
      }
    }
  }

  class HvVpset {
    var validBankMask: nat
    const bankContents: array<nat>

    constructor (bankContents: array<nat>)
      ensures this.bankContents == bankContents && validBankMask == 0
    {
      this.bankContents := bankContents;
      validBankMask := 0;
    }

    /**
     `cpumask_to_vpset`. `vpIndex` is hv_vp_index, `maxVp` is hv_max_vp_index; the banks hold
     anything before the call.
     */
    method FromCpumask(maxVp: nat, vpIndex: seq<nat>, cpus: set<nat>) returns (r: int)
      requires maxVp / 64 < 64 ==> maxVp / 64 < bankContents.Length
      requires forall c :: c in cpus ==> c < |vpIndex| && (vpIndex[c] <= maxVp || vpIndex[c] == VP_INVAL)
      modifies this, bankContents
      ensures r == 0 <==> maxVp / 64 >= 64
      ensures r == -1 <==> maxVp / 64 < 64 && exists c :: c in cpus && vpIndex[c] == VP_INVAL
      ensures r == 0 || r == -1 ==> validBankMask == old(validBankMask)
      ensures r == 0 ==> bankContents[..] == old(bankContents[..])
      ensures -1 <= r <= maxVp / 64 + 1
      // the decoded set is exactly the processors of the mask
      ensures r > 0 ==> forall v: nat :: Contains(validBankMask, bankContents[..], v) <==>
                          exists c :: c in cpus && vpIndex[c] == v
      // and no smaller bank count covers them
      ensures r > 0 ==> forall c :: c in cpus ==> vpIndex[c] / 64 < r
      ensures r > 1 ==> exists c :: c in cpus && vpIndex[c] / 64 == r - 1
    {
      if maxVp / 64 >= 64 { return 0; }
      var n := maxVp / 64 + 1;
      ClearBanks(n);
      var nrBank := 1;
      ghost var vps: set<nat> := {};
      for cpu := 0 to |vpIndex|
        invariant 1 <= nrBank <= n && validBankMask == old(validBankMask)
        invariant vps == ProcessorsBelow(vpIndex, cpus, cpu)
        invariant Holds(bankContents[..], n, vps)
        invariant forall c :: c in cpus && c < cpu ==> vpIndex[c] != VP_INVAL && vpIndex[c] / 64 < nrBank
        invariant nrBank > 1 ==> exists c :: c in cpus && vpIndex[c] / 64 == nrBank - 1
      {
        if cpu in cpus {
          var vcpu := vpIndex[cpu];
          if vcpu == VP_INVAL { return -1; }
          assert vcpu / 64 < n;
          SetBit(bankContents[..], n, vps, vcpu);
          bankContents[vcpu / 64] := Or(bankContents[vcpu / 64], Pow2(vcpu % 64));
          vps := vps + {vcpu};
          if vcpu / 64 >= nrBank { nrBank := vcpu / 64 + 1; }
        }
      }
      validBankMask := Pow2(nrBank) - 1;
      forall v: nat
        ensures Contains(validBankMask, bankContents[..], v) <==> exists c :: c in cpus && vpIndex[c] == v
      {
        DenseContains(nrBank, bankContents[..], v);
      }
      return nrBank;
    }

    /** The first loop: stale contents of every bank that can be reached are cleared. */
    method ClearBanks(n: nat)
      requires n <= bankContents.Length
      modifies bankContents
      ensures Holds(bankContents[..], n, {})
    {
      for bank := 0 to n
        invariant forall b :: 0 <= b < bank ==> bankContents[b] == 0
      {
        bankContents[bank] := 0;
      }
      forall v: nat | v / 64 < n ensures !Bit(bankContents[v / 64], v % 64) {
        BitZero(v % 64);
      }
    }
  }
}
