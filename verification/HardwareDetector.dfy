/** Core topology and the affinity mask chosen for games. */
module HardwareDetector {
  import opened Machine
  import opened ThreadMasks

  // ---- Topology -----------------------------------------------------------------------------

  /** One entry of the processor information list. */
  datatype CoreRecord = CoreRecord(isCore: bool, efficiencyClass: nat, coreMask: mask) {
    predicate IsP() { isCore && efficiencyClass > 0 }
    predicate IsE() { isCore && efficiencyClass == 0 }
  }

  datatype Query = Failed | Answered(records: seq<CoreRecord>)

  datatype Profile = Profile(logicalCores: nat, physicalCores: nat, pCoreCount: nat, eCoreCount: nat,
                             isHybrid: bool, isAmdX3D: bool, affinity: mask)

  function Count(records: seq<CoreRecord>, p: bool): nat {
    if records == [] then 0
    else
      var r := records[|records| - 1];
      Count(records[..|records| - 1], p) + (if (if p then r.IsP() else r.IsE()) then 1 else 0)
  }

  /** The processors of all performance cores. */
  function PThreads(records: seq<CoreRecord>): mask {
    if records == [] then 0
    else
      var r := records[|records| - 1];
      Union(PThreads(records[..|records| - 1]), if r.IsP() then r.coreMask else 0)
  }

  /** The union has exactly the processors some performance core has. */
  lemma {:induction false} PThreadsAre(records: seq<CoreRecord>, i: nat)
    ensures Has(PThreads(records), i) <==>
      exists k :: 0 <= k < |records| && records[k].IsP() && Has(records[k].coreMask, i)
  {
    HasNothing(0, i);
    if records != [] {
      var rest, r := records[..|records| - 1], records[|records| - 1];
      PThreadsAre(rest, i);
      HasOr(PThreads(rest), if r.IsP() then r.coreMask else 0, i);
      assert forall k :: 0 <= k < |rest| ==> rest[k] == records[k];
    }
  }

  /** Some performance core has a processor. */
  ghost predicate SomePThread(records: seq<CoreRecord>) {
    exists k :: 0 <= k < |records| && records[k].IsP() && records[k].coreMask != 0
  }

  lemma {:induction false} PThreadsEmptyIff(records: seq<CoreRecord>)
    ensures PThreads(records) != 0 <==> SomePThread(records)
  {
    if records != [] {
      var rest, r := records[..|records| - 1], records[|records| - 1];
      PThreadsEmptyIff(rest);
      OrZero(PThreads(rest), if r.IsP() then r.coreMask else 0);
      assert forall k :: 0 <= k < |rest| ==> rest[k] == records[k];
    }
  }

  lemma {:induction false} OrZero(a: nat, b: nat)
    ensures Or(a, b) == 0 <==> a == 0 && b == 0
    ensures Or(a, 0) == a
    decreases a + b
  {
    if a + b > 0 { OrZero(a / 2, b / 2); }
  }

  /** When every entry describes a core, each is counted once. */
  lemma {:induction false} CountsSplit(records: seq<CoreRecord>)
    ensures Count(records, true) + Count(records, false) == |records|
       <==> forall k :: 0 <= k < |records| ==> records[k].isCore
    ensures Count(records, true) + Count(records, false) <= |records|
  {
    if records != [] {
      CountsSplit(records[..|records| - 1]);
    }
  }

  /** The loop over the records. */
  method WalkRecords(records: seq<CoreRecord>) returns (pCores: nat, eCores: nat, pCoresAffinity: mask)
    ensures pCores == Count(records, true) && eCores == Count(records, false)
    ensures pCoresAffinity == PThreads(records)
  {
    hide Or;
    pCores, eCores, pCoresAffinity := 0, 0, 0;
    var ptr := 0;
    while ptr < |records|
      invariant 0 <= ptr <= |records|
      invariant pCores == Count(records[..ptr], true) && eCores == Count(records[..ptr], false)
      invariant pCoresAffinity == PThreads(records[..ptr])
    {
      assert records[..ptr + 1][..ptr] == records[..ptr];
      var curr := records[ptr];
      OrZero(pCoresAffinity, 0);
      if curr.isCore {
        if curr.efficiencyClass > 0 {
          pCores := pCores + 1;
          pCoresAffinity := Union(pCoresAffinity, curr.coreMask);
        } else {
          eCores := eCores + 1;
        }
      }
      ptr := ptr + 1;
    }
    assert records[..|records|] == records;
  }

  /** How many entries describe a core. */
  function Cores(records: seq<CoreRecord>): nat {
    if records == [] then 0
    else Cores(records[..|records| - 1]) + (if records[|records| - 1].isCore then 1 else 0)
  }

  lemma {:induction false} CoresAreCounted(records: seq<CoreRecord>)
    ensures Count(records, true) + Count(records, false) == Cores(records)
  {
    if records != [] {
      CoresAreCounted(records[..|records| - 1]);
    }
  }

  /** Sections 5 and 7 of `DetectHardware`: topology, then the mask. */
  method DetectTopology(logicalCores: nat, hybridFlag: bool, isAmdX3D: bool, query: Query)
    returns (prof: Profile)
    ensures prof.logicalCores == logicalCores && prof.isAmdX3D == isAmdX3D
    ensures prof.pCoreCount + prof.eCoreCount == prof.physicalCores
    ensures query.Answered? && Cores(query.records) > 0 ==> prof.physicalCores == Cores(query.records)
    ensures query.Answered? && Cores(query.records) == 0 ==>
      prof.physicalCores == if logicalCores > 2 then logicalCores / 2 else logicalCores
    ensures query.Failed? ==> prof.physicalCores == 1
    ensures prof.isHybrid <==>
      && query.Answered? && Count(query.records, true) > 0
      && (hybridFlag || Count(query.records, false) > 0)
    ensures prof.isHybrid ==>
      && prof.pCoreCount == Count(query.records, true)
      && prof.eCoreCount == Count(query.records, false)
      && prof.affinity == HybridAffinity(logicalCores, PThreads(query.records))
    ensures !prof.isHybrid ==>
      && prof.eCoreCount == 0
      && prof.affinity == UniformAffinity(logicalCores, isAmdX3D)
  {
    hide FirstThreads, WithoutCore0, Union;
    prof := Profile(logicalCores, 1, 1, 0, false, isAmdX3D, 0);
    if query.Answered? {
      var pCores, eCores, pCoresAffinity := WalkRecords(query.records);
      CoresAreCounted(query.records);
      prof := prof.(physicalCores := pCores + eCores);
      if (pCores > 0 && eCores > 0) || (hybridFlag && pCores > 0) {
        prof := prof.(isHybrid := true, pCoreCount := pCores, eCoreCount := eCores, affinity := pCoresAffinity);
      } else {
        prof := prof.(isHybrid := false, pCoreCount := prof.physicalCores, eCoreCount := 0);
      }
    }
    if prof.physicalCores == 0 {
      prof := prof.(physicalCores := if logicalCores > 2 then logicalCores / 2 else logicalCores);
      prof := prof.(pCoreCount := prof.physicalCores);
    }
    prof := prof.(affinity := CalculateOptimalGamingAffinity(prof));
  }

  // ---- The mask -------------------------------------------------------------------------------

  /** Performance cores only, without processors 0 and 1 on a machine with at least eight,
      unless nothing would be left. */
  function HybridAffinity(logicalCores: nat, pThreads: mask): mask {
    var m := if logicalCores >= 8 then WithoutCore0(pThreads) else pThreads;
    if m != 0 then m else pThreads
  }

  function UniformAffinity(logicalCores: nat, isAmdX3D: bool): mask {
    if isAmdX3D && logicalCores >= 24 then WithoutCore0(0xFFFF)
    else if logicalCores >= 6 then WithoutCore0(FirstThreads(logicalCores))
    else if logicalCores == 4 then 0x0E
    else FirstThreads(logicalCores)
  }

  function CalculateOptimalGamingAffinity(p: Profile): mask {
    if p.isHybrid && p.pCoreCount > 0 then HybridAffinity(p.logicalCores, p.affinity)
    else UniformAffinity(p.logicalCores, p.isAmdX3D)
  }

  /** Without performance cores neither the hybrid flag nor the mask found matters. */
  lemma NoPerformanceCores(p: Profile, other: mask)
    requires p.pCoreCount == 0
    ensures CalculateOptimalGamingAffinity(p)
         == CalculateOptimalGamingAffinity(p.(isHybrid := false, affinity := other))
  {
  }

  /** Some performance thread is neither 0 nor 1. */
  ghost predicate HasOthers(p: nat) {
    exists i: nat :: i >= 2 && Has(p, i)
  }

  lemma WithoutCore0IsLess(m: mask)
    ensures m == 0 ==> WithoutCore0(m) == 0
  {
  }

  /** On a hybrid part games run on performance threads only, on none just if there are none.
      Processors 0 and 1 are left alone exactly when there are at least eight processors and
      another performance thread to use, or when they are no performance threads anyway; no other
      one is given up. */
  lemma HybridMask(logicalCores: nat, records: seq<CoreRecord>)
    ensures var (m, p) := (HybridAffinity(logicalCores, PThreads(records)), PThreads(records));
            && Subset(m, p) && (m != 0 <==> SomePThread(records))
            && (Has(m, 0) || Has(m, 1) <==> (Has(p, 0) || Has(p, 1)) && (logicalCores < 8 || !HasOthers(p)))
            && forall i: nat :: i >= 2 && Has(p, i) ==> Has(m, i)
  {
    PThreadsEmptyIff(records);
    WithoutCore0IsLess(PThreads(records));
    hide PThreads, SomePThread;
    var p := PThreads(records);
    var w := WithoutCore0(p);
    forall i: nat ensures Has(w, i) <==> Has(p, i) && i >= 2 { HasWithoutCore0(p, i); }
    hide Has, WithoutCore0;
    if w != 0 {
      assert Has(w, Lowest(w));
      assert HasOthers(p);
    } else {
      forall i: nat ensures !Has(w, i) { HasNothing(w, i); }
      if p != 0 { assert Has(p, Lowest(p)); }
    }
    assert !Has(w, 0) && !Has(w, 1);
  }

  /** On other parts, which processors are chosen; the X3D rule takes the first CCD. */
  lemma UniformThreads(logicalCores: nat, isAmdX3D: bool, i: nat)
    requires i < 64
    ensures Has(UniformAffinity(logicalCores, isAmdX3D), i) <==>
      if isAmdX3D && logicalCores >= 24 then 2 <= i < 16
      else if logicalCores >= 6 then 2 <= i < logicalCores
      else if logicalCores == 4 then 1 <= i < 4
      else i < logicalCores
  {
    FirstThreadsAre(logicalCores, i);
    HasWithoutCore0(FirstThreads(logicalCores), i);
    HasWithoutCore0(0xFFFF, i);
    HasBelowPower(16, i);
    Power64();
    FourCores(i);
    hide FirstThreads, Has, WithoutCore0, Power;
  }

  lemma FourCores(i: nat)
    ensures Has(0x0E, i) <==> 1 <= i < 4
  {
    if i > 0 {
      assert Power(3) == 8;
      HasBelowPower(3, i - 1);
    }
  }

  /** So the mask is empty only without any processor, and names existing processors only. */
  lemma UniformMask(logicalCores: nat, isAmdX3D: bool)
    ensures UniformAffinity(logicalCores, isAmdX3D) == 0 <==> logicalCores == 0
    ensures forall i: nat :: Has(UniformAffinity(logicalCores, isAmdX3D), i) ==> i < logicalCores
  {
    assert UniformAffinity(0, isAmdX3D) == 0;
    hide UniformAffinity, Has, Power;
    var m := UniformAffinity(logicalCores, isAmdX3D);
    var least := if logicalCores >= 6 then 2 else if logicalCores == 4 then 1 else 0;
    UniformThreads(logicalCores, isAmdX3D, least);
    if m == 0 { HasNothing(m, least); }
    forall i: nat | Has(m, i) ensures i < logicalCores {
      Power64();
      HasBelow(m, 64, i);
      UniformThreads(logicalCores, isAmdX3D, i);
    }
  }
}
