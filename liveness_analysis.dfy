/**
 The scratch-register tracker of LivenessAnalysis.cpp. For one machine basic
 block it records, before each instruction, every register of the x86 GR32
 class that LLVM's live-register tracking reports available, converted to
 capstone's numbering, and answers lookups on what it recorded.

 LLVM's `LivePhysRegs` (addLiveIns, available, stepForward), the GR32 class and
 capstone's register conversion are not part of this model: they are the
 uninterpreted fields of a `Backend`.
 */
module LivenessAnalysis {
  import opened Wrappers

  /** An LLVM physical register number, as the GR32 class enumerates it. */
  type Reg = nat

  /** A capstone `x86_reg`. */
  type CsReg = int

  /** capstone's `X86_REG_INVALID`, the first entry of the `x86_reg` enumeration. */
  const X86_REG_INVALID: CsReg := 0

  /**
   A machine basic block: its number and its instructions, first to last. The
   analysis itself never reads the number: `MBB.getNumber()` appears only in the
   debug message written after the scan, which is not modelled. The field keeps
   the block's identity in `addLiveIns`, which takes the whole block.
   */
  datatype Block<I> = Block(number: int, instrs: seq<I>)

  /**
   What the tracker calls outside itself. `S` is the state of a `LivePhysRegs`
   object, `I` the identity of a machine instruction.
   */
  datatype Backend<!S, !I> = Backend(
    addLiveIns: Block<I> -> S,           // a fresh LivePhysRegs after addLiveIns(MBB)
    available: (S, Reg) -> bool,         // LivePhysRegs::available(MRI, reg)
    stepForward: (S, I) -> S,            // LivePhysRegs::stepForward(MI, Clobbers)
    gr32: seq<Reg>,                      // X86::GR32RegClass, in its iteration order
    convertToCapstoneReg: Reg -> CsReg)  // LLVM to capstone register numbering

  /** Every instruction occurs once in its block. */
  predicate Distinct<T(==)>(s: seq<T>) {
    forall p, q :: 0 <= p < q < |s| ==> s[p] != s[q]
  }

  /** The list of `mi` in `m`, or the empty list when `mi` has no entry. */
  function Lookup<I, T>(m: map<I, seq<T>>, mi: I): seq<T> {
    if mi in m then m[mi] else []
  }

  /** No entry of `m` holds an empty list. */
  ghost predicate NoEmptyLists<I, T>(m: map<I, seq<T>>) {
    forall mi :: mi in m ==> m[mi] != []
  }

  /** The live-register state reached from `live` by stepping forward over `instrs` in order. */
  function StepOver<S, I>(b: Backend<S, I>, live: S, instrs: seq<I>): S
    decreases |instrs|
  {
    if instrs == [] then live
    else b.stepForward(StepOver(b, live, instrs[..|instrs| - 1]), instrs[|instrs| - 1])
  }

  /** The registers of `cls` that are available in `live`, in the order of `cls`, each converted. */
  function FreeIn<S, I>(b: Backend<S, I>, live: S, cls: seq<Reg>): seq<CsReg>
    decreases |cls|
  {
    if cls == [] then []
    else
      var r := cls[|cls| - 1];
      FreeIn(b, live, cls[..|cls| - 1]) + (if b.available(live, r) then [b.convertToCapstoneReg(r)] else [])
  }

  /**
   The GR32 registers free before the `k`-th instruction of `mbb`: those available
   in the state seeded with the block's live-ins and stepped forward over the
   instructions before the `k`-th one (not over the `k`-th itself).
   */
  function FreeBefore<S, I>(b: Backend<S, I>, mbb: Block<I>, k: nat): seq<CsReg>
    requires k < |mbb.instrs|
  {
    FreeIn(b, StepOver(b, b.addLiveIns(mbb), mbb.instrs[..k]), b.gr32)
  }

  /** The map the analysis builds: each instruction with a non-empty free list, bound to that list. */
  function Analysis<S, I(==)>(b: Backend<S, I>, mbb: Block<I>): map<I, seq<CsReg>>
    requires Distinct(mbb.instrs)
  {
    map k | 0 <= k < |mbb.instrs| && FreeBefore(b, mbb, k) != [] :: mbb.instrs[k] := FreeBefore(b, mbb, k)
  }

  // ---------------------------------------------------------------------------
  // Reference descriptions of a free list

  /** The registers of `cls` available in `live`, filtered from the front. */
  function AvailableRegs<S, I>(b: Backend<S, I>, live: S, cls: seq<Reg>): seq<Reg>
    decreases |cls|
  {
    if cls == [] then []
    else (if b.available(live, cls[0]) then [cls[0]] else []) + AvailableRegs(b, live, cls[1..])
  }

  /** Each register of `rs` in capstone numbering. */
  function ConvertAll<S, I>(b: Backend<S, I>, rs: seq<Reg>): (cs: seq<CsReg>)
    ensures |cs| == |rs|
    ensures forall i :: 0 <= i < |rs| ==> cs[i] == b.convertToCapstoneReg(rs[i])
  {
    seq(|rs|, i requires 0 <= i < |rs| => b.convertToCapstoneReg(rs[i]))
  }

  lemma {:induction false} AvailableRegsAppend<S, I>(b: Backend<S, I>, live: S, cls: seq<Reg>, r: Reg)
    ensures AvailableRegs(b, live, cls + [r])
         == AvailableRegs(b, live, cls) + (if b.available(live, r) then [r] else [])
    decreases |cls|
  {
    if cls == [] {
      assert [r][1..] == [];
    } else {
      assert (cls + [r])[1..] == cls[1..] + [r];
      AvailableRegsAppend(b, live, cls[1..], r);
    }
  }

  /** A free list is the available class registers, in class order, each converted. */
  lemma {:induction false} FreeInIsConvertedAvailable<S, I>(b: Backend<S, I>, live: S, cls: seq<Reg>)
    ensures FreeIn(b, live, cls) == ConvertAll(b, AvailableRegs(b, live, cls))
    decreases |cls|
  {
    if cls != [] {
      var init, r := cls[..|cls| - 1], cls[|cls| - 1];
      assert cls == init + [r];
      FreeInIsConvertedAvailable(b, live, init);
      AvailableRegsAppend(b, live, init, r);
    }
  }

  /** Every register the class lists and `live` reports available is in the free list. */
  lemma {:induction false} FreeInComplete<S, I>(b: Backend<S, I>, live: S, cls: seq<Reg>, j: nat)
    requires j < |cls| && b.available(live, cls[j])
    ensures b.convertToCapstoneReg(cls[j]) in FreeIn(b, live, cls)
    decreases |cls|
  {
    if j < |cls| - 1 {
      FreeInComplete(b, live, cls[..|cls| - 1], j);
    }
  }

  /** Every entry of the free list is a converted class register that `live` reports available. */
  lemma {:induction false} FreeInSound<S, I>(b: Backend<S, I>, live: S, cls: seq<Reg>, x: CsReg)
    requires x in FreeIn(b, live, cls)
    ensures exists j :: 0 <= j < |cls| && b.available(live, cls[j]) && b.convertToCapstoneReg(cls[j]) == x
    decreases |cls|
  {
    var init := cls[..|cls| - 1];
    if x in FreeIn(b, live, init) {
      FreeInSound(b, live, init, x);
      var j :| 0 <= j < |init| && b.available(live, init[j]) && b.convertToCapstoneReg(init[j]) == x;
      assert cls[j] == init[j];
    } else {
      assert b.available(live, cls[|cls| - 1]) && b.convertToCapstoneReg(cls[|cls| - 1]) == x;
    }
  }

  /** A free list never holds more entries than the class has registers. */
  lemma {:induction false} FreeInLength<S, I>(b: Backend<S, I>, live: S, cls: seq<Reg>)
    ensures |FreeIn(b, live, cls)| <= |cls|
    ensures |FreeIn(b, live, cls)| == |cls| <==> forall j :: 0 <= j < |cls| ==> b.available(live, cls[j])
    decreases |cls|
  {
    if cls != [] {
      var init := cls[..|cls| - 1];
      FreeInLength(b, live, init);
      assert forall j :: 0 <= j < |init| ==> init[j] == cls[j];
    }
  }

  // ---------------------------------------------------------------------------
  // Facts about the analysis

  /** What the analysis map binds each instruction of the block to, and that it binds nothing else. */
  lemma AnalysisLookup<S, I>(b: Backend<S, I>, mbb: Block<I>)
    requires Distinct(mbb.instrs)
    ensures NoEmptyLists(Analysis(b, mbb))
    ensures forall mi :: mi in Analysis(b, mbb) ==> mi in mbb.instrs
    ensures forall k :: 0 <= k < |mbb.instrs| ==> Lookup(Analysis(b, mbb), mbb.instrs[k]) == FreeBefore(b, mbb, k)
  {
    var m := Analysis(b, mbb);
    forall k | 0 <= k < |mbb.instrs|
      ensures Lookup(m, mbb.instrs[k]) == FreeBefore(b, mbb, k)
    {
      if mbb.instrs[k] in m {
        var k' :| 0 <= k' < |mbb.instrs| && FreeBefore(b, mbb, k') != [] && mbb.instrs[k'] == mbb.instrs[k];
        assert k' == k;
      }
    }
  }

  /** A map with no empty list that agrees with the free lists on the block, and has no other entry, is the analysis map. */
  lemma AnalysisCharacterized<S, I>(b: Backend<S, I>, mbb: Block<I>, m: map<I, seq<CsReg>>)
    requires Distinct(mbb.instrs)
    requires NoEmptyLists(m)
    requires forall mi :: mi in m ==> mi in mbb.instrs
    requires forall k :: 0 <= k < |mbb.instrs| ==> Lookup(m, mbb.instrs[k]) == FreeBefore(b, mbb, k)
    ensures m == Analysis(b, mbb)
  {
    var a := Analysis(b, mbb);
    AnalysisLookup(b, mbb);
    forall mi | mi in m || mi in a
      ensures mi in m && mi in a && m[mi] == a[mi]
    {
      var k :| 0 <= k < |mbb.instrs| && mbb.instrs[k] == mi;
      assert Lookup(m, mi) == Lookup(a, mi);
    }
    assert m.Keys == a.Keys;
  }

  /**
   The list of an instruction depends only on the instructions before it: a block
   that agrees on the seed state and on the first `k` instructions gets the same
   list at `k`, whatever its `k`-th instruction reads, writes or clobbers.
   */
  lemma FreeBeforeIgnoresOwnEffects<S, I>(b: Backend<S, I>, mbb: Block<I>, mbb': Block<I>, k: nat)
    requires k < |mbb.instrs| && k < |mbb'.instrs|
    requires b.addLiveIns(mbb) == b.addLiveIns(mbb')
    requires mbb.instrs[..k] == mbb'.instrs[..k]
    ensures FreeBefore(b, mbb, k) == FreeBefore(b, mbb', k)
  {
  }

  /** The list of the next instruction is taken from the state after stepping over this one. */
  lemma FreeBeforeNext<S, I>(b: Backend<S, I>, mbb: Block<I>, k: nat)
    requires k + 1 < |mbb.instrs|
    ensures FreeBefore(b, mbb, k + 1)
         == FreeIn(b, b.stepForward(StepOver(b, b.addLiveIns(mbb), mbb.instrs[..k]), mbb.instrs[k]), b.gr32)
  {
    assert mbb.instrs[..k + 1][..k] == mbb.instrs[..k];
  }

  /**
   A block of one instruction whose entry state leaves every class register available:
   the instruction's list is the whole class, converted, whatever the instruction does.
   */
  lemma OneInstructionAllAvailable<S, I>(b: Backend<S, I>, mbb: Block<I>, ra: Reg, rb: Reg, rc: Reg)
    requires |mbb.instrs| == 1
    requires b.gr32 == [ra, rb, rc]
    requires forall r :: r in b.gr32 ==> b.available(b.addLiveIns(mbb), r)
    ensures Analysis(b, mbb)
         == map[mbb.instrs[0] := [b.convertToCapstoneReg(ra), b.convertToCapstoneReg(rb), b.convertToCapstoneReg(rc)]]
  {
    var live := b.addLiveIns(mbb);
    var cv := b.convertToCapstoneReg;
    assert mbb.instrs[..0] == [];
    assert StepOver(b, live, mbb.instrs[..0]) == live;
    assert [ra, rb, rc][..2] == [ra, rb];
    assert [ra, rb][..1] == [ra];
    assert [ra][..0] == [];
    assert FreeIn(b, live, [ra]) == [cv(ra)];
    assert FreeIn(b, live, [ra, rb]) == [cv(ra), cv(rb)];
    assert FreeBefore(b, mbb, 0) == [cv(ra), cv(rb), cv(rc)];
    var m := map[mbb.instrs[0] := [b.convertToCapstoneReg(ra), b.convertToCapstoneReg(rb), b.convertToCapstoneReg(rc)]];
    AnalysisCharacterized(b, mbb, m);
  }

  // ---------------------------------------------------------------------------
  // The tracker

  class ScratchRegTracker<I(==), S> {
    /** The block analysed, held by reference in C++. */
    const mbb: Block<I>
    /** The LLVM and capstone facilities reached through the block's function. */
    const backend: Backend<S, I>
    /** For each instruction, the capstone registers recorded free before it, in recording order. */
    var regs: map<I, seq<CsReg>>

    /** Entries are created only with a register in them. */
    ghost predicate Valid()
      reads this
    {
      NoEmptyLists(regs)
    }

    /** Builds the tracker and runs the analysis over the whole block. */
    constructor (mbb: Block<I>, backend: Backend<S, I>)
      requires Distinct(mbb.instrs)
      ensures this.mbb == mbb && this.backend == backend
      ensures Valid()
      ensures regs == Analysis(backend, mbb)
    {
      this.mbb := mbb;
      this.backend := backend;
      regs := map[];
      new;
      PerformLivenessAnalysis();
      AnalysisCharacterized(backend, mbb, regs);
    }

    /** Appends `reg`, converted, to the list of `mi`, creating the list if `mi` has none. */
    method AddReg(mi: I, reg: Reg)
      modifies this
      ensures regs == old(regs)[mi := Lookup(old(regs), mi) + [backend.convertToCapstoneReg(reg)]]
    {
      if mi in regs {
        regs := regs[mi := regs[mi] + [backend.convertToCapstoneReg(reg)]];
      } else {
        var tmp := [backend.convertToCapstoneReg(reg)];
        assert Lookup(regs, mi) + tmp == tmp;
        regs := regs[mi := tmp];
      }
    }

    /** The list of `mi`, or nothing when `mi` has no entry or an empty one. */
    function FindRegs(mi: I): (r: Option<seq<CsReg>>)
      reads this
      ensures r.None? <==> (mi !in regs || regs[mi] == [])
      ensures r.Some? ==> mi in regs && r.value == regs[mi] && r.value != []
    {
      if mi in regs && |regs[mi]| > 0 then Some(regs[mi]) else None
    }

    /** The last register recorded for `mi`, or the invalid-register sentinel. */
    function GetReg(mi: I): (r: CsReg)
      reads this
      ensures FindRegs(mi).None? ==> r == X86_REG_INVALID
      ensures FindRegs(mi).Some? ==> r == regs[mi][|regs[mi]| - 1]
    {
      var tmp := FindRegs(mi);
      if tmp.Some? then tmp.value[|tmp.value| - 1] else X86_REG_INVALID
    }

    /** All registers recorded for `mi`: exactly what FindRegs answers. */
    function GetRegs(mi: I): (r: Option<seq<CsReg>>)
      reads this
      ensures r == FindRegs(mi)
      ensures r.Some? ==> r.value == Lookup(regs, mi)
    {
      var tmp := FindRegs(mi);
      if tmp.Some? then tmp else None
    }

    /** How many registers are recorded for `mi`. */
    function Count(mi: I): (r: int)
      reads this
      ensures r == |Lookup(regs, mi)|
      ensures r == 0 <==> FindRegs(mi).None?
    {
      var tmp := FindRegs(mi);
      if tmp.Some? then |tmp.value| else 0
    }


    /**
     The inner scan of the analysis: appends every GR32 register available in
     `liveRegs`, in class order, to the list of `mi`.
     */
    method RecordAvailable(mi: I, liveRegs: S)
      requires Valid()
      modifies this
      ensures Valid()
      ensures Lookup(regs, mi) == Lookup(old(regs), mi) + FreeIn(backend, liveRegs, backend.gr32)
      ensures forall other :: other != mi ==> Lookup(regs, other) == Lookup(old(regs), other)
    {
      var cls := backend.gr32;
      var j := 0;
      while j < |cls|
        invariant 0 <= j <= |cls|
        invariant Valid()
        invariant Lookup(regs, mi) == Lookup(old(regs), mi) + FreeIn(backend, liveRegs, cls[..j])
        invariant forall other :: other != mi ==> Lookup(regs, other) == Lookup(old(regs), other)
      {
        var reg := cls[j];
        if backend.available(liveRegs, reg) {
          AddReg(mi, reg);
        }
        assert cls[..j + 1][..j] == cls[..j];
        j := j + 1;
      }
      assert cls[..j] == cls;
    }

    /**
     Scans the block forward from its live-ins: before each instruction, appends
     every available GR32 register to that instruction's list, then steps the
     live state over the instruction.
     */
    method PerformLivenessAnalysis()
      requires Distinct(mbb.instrs)
      requires Valid()
      modifies this
      ensures Valid()
      ensures forall k :: 0 <= k < |mbb.instrs| ==>
        Lookup(regs, mbb.instrs[k]) == Lookup(old(regs), mbb.instrs[k]) + FreeBefore(backend, mbb, k)
      ensures forall mi :: mi !in mbb.instrs ==> Lookup(regs, mi) == Lookup(old(regs), mi)
    {
      var instrs := mbb.instrs;
      var liveRegs := backend.addLiveIns(mbb);
      var n := 0;
      while n < |instrs|
        invariant 0 <= n <= |instrs|
        invariant liveRegs == StepOver(backend, backend.addLiveIns(mbb), instrs[..n])
        invariant Valid()
        invariant forall k :: 0 <= k < n ==>
          Lookup(regs, instrs[k]) == Lookup(old(regs), instrs[k]) + FreeBefore(backend, mbb, k)
        invariant forall k :: n <= k < |instrs| ==> Lookup(regs, instrs[k]) == Lookup(old(regs), instrs[k])
        invariant forall mi :: mi !in instrs ==> Lookup(regs, mi) == Lookup(old(regs), mi)
      {
        var mi := instrs[n];
        ghost var before := regs;
        RecordAvailable(mi, liveRegs);
        assert Lookup(regs, mi) == Lookup(old(regs), mi) + FreeBefore(backend, mbb, n);
        forall k | 0 <= k < |instrs| && k != n
          ensures Lookup(regs, instrs[k]) == Lookup(before, instrs[k])
        {
          assert instrs[k] != mi;
        }
        liveRegs := backend.stepForward(liveRegs, mi);
        assert instrs[..n + 1][..n] == instrs[..n];
        n := n + 1;
      }
    }
  }

  // ---------------------------------------------------------------------------
  // Queries on a tracker after construction

  /**
   After the analysis, an instruction of the block has a list exactly when some
   register is free before it, and that list is its free list; an instruction
   outside the block has none.
   */
  lemma QueriesAfterAnalysis<I, S>(t: ScratchRegTracker<I, S>, k: nat, other: I)
    requires Distinct(t.mbb.instrs)
    requires t.regs == Analysis(t.backend, t.mbb)
    requires k < |t.mbb.instrs|
    requires other !in t.mbb.instrs
    ensures t.FindRegs(t.mbb.instrs[k]) == if FreeBefore(t.backend, t.mbb, k) == [] then None else Some(FreeBefore(t.backend, t.mbb, k))
    ensures t.Count(t.mbb.instrs[k]) == |FreeBefore(t.backend, t.mbb, k)|
    ensures t.FindRegs(other) == None && t.Count(other) == 0 && t.GetReg(other) == X86_REG_INVALID
  {
    AnalysisLookup(t.backend, t.mbb);
  }

  /**
   When no recorded register is capstone's invalid register, GetReg answers the
   sentinel exactly when Count is zero.
   */
  lemma GetRegInvalidIffCountZero<I, S>(t: ScratchRegTracker<I, S>, mi: I)
    requires forall x :: x in Lookup(t.regs, mi) ==> x != X86_REG_INVALID
    ensures t.GetReg(mi) == X86_REG_INVALID <==> t.Count(mi) == 0
  {
    if t.Count(mi) != 0 {
      var l := t.regs[mi];
      assert l[|l| - 1] in Lookup(t.regs, mi);
    }
  }

  /**
   Why GetRegInvalidIffCountZero needs its precondition: when the conversion maps
   the last class register to capstone's invalid register, a tracker holding three
   registers for an instruction still answers the sentinel from GetReg.
   */
  method SentinelDespiteRegisters() returns (reg: CsReg, count: int)
    ensures reg == X86_REG_INVALID && count == 3
  {
    var b: Backend<int, int> := Backend(
      (blk: Block<int>) => 0,
      (live: int, r: Reg) => true,
      (live: int, mi: int) => live,
      [1, 2, 3],
      (r: Reg) => if r == 3 then X86_REG_INVALID else r + 100);
    var mbb := Block(0, [7]);
    var t := new ScratchRegTracker(mbb, b);
    OneInstructionAllAvailable(b, mbb, 1, 2, 3);
    reg := t.GetReg(7);
    count := t.Count(7);
  }
}
