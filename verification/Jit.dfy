/**
 The JIT itself, step by step: the assembler buffer, the branch emitters, block discovery, code
 generation, the entry cache and the outer loop (src/cpu/jit/jit.cpp, jit_branch.cpp).
 */
module Jit {
  import opened Wrappers
  import opened Words
  import opened PowerPc
  import opened JitMachine
  import opened JitCompiler
  import opened JitSimulation

  /** The buffer of `PPCEmuAssembler` and the labels bound in it. */
  class Assembler {
    var ops: seq<Op>
    var bound: map<Label, nat>

    constructor ()
      ensures View() == Code([], map[])
    {
      ops, bound := [], map[];
    }

    function View(): Code
      reads this
    {
      Code(ops, bound)
    }

    method Emit(op: Op)
      modifies this
      ensures View() == Code(old(ops) + [op], old(bound))
    {
      ops := ops + [op];
    }

    method Bind(l: Label)
      modifies this
      ensures View() == Code(old(ops), old(bound)[l := |old(ops)|])
    {
      bound := bound[l := |ops|];
    }

    method EightNops()
      requires View() == Code([], map[])
      modifies this
      ensures View() == Code(seq(8, _ => Nop), map[])
    {
      var nops := 0;
      while nops < 8
        invariant 0 <= nops <= 8 && View() == Code(seq(nops, _ => Nop), map[])
      {
        Emit(Nop);
        nops := nops + 1;
      }
    }

    /** Jump to an in-block label, or leave with the next address in eax. */
    method Leave(nia: u32, labels: set<u32>)
      modifies this
      ensures View() == Code(old(ops) + LeaveOps(nia, labels), old(bound))
    {
      if nia in labels {
        Emit(Jmp(Target(nia)));
      } else {
        Emit(MovEaxImm(nia));
        Emit(JmpFinale);
      }
    }

    method JitB(instr: Instr, cia: u32, labels: set<u32>)
      requires instr.Branch? && instr.Valid()
      modifies this
      ensures View() == Code(old(ops) + BranchOps(instr, cia, labels), old(bound))
    {
      var nia := Displacement26(instr.li);
      if !instr.aa {
        nia := Add32(nia, cia);
      }
      if instr.lk {
        Emit(MovEaxImm(Add32(cia, 4)));
        Emit(MovLrEax);
        Emit(MovEaxImm(nia));
        Emit(JmpFinale);
      } else {
        Leave(nia, labels);
      }
    }

    method CtrCheck(form: Form, bo: bv5, cia: u32)
      requires form != ToCtr
      modifies this
      ensures View() == Code(old(ops) + CtrOps(form, bo, cia), old(bound))
    {
      if !BoBit(bo, NO_CHECK_CTR) {
        Emit(DecCtr);
        Emit(MovEaxCtr);
        Emit(CmpEaxZero);
        if BoBit(bo, CTR_VALUE) {
          Emit(Jne(CondFail(cia)));
        } else {
          Emit(Je(CondFail(cia)));
        }
      }
    }

    method CondCheck(bo: bv5, bi: nat, cia: u32)
      requires bi < 32
      modifies this
      ensures View() == Code(old(ops) + CondOps(bo, bi, cia), old(bound))
    {
      if !BoBit(bo, NO_CHECK_COND) {
        Emit(MovEaxCr);
        Emit(AndEaxBit(31 - bi));
        Emit(CmpEaxZero);
        if BoBit(bo, COND_VALUE) {
          Emit(Je(CondFail(cia)));
        } else {
          Emit(Jne(CondFail(cia)));
        }
      }
    }

    method Link(lk: bool, cia: u32)
      modifies this
      ensures View() == Code(old(ops) + LinkOps(lk, cia), old(bound))
    {
      if lk {
        Emit(MovEaxImm(Add32(cia, 4)));
        Emit(MovLrEax);
      }
    }

    /** The jump itself, behind the checks and the link. */
    method Go(flags: BcFlags, instr: Instr, cia: u32, labels: set<u32>)
      requires instr.BranchCond? && instr.Valid() && flags == FlagsOf(instr.form)
      modifies this
      ensures View() == Code(old(ops) + GoOps(instr, cia, labels), old(bound))
    {
      if flags.branchCtr {
        Emit(MovEaxCtr);
        Emit(AndEaxClear2);
        Emit(JmpFinale);
      } else if flags.branchLr {
        Emit(MovEaxLr);
        Emit(AndEaxClear2);
        Emit(JmpFinale);
      } else {
        Leave(Add32(cia, Displacement16(instr.bd)), labels);
      }
    }

    method BcGeneric(flags: BcFlags, instr: Instr, cia: u32, labels: set<u32>)
      requires instr.BranchCond? && instr.Valid() && flags == FlagsOf(instr.form)
      modifies this
      ensures View() == Code(old(ops) + BranchCondOps(instr, cia, labels),
                             old(bound)[CondFail(cia) := |old(ops)| + |BranchCondOps(instr, cia, labels)|])
    {
      hide CondOps, LinkOps, GoOps;
      ghost var start := ops;
      if flags.checkCtr {
        CtrCheck(instr.form, instr.bo, cia);
      }
      ghost var a := CtrOps(instr.form, instr.bo, cia);
      assert ops == start + a;
      if flags.checkCond {
        CondCheck(instr.bo, instr.bi, cia);
      }
      ghost var b := a + CondOps(instr.bo, instr.bi, cia);
      assert ops == start + b;
      Link(instr.lk, cia);
      ghost var c := b + LinkOps(instr.lk, cia);
      assert ops == start + c;
      Go(flags, instr, cia, labels);
      assert ops == start + (c + GoOps(instr, cia, labels));
      Bind(CondFail(cia));
    }

    /** One round of the generator loop; false when the instruction has no code. */
    method GenInstr<R>(img: Image<R>, instr: Instr, cia: u32, labels: set<u32>) returns (ok: bool)
      requires instr.Valid() && !instr.Undecodable?
      modifies this
      ensures ok == (instr.Plain? ==> img.known(instr.word) && img.emits(instr.word))
      ensures ok ==> View() == EmitOne(old(View()), instr, cia, labels)
    {
      if cia in labels {
        Bind(Target(cia));
      }
      Emit(MovCia(cia));
      match instr {
        case Branch(_, _, _) =>
          JitB(instr, cia, labels);
          ok := true;
        case BranchCond(form, _, _, _, _, _) =>
          BcGeneric(FlagsOf(form), instr, cia, labels);
          ok := true;
        case Plain(w) =>
          ok := img.known(w) && img.emits(w);
          if ok {
            Emit(Native(w));
          }
      }
      if ok {
        Emit(Nop);
      }
    }
  }

  /** `JitBlock`: a null target has no code yet. */
  class JitBlock {
    const start: u32
    var end: u32
    var entry: Option<Entry>
    var targets: map<u32, Option<Entry>>

    constructor (start: u32)
      ensures this.start == start && end == start && entry == None && targets == map[]
    {
      this.start, end, entry, targets := start, start, None, map[];
    }
  }

  /** Code generation does not look behind the instructions it has emitted. */
  lemma {:induction false} EmitToAnyEnd<R>(img: Image<R>, start: u32, end: u32, end': u32, labels: set<u32>, i: nat)
    requires img.Valid() && Emittable(img, start, end) && Emittable(img, start, end')
    requires start + 4 * i <= end && start + 4 * i <= end'
    ensures EmitTo(img, start, end, labels, i) == EmitTo(img, start, end', labels, i)
  {
    if i > 0 {
      EmitToAnyEnd(img, start, end, end', labels, i - 1);
    }
  }

  /** The scanned range has a code for every instruction, as far as `end`. */
  lemma EmittableExtends<R>(img: Image<R>, start: u32, a: u32)
    requires img.Valid() && Emittable(img, start, a) && a + 4 < TWO_32 && Emits(img, img.at(a))
    ensures Emittable(img, start, a + 4)
  {
    forall b: u32 | start <= b < a + 4 && b % 4 == 0 ensures Emits(img, img.at(b)) {
      assert b < a || b == a;
    }
  }

  lemma EmitToNext<R>(img: Image<R>, start: u32, a: u32, labels: set<u32>)
    requires img.Valid() && start <= a && start % 4 == 0 && a % 4 == 0 && a + 4 < TWO_32
    requires Emittable(img, start, a) && Emits(img, img.at(a))
    ensures Emittable(img, start, a + 4)
    ensures EmitTo(img, start, a + 4, labels, (a + 4 - start) / 4)
      == EmitOne(EmitTo(img, start, a, labels, (a - start) / 4), img.at(a), a, labels)
  {
    hide EmitOne, Emits;
    EmittableExtends(img, start, a);
    EmitToAnyEnd(img, start, a, a + 4, labels, (a - start) / 4);
    assert (a + 4 - start) / 4 == (a - start) / 4 + 1;
    assert start + 4 * ((a - start) / 4) == a;
  }

  lemma GenStarts<R>(img: Image<R>, start: u32, labels: set<u32>)
    requires img.Valid() && start % 4 == 0
    ensures Emittable(img, start, start) && EmitTo(img, start, start, labels, 0) == Code(seq(8, _ => Nop), map[])
  {}

  lemma ScannedAt<R>(img: Image<R>, start: u32, end: u32, a: u32)
    requires Scanned(img, start, end) && start <= a < end && a % 4 == 0
    ensures !img.at(a).Undecodable?
    ensures Emits(img, img.at(a)) <==> (img.at(a).Plain? ==> img.known(img.at(a).word) && img.emits(img.at(a).word))
  {}

  /** One failing instruction makes the whole range fail. */
  lemma NotEmittable<R>(img: Image<R>, start: u32, a: u32, end: u32)
    requires start % 4 == 0 && end % 4 == 0 && start <= a < end && a % 4 == 0 && !Emits(img, img.at(a))
    ensures !AllEmit(img, start, end)
  {
    AllEmitIsEmittable(img, start, end);
  }

  class Compiler<R> {
    const img: Image<R>
    var blocks: Cache     // sBlocks

    constructor (img: Image<R>)
      ensures this.img == img && blocks == map[]
    {
      this.img, blocks := img, map[];
    }

    ghost predicate Valid()
    {
      img.Valid() && NoWrap(img)
    }

    /** One round of the scan: the jump targets and the furthest local target seen so far. */
    method ScanInstr(instr: Instr, lclCia: u32, fnMax: u32, jumpTargets: set<u32>)
      returns (fnMax': u32, jumpTargets': set<u32>)
      requires instr.Valid()
      ensures fnMax' == ScanMax(instr, lclCia, fnMax)
      ensures jumpTargets' == jumpTargets + ScanTargets(instr, lclCia)
    {
      fnMax', jumpTargets' := fnMax, jumpTargets;
      if (instr.Branch? || instr.BranchCond?) && instr.lk {
        jumpTargets' := jumpTargets + {Add32(lclCia, 4)};
      } else if LocalBranch(instr) {
        var nia := DirectTarget(instr, lclCia);
        jumpTargets' := jumpTargets + {nia};
        if nia > fnMax {
          fnMax' := nia;
        }
      }
    }

    /** The scan loop of `identBlock`. */
    method Scan(fnStart: u32) returns (jitFailed: bool, fnEnd: u32, jumpTargets: set<u32>)
      requires Valid()
      ensures IdentSpec(img, fnStart) == if jitFailed then None else Some(Ident(fnEnd, jumpTargets))
    {
      hide ScanMax, ScanTargets, UnconditionalReturn, CanScan;
      var fnMax := fnStart;
      var lclCia := fnStart;
      var scanned := 0;
      fnEnd, jitFailed, jumpTargets := fnStart, false, {};
      while lclCia != 0
        invariant 0 <= scanned <= JIT_MAX_INST && lclCia == AddrAt(fnStart, scanned)
        invariant !jitFailed && fnEnd == fnStart
        invariant IdentSpec(img, fnStart) == IdentFrom(img, fnStart, scanned, fnMax, jumpTargets)
        decreases JIT_MAX_INST - scanned
      {
        var instr := img.at(lclCia);
        if !CanScan(img, instr) {
          return true, fnStart, {};
        }
        IdentFromNext(img, fnStart, scanned, fnMax, jumpTargets);
        AddrAtNext(fnStart, scanned);
        var max;
        max, jumpTargets := ScanInstr(instr, lclCia, fnMax, jumpTargets);
        if UnconditionalReturn(instr) && lclCia > fnMax {
          fnEnd := Add32(lclCia, 4);
        }
        if fnEnd != fnStart {
          break;
        }
        fnMax := max;
        lclCia := Add32(lclCia, 4);
        scanned := scanned + 1;
        if scanned > JIT_MAX_INST {
          return true, fnStart, {};
        }
      }
    }

    method IdentBlock(block: JitBlock) returns (ok: bool)
      requires Valid() && block.start % 4 == 0 && block.targets == map[]
      modifies block
      ensures block.entry == old(block.entry)
      ensures ok <==> IdentSpec(img, block.start).Some?
      ensures ok ==> IdentSpec(img, block.start) == Some(Ident(block.end, block.targets.Keys))
      ensures ok ==> forall t :: t in block.targets ==> block.targets[t] == None
    {
      hide IdentSpec;
      var jitFailed, fnEnd, jumpTargets := Scan(block.start);
      if jitFailed {
        return false;
      }
      block.end := fnEnd;
      block.targets := map t | t in jumpTargets :: None;
      assert block.targets.Keys == jumpTargets;
      return true;
    }

    /** The generator loop. */
    method GenBody(a: Assembler, start: u32, end: u32, labels: set<u32>) returns (ok: bool)
      requires Valid() && start % 4 == 0 && end % 4 == 0 && start <= end && Scanned(img, start, end)
      requires a.View() == Code(seq(8, _ => Nop), map[])
      modifies a
      ensures ok == AllEmit(img, start, end)
      ensures ok ==> Emittable(img, start, end) && a.View() == EmitTo(img, start, end, labels, (end - start) / 4)
    {
      hide EmitOne, EmitTo, AllEmit, Emittable, Scanned, Emits;
      GenStarts(img, start, labels);
      var lclCia := start;
      while lclCia < end
        invariant start <= lclCia <= end && lclCia % 4 == 0
        invariant Emittable(img, start, lclCia)
        invariant a.View() == EmitTo(img, start, lclCia, labels, (lclCia - start) / 4)
      {
        NextFits(lclCia, end);
        ScannedAt(img, start, end, lclCia);
        var instr := img.at(lclCia);
        ok := a.GenInstr(img, instr, lclCia, labels);
        if !ok {
          NotEmittable(img, start, lclCia, end);
          return false;
        }
        EmitToNext(img, start, lclCia, labels);
        lclCia := lclCia + 4;
      }
      AllEmitIsEmittable(img, start, end);
      return true;
    }

    method Gen(block: JitBlock) returns (ok: bool)
      requires Valid() && block.start % 4 == 0 && block.end % 4 == 0 && block.start <= block.end
      requires Scanned(img, block.start, block.end)
      modifies block
      ensures block.end == old(block.end) && ok == AllEmit(img, block.start, block.end)
      ensures ok ==> Emittable(img, block.start, block.end)
      ensures ok ==> (
        var labels := set t | t in old(block.targets) && block.start <= t < block.end;
        var code := GenSpec(img, block.start, block.end, labels);
        && block.entry == Some(Entry(code, 8))
        && block.targets == old(block.targets) + BlockEntries(block.start, labels, code))
    {
      hide AllEmit, Emittable, EmitTo, Scanned;
      var labels := set t | t in block.targets && block.start <= t < block.end;
      var a := new Assembler();
      a.EightNops();
      var codeStart := |a.ops|;
      ok := GenBody(a, block.start, block.end, labels);
      if !ok {
        return false;
      }
      a.Emit(MovEaxImm(block.end));
      a.Emit(JmpFinale);
      assert a.View() == GenSpec(img, block.start, block.end, labels);
      block.entry := Some(Entry(a.View(), codeStart));
      block.targets := block.targets + (map t | t in labels && Target(t) in a.bound :: Some(Entry(a.View(), a.bound[Target(t)])));
      return true;
    }

    /** Discovers and generates the function at an address; `filled` are its labels' entries. */
    method Build(addr: u32) returns (entry: Option<Entry>, filled: Cache)
      requires Valid() && addr % 4 == 0
      ensures entry == None <==> CompileSpec(img, addr) == None
      ensures entry.Some? ==> (
        var (labels, code) := CompileSpec(img, addr).value;
        entry == Some(Entry(code, 8)) && filled == BlockEntries(addr, labels, code))
    {
      hide IdentSpec, AllEmit, GenSpec, BlockEntries, CompileSpec;
      BuildCases(img, addr);
      filled := map[];
      var block := new JitBlock(addr);
      var ok := IdentBlock(block);
      if !ok {
        return None, filled;
      }
      ghost var targets := block.targets;
      IdentRange(img, addr);
      RangeIsScanned(img, addr);
      ok := Gen(block);
      if !ok {
        return None, filled;
      }
      ghost var labels := set t | t in targets && addr <= t < block.end;
      assert labels == LabelsOf(addr, IdentSpec(img, addr).value);
      EntriesFilled(addr, labels, block.entry.value.code);
      CachedTargets(targets, block.targets, BlockEntries(addr, labels, block.entry.value.code));
      filled := map t | t in block.targets && block.targets[t].Some? :: block.targets[t];
      return block.entry, filled;
    }

    method Get(addr: u32) returns (entry: Option<Entry>)
      requires Valid() && addr % 4 == 0
      modifies this
      ensures (blocks, entry) == GetSpec(img, old(blocks), addr)
    {
      hide CompileSpec, BlockEntries;
      if addr in blocks {
        return blocks[addr];
      }
      // a failed attempt is remembered
      blocks := blocks[addr := None];
      var filled;
      entry, filled := Build(addr);
      if entry.Some? {
        blocks := blocks[addr := entry];
        assert blocks == old(blocks)[addr := entry];
        blocks := blocks + filled;
      }
    }
  }

  /** What `CompileSpec` is, in terms of block discovery and code generation. */
  lemma BuildCases<R>(img: Image<R>, addr: u32)
    requires img.Valid() && NoWrap(img) && addr % 4 == 0
    ensures IdentSpec(img, addr) == None ==> CompileSpec(img, addr) == None
    ensures IdentSpec(img, addr).Some? ==> (
      var id := IdentSpec(img, addr).value;
      && (!AllEmit(img, addr, id.end) ==> CompileSpec(img, addr) == None)
      && (AllEmit(img, addr, id.end) && Emittable(img, addr, id.end) ==>
            CompileSpec(img, addr) == Some((LabelsOf(addr, id), GenSpec(img, addr, id.end, LabelsOf(addr, id))))))
  {
    hide IdentSpec, AllEmit, Emittable, GenSpec;
  }

  lemma EntriesFilled(addr: u32, labels: set<u32>, code: Code)
    ensures forall t :: t in BlockEntries(addr, labels, code) ==> BlockEntries(addr, labels, code)[t].Some?
  {}

  /** The targets worth caching are the ones code generation filled in. */
  lemma CachedTargets(empty: map<u32, Option<Entry>>, filled: map<u32, Option<Entry>>, entries: Cache)
    requires filled == empty + entries && forall t :: t in empty ==> empty[t] == None
    requires forall t :: t in entries ==> entries[t].Some?
    ensures (map t | t in filled && filled[t].Some? :: filled[t]) == entries
  {
    assert forall t :: t in filled && filled[t].Some? ==> t in entries;
  }

  lemma RangeIsScanned<R>(img: Image<R>, addr: u32)
    requires img.Valid() && NoWrap(img) && addr % 4 == 0 && IdentSpec(img, addr).Some?
    ensures Scanned(img, addr, IdentSpec(img, addr).value.end)
  {
    if addr > 0 {
      IdentClosed(img, addr);
    }
  }

  datatype Result = Finished | AssertionFailed | OutOfFuel

  /** Runs generated code for at most `fuel` host operations; `used` says how many. */
  method RunHost<R>(img: Image<R>, code: Code, h: Host<R>, ghost cache: Cache, fuel: nat)
    returns (h': Host<R>, used: nat)
    requires img.Valid() && NoWrap(img)
    ensures used <= fuel && (h'.Go? ==> used == fuel)
    ensures JitRun(img, used, Inner(code, h, cache)) == Inner(code, h', cache)
  {
    h', used := h, 0;
    while h'.Go? && used < fuel
      invariant used <= fuel
      invariant JitRun(img, used, Inner(code, h, cache)) == Inner(code, h', cache)
    {
      JitRunNext(img, used, Inner(code, h, cache));
      h' := HostStep(img, code, h');
      used := used + 1;
    }
  }

  /**
   The outer loop, cut off after `fuel` machine steps (one step enters or leaves generated code or
   runs one host operation).
   */
  method Execute<R>(jit: Compiler<R>, state: ThreadState<R>, fuel: nat) returns (r: Result, ghost n: nat)
    requires jit.Valid() && state.nia % 4 == 0 && jit as object != state
    modifies jit, state
    ensures r == Finished ==> state.nia == CALLBACK_ADDR
    ensures r == Finished ==> JitRun(jit.img, n, Outer(old(state.View()), old(jit.blocks))) == Outer(state.View(), jit.blocks)
    ensures r == AssertionFailed ==> JitRun(jit.img, n, Outer(old(state.View()), old(jit.blocks))) == Failed
    ensures r == OutOfFuel ==> n >= fuel && !JitRun(jit.img, n, Outer(old(state.View()), old(jit.blocks))).Failed?
  {
    hide JitRun, GetSpec, HostStep;
    ghost var start := Outer(old(state.View()), old(jit.blocks));
    n := 0;
    var left := fuel;
    JitRunNone(jit.img, start);
    while state.nia != CALLBACK_ADDR
      invariant n + left >= fuel
      invariant JitRun(jit.img, n, start) == Outer(state.View(), jit.blocks)
      decreases left
    {
      if left == 0 {
        return OutOfFuel, n;
      }
      JitRunNext(jit.img, n, start);
      if state.nia % 4 != 0 {
        return AssertionFailed, n + 1;
      }
      var entry := jit.Get(state.nia);
      if entry == None {
        return AssertionFailed, n + 1;
      }
      var code := entry.value.code;
      var h0 := Host.Go(state.Registers(), 0, false, entry.value.pc);
      var h, used := RunHost(jit.img, code, h0, jit.blocks, left - 1);
      JitRunSplit(jit.img, n + 1, used, start);
      n, left := n + 1 + used, left - 1 - used;
      JitRunNext(jit.img, n, start);
      match h {
        case Go(_, _, _, _) =>
          return OutOfFuel, n;
        case Fault =>
          return AssertionFailed, n + 1;
        case Exit(core, nia) =>
          n := n + 1;
          state.regs, state.lr, state.ctr, state.cr := core.regs, core.lr, core.ctr, core.cr;
          state.cia, state.nia := 0, nia;
      }
    }
    return Finished, n;
  }

  /** Running a guest function through the JIT gives a result of the interpreter; LR is put back. */
  method ExecuteSub<R>(jit: Compiler<R>, state: ThreadState<R>, fuel: nat) returns (r: Result, ghost result: Core<R>)
    requires jit.Valid() && state.nia % 4 == 0 && jit as object != state
    requires Sane(jit.img) && CacheOk(jit.img, jit.blocks)
    modifies jit, state
    ensures r == Finished ==> state.Registers() == result.(lr := old(state.lr))
    ensures r == Finished ==>
      InterpHalts(jit.img, Cpu(old(state.Registers()).(lr := CALLBACK_ADDR), old(state.nia)), result)
  {
    var saved := state.lr;
    state.lr := CALLBACK_ADDR;
    ghost var before := state.View();
    ghost var cache := jit.blocks;
    ghost var n;
    r, n := Execute(jit, state, fuel);
    result := state.Registers();
    if r == Finished {
      assert Done(JitRun(jit.img, n, Outer(before, cache)), result);
      JitSimulatesInterpreter(jit.img, Outer(before, cache), before, result);
    }
    state.lr := saved;
  }

  lemma JitRunNone<R>(img: Image<R>, c: Config<R>)
    requires img.Valid() && NoWrap(img)
    ensures JitRun(img, 0, c) == c
  {}

  lemma JitRunNext<R>(img: Image<R>, n: nat, c: Config<R>)
    requires img.Valid() && NoWrap(img)
    ensures JitRun(img, n + 1, c) == JitStep(img, JitRun(img, n, c))
  {
    JitRunSplit(img, n, 1, c);
    assert JitRun(img, 1, JitRun(img, n, c)) == JitRun(img, 0, JitStep(img, JitRun(img, n, c)));
  }
}
