/**
 The host code the JIT emits, reduced to the operations its branch generator uses, and the meaning
 of that code (src/cpu/jit/jit_internal.h, the emission calls of jit.cpp and jit_branch.cpp).
 */
module JitMachine {
  import opened Wrappers
  import opened Words
  import opened PowerPc

  /** asmjit labels: one per in-block jump target, and one fresh `doCondFailLbl` per branch. */
  datatype Label = Target(addr: u32) | CondFail(cia: u32)

  datatype Op =
    | Nop
    | MovCia(v: u32)        // a.mov(a.cia, v)
    | MovEaxImm(v: u32)
    | MovEaxLr
    | MovEaxCtr
    | MovEaxCr
    | MovLrEax
    | DecCtr
    | AndEaxBit(k: nat)     // a.and_(a.eax, 1 << k)
    | AndEaxClear2          // a.and_(a.eax, ~3)
    | CmpEaxZero
    | Je(l: Label)
    | Jne(l: Label)
    | Jmp(l: Label)
    | JmpFinale             // leave the generated code; eax is the next guest address
    | Native(word: u32)     // the host code of one non-branch instruction

  datatype Code = Code(ops: seq<Op>, bound: map<Label, nat>)

  /** Host state inside generated code, or having left it, or a jump to an unbound label. */
  datatype Host<R> =
    | Go(core: Core<R>, eax: u32, zf: bool, pc: nat)
    | Exit(core: Core<R>, nia: u32)
    | Fault

  function JumpTo<R>(code: Code, h: Host<R>, l: Label): Host<R>
    requires h.Go?
  {
    if l in code.bound then h.(pc := code.bound[l]) else Fault
  }

  function HostStep<R>(img: Image<R>, code: Code, h: Host<R>): Host<R>
  {
    if !h.Go? then h
    else if h.pc >= |code.ops| then Fault
    else
      var next := h.(pc := h.pc + 1);
      match code.ops[h.pc]
      case Nop => next
      case MovCia(_) => next
      case MovEaxImm(v) => next.(eax := v)
      case MovEaxLr => next.(eax := h.core.lr)
      case MovEaxCtr => next.(eax := h.core.ctr)
      case MovEaxCr => next.(eax := h.core.cr)
      case MovLrEax => Go(h.core.(lr := h.eax), h.eax, h.zf, h.pc + 1)
      case DecCtr => Go(h.core.(ctr := Decrement(h.core.ctr)), h.eax, h.zf, h.pc + 1)
      case AndEaxBit(k) => next.(eax := if Bit(h.eax, k) == 1 && Pow2(k) < TWO_32 then Pow2(k) else 0)
      case AndEaxClear2 => next.(eax := ClearLow2(h.eax))
      case CmpEaxZero => next.(zf := h.eax == 0)
      case Je(l) => if h.zf then JumpTo(code, h, l) else next
      case Jne(l) => if h.zf then next else JumpTo(code, h, l)
      case Jmp(l) => JumpTo(code, h, l)
      case JmpFinale => Exit(h.core, h.eax)
      case Native(w) =>
        var (eax, zf) := img.scratch(w, h.core);
        Go(img.step(w, h.core), eax, zf, h.pc + 1)
  }

  /** Exactly `k` host operations lead from `h` to `h'`, without leaving the code before that. */
  ghost predicate Steps<R>(img: Image<R>, code: Code, h: Host<R>, k: nat, h': Host<R>)
    decreases k
  {
    if k == 0 then h == h'
    else h.Go? && Steps(img, code, HostStep(img, code, h), k - 1, h')
  }

  lemma {:induction false} StepsJoin<R>(img: Image<R>, code: Code, h: Host<R>, k: nat, h': Host<R>, k': nat, h'': Host<R>)
    requires Steps(img, code, h, k, h') && Steps(img, code, h', k', h'')
    ensures Steps(img, code, h, k + k', h'')
    decreases k
  {
    if k > 0 {
      StepsJoin(img, code, HostStep(img, code, h), k - 1, h', k', h'');
    }
  }

  // ---------------------------------------------------------------- branch fragments

  /** What `jit_b` appends; `labels` are the block's jump labels. */
  function BranchOps(i: Instr, cia: u32, labels: set<u32>): seq<Op>
    requires i.Branch? && i.Valid()
  {
    var nia := BranchTarget(i.li, i.aa, cia);
    if i.lk then [MovEaxImm(Add32(cia, 4)), MovLrEax, MovEaxImm(nia), JmpFinale]
    else LeaveOps(nia, labels)
  }

  /** Jump to an in-block label if there is one, otherwise leave with the address in eax. */
  function LeaveOps(nia: u32, labels: set<u32>): seq<Op> {
    if nia in labels then [Jmp(Target(nia))] else [MovEaxImm(nia), JmpFinale]
  }

  function CtrOps(form: Form, bo: bv5, cia: u32): seq<Op> {
    if !ChecksCtr(form, bo) then []
    else [DecCtr, MovEaxCtr, CmpEaxZero,
          if BoBit(bo, CTR_VALUE) then Jne(CondFail(cia)) else Je(CondFail(cia))]
  }

  function CondOps(bo: bv5, bi: nat, cia: u32): seq<Op>
    requires bi < 32
  {
    if BoBit(bo, NO_CHECK_COND) then []
    else [MovEaxCr, AndEaxBit(31 - bi), CmpEaxZero,
          if BoBit(bo, COND_VALUE) then Je(CondFail(cia)) else Jne(CondFail(cia))]
  }

  function LinkOps(lk: bool, cia: u32): seq<Op> {
    if lk then [MovEaxImm(Add32(cia, 4)), MovLrEax] else []
  }

  function GoOps(i: Instr, cia: u32, labels: set<u32>): seq<Op>
    requires i.BranchCond? && i.Valid()
  {
    match i.form
    case ToCtr => [MovEaxCtr, AndEaxClear2, JmpFinale]
    case ToLr => [MovEaxLr, AndEaxClear2, JmpFinale]
    case ToDisplacement => LeaveOps(Add32(cia, Displacement16(i.bd)), labels)
  }

  /** What `bcGeneric` appends; CondFail(cia) is bound right after it. */
  function BranchCondOps(i: Instr, cia: u32, labels: set<u32>): seq<Op>
    requires i.BranchCond? && i.Valid()
  {
    CtrOps(i.form, i.bo, cia) + CondOps(i.bo, i.bi, cia) + LinkOps(i.lk, cia) + GoOps(i, cia, labels)
  }

  function InstrOps(i: Instr, cia: u32, labels: set<u32>): seq<Op>
    requires i.Valid() && !i.Undecodable?
  {
    match i
    case Branch(_, _, _) => BranchOps(i, cia, labels)
    case BranchCond(_, _, _, _, _, _) => BranchCondOps(i, cia, labels)
    case Plain(w) => [Native(w)]
  }

  // ---------------------------------------------------------------- meaning of a fragment

  /** What the compiled form of an instruction computes: the new registers and the next address. */
  function Compiled<R>(img: Image<R>, i: Instr, cia: u32, c: Core<R>): Cpu<R>
    requires i.Valid() && !i.Undecodable?
  {
    var next := Add32(cia, 4);
    match i
    case Plain(w) => Cpu(img.step(w, c), next)
    case Branch(li, aa, lk) => Cpu(if lk then c.(lr := next) else c, BranchTarget(li, aa, cia))
    case BranchCond(form, bo, bi, bd, _, lk) =>
      var c1 := c.(ctr := CtrAfter(form, bo, c.ctr));
      if !Taken(i, c) then Cpu(c1, next)
      else AfterTaken(i, cia, c1)
  }

  /** A taken branch once its CTR check is done: link first, then read the target. */
  function AfterTaken<R>(i: Instr, cia: u32, c: Core<R>): Cpu<R>
    requires i.BranchCond? && i.Valid()
  {
    var linked := if i.lk then c.(lr := Add32(cia, 4)) else c;
    Cpu(linked, match i.form
                case ToCtr => ClearLow2(linked.ctr)
                case ToLr => ClearLow2(linked.lr)
                case ToDisplacement => Add32(cia, Displacement16(i.bd)))
  }

  /** `ops` sits in the code at position `p`. */
  ghost predicate At(code: Code, p: nat, ops: seq<Op>) {
    p + |ops| <= |code.ops| && code.ops[p..p + |ops|] == ops
  }

  lemma AtSplit(code: Code, p: nat, a: seq<Op>, b: seq<Op>)
    requires At(code, p, a + b)
    ensures At(code, p, a) && At(code, p + |a|, b)
  {
    assert code.ops[p..p + |a|] == (a + b)[..|a|] == a;
    assert code.ops[p + |a|..p + |a| + |b|] == (a + b)[|a|..] == b;
  }

  lemma AtIndex(code: Code, p: nat, ops: seq<Op>, k: nat)
    requires At(code, p, ops) && k < |ops|
    ensures p + k < |code.ops| && code.ops[p + k] == ops[k]
  {
    assert code.ops[p..p + |ops|][k] == ops[k];
  }

  /** Control has left the fragment at the place the next guest address says. */
  ghost predicate Landed<R>(code: Code, labels: set<u32>, h: Host<R>, s: Cpu<R>) {
    || h == Exit(s.core, s.nia)
    || (&& h.Go? && h.core == s.core && s.nia in labels
        && Target(s.nia) in code.bound && h.pc == code.bound[Target(s.nia)])
  }

  /** Four straight operations that end in a conditional jump. */
  lemma FourSteps<R>(img: Image<R>, code: Code, h: Host<R>, h1: Host<R>, h2: Host<R>, h3: Host<R>, h4: Host<R>)
    requires h.Go? && h1.Go? && h2.Go? && h3.Go?
    requires HostStep(img, code, h) == h1 && HostStep(img, code, h1) == h2
    requires HostStep(img, code, h2) == h3 && HostStep(img, code, h3) == h4
    ensures Steps(img, code, h, 4, h4)
  {
    assert Steps(img, code, h4, 0, h4);
    assert Steps(img, code, h3, 1, h4);
    assert Steps(img, code, h2, 2, h4);
    assert Steps(img, code, h1, 3, h4);
  }

  lemma TwoSteps<R>(img: Image<R>, code: Code, h: Host<R>, h1: Host<R>, h2: Host<R>)
    requires h.Go? && h1.Go?
    requires HostStep(img, code, h) == h1 && HostStep(img, code, h1) == h2
    ensures Steps(img, code, h, 2, h2)
  {
    assert Steps(img, code, h2, 0, h2);
    assert Steps(img, code, h1, 1, h2);
  }

  lemma ThreeSteps<R>(img: Image<R>, code: Code, h: Host<R>, h1: Host<R>, h2: Host<R>, h3: Host<R>)
    requires h.Go? && h1.Go? && h2.Go?
    requires HostStep(img, code, h) == h1 && HostStep(img, code, h1) == h2 && HostStep(img, code, h2) == h3
    ensures Steps(img, code, h, 3, h3)
  {
    TwoSteps(img, code, h1, h2, h3);
  }

  /** Runs the CTR test: falls through to the next operation, or goes to the fail label. */
  lemma RunCtr<R>(img: Image<R>, code: Code, form: Form, bo: bv5, cia: u32, h: Host<R>) returns (k: nat, h': Host<R>)
    requires h.Go? && At(code, h.pc, CtrOps(form, bo, cia)) && CondFail(cia) in code.bound
    ensures Steps(img, code, h, k, h') && h'.Go?
    ensures h'.core == h.core.(ctr := CtrAfter(form, bo, h.core.ctr))
    ensures h'.pc == if CtrOk(form, bo, h.core.ctr) then h.pc + |CtrOps(form, bo, cia)| else code.bound[CondFail(cia)]
  {
    if !ChecksCtr(form, bo) {
      k, h' := 0, h;
    } else {
      var ops := CtrOps(form, bo, cia);
      AtIndex(code, h.pc, ops, 0);
      AtIndex(code, h.pc, ops, 1);
      AtIndex(code, h.pc, ops, 2);
      AtIndex(code, h.pc, ops, 3);
      var h1 := HostStep(img, code, h);
      var h2 := HostStep(img, code, h1);
      var h3 := HostStep(img, code, h2);
      h' := HostStep(img, code, h3);
      FourSteps(img, code, h, h1, h2, h3, h');
      k := 4;
    }
  }

  lemma Pow2Small(k: nat)
    requires k < 32
    ensures Pow2(k) < TWO_32
  {
    assert Pow2(31) < TWO_32 by { Pow2Values(); }
    Pow2Monotone(k, 31);
  }

  lemma Pow2Values()
    ensures Pow2(8) == 0x100 && Pow2(16) == 0x1_0000 && Pow2(31) == 0x8000_0000
  {
    assert Pow2(4) == 16;
    assert Pow2(8) == 0x100;
    assert Pow2(12) == 0x1000;
    assert Pow2(16) == 0x1_0000;
    assert Pow2(20) == 0x10_0000;
    assert Pow2(24) == 0x100_0000;
    assert Pow2(28) == 0x1000_0000;
  }

  lemma {:induction false} Pow2Monotone(j: nat, k: nat)
    requires j <= k
    ensures Pow2(j) <= Pow2(k)
    decreases k
  {
    if j < k {
      Pow2Monotone(j, k - 1);
    }
  }

  /** Runs the condition test. */
  lemma RunCond<R>(img: Image<R>, code: Code, bo: bv5, bi: nat, cia: u32, h: Host<R>) returns (k: nat, h': Host<R>)
    requires bi < 32 && h.Go? && At(code, h.pc, CondOps(bo, bi, cia)) && CondFail(cia) in code.bound
    ensures Steps(img, code, h, k, h') && h'.Go? && h'.core == h.core
    ensures h'.pc == if CondOk(bo, bi, h.core.cr) then h.pc + |CondOps(bo, bi, cia)| else code.bound[CondFail(cia)]
  {
    if BoBit(bo, NO_CHECK_COND) {
      k, h' := 0, h;
    } else {
      var ops := CondOps(bo, bi, cia);
      AtIndex(code, h.pc, ops, 0);
      AtIndex(code, h.pc, ops, 1);
      AtIndex(code, h.pc, ops, 2);
      AtIndex(code, h.pc, ops, 3);
      Pow2Small(31 - bi);
      var h1 := HostStep(img, code, h);
      var h2 := HostStep(img, code, h1);
      var h3 := HostStep(img, code, h2);
      h' := HostStep(img, code, h3);
      FourSteps(img, code, h, h1, h2, h3, h');
      k := 4;
    }
  }

  lemma RunLink<R>(img: Image<R>, code: Code, lk: bool, cia: u32, h: Host<R>) returns (k: nat, h': Host<R>)
    requires h.Go? && At(code, h.pc, LinkOps(lk, cia))
    ensures Steps(img, code, h, k, h') && h'.Go? && h'.pc == h.pc + |LinkOps(lk, cia)|
    ensures h'.core == if lk then h.core.(lr := Add32(cia, 4)) else h.core
  {
    if !lk {
      k, h' := 0, h;
    } else {
      AtIndex(code, h.pc, LinkOps(lk, cia), 0);
      AtIndex(code, h.pc, LinkOps(lk, cia), 1);
      var h1 := HostStep(img, code, h);
      h' := HostStep(img, code, h1);
      TwoSteps(img, code, h, h1, h');
      k := 2;
    }
  }

  lemma RunLeave<R>(img: Image<R>, code: Code, labels: set<u32>, nia: u32, h: Host<R>) returns (k: nat, h': Host<R>)
    requires h.Go? && At(code, h.pc, LeaveOps(nia, labels))
    requires nia in labels ==> Target(nia) in code.bound
    ensures k >= 1 && Steps(img, code, h, k, h') && Landed(code, labels, h', Cpu(h.core, nia))
  {
    AtIndex(code, h.pc, LeaveOps(nia, labels), 0);
    var h1 := HostStep(img, code, h);
    if nia in labels {
      k, h' := 1, h1;
      assert Steps(img, code, h1, 0, h1);
    } else {
      AtIndex(code, h.pc, LeaveOps(nia, labels), 1);
      h' := HostStep(img, code, h1);
      TwoSteps(img, code, h, h1, h');
      k := 2;
    }
  }

  lemma RunGo<R>(img: Image<R>, code: Code, labels: set<u32>, i: Instr, cia: u32, h: Host<R>) returns (k: nat, h': Host<R>)
    requires i.BranchCond? && i.Valid() && h.Go? && At(code, h.pc, GoOps(i, cia, labels))
    requires forall a :: a in labels ==> Target(a) in code.bound
    ensures k >= 1 && Steps(img, code, h, k, h')
    ensures Landed(code, labels, h', Cpu(h.core, match i.form
              case ToCtr => ClearLow2(h.core.ctr)
              case ToLr => ClearLow2(h.core.lr)
              case ToDisplacement => Add32(cia, Displacement16(i.bd))))
  {
    if i.form == ToDisplacement {
      k, h' := RunLeave(img, code, labels, Add32(cia, Displacement16(i.bd)), h);
    } else {
      AtIndex(code, h.pc, GoOps(i, cia, labels), 0);
      AtIndex(code, h.pc, GoOps(i, cia, labels), 1);
      AtIndex(code, h.pc, GoOps(i, cia, labels), 2);
      var h1 := HostStep(img, code, h);
      var h2 := HostStep(img, code, h1);
      h' := HostStep(img, code, h2);
      ThreeSteps(img, code, h, h1, h2, h');
      k := 3;
    }
  }

  /** The tests of a conditional branch: on to the link part if it is taken, to the fail label if not. */
  lemma RunTests<R>(img: Image<R>, code: Code, form: Form, bo: bv5, bi: nat, cia: u32, h: Host<R>)
    returns (k: nat, h': Host<R>)
    requires bi < 32 && h.Go? && CondFail(cia) in code.bound
    requires At(code, h.pc, CtrOps(form, bo, cia) + CondOps(bo, bi, cia))
    ensures Steps(img, code, h, k, h') && h'.Go?
    ensures h'.core == h.core.(ctr := CtrAfter(form, bo, h.core.ctr))
    ensures h'.pc == if CtrOk(form, bo, h.core.ctr) && CondOk(bo, bi, h.core.cr)
                     then h.pc + |CtrOps(form, bo, cia)| + |CondOps(bo, bi, cia)| else code.bound[CondFail(cia)]
  {
    AtSplit(code, h.pc, CtrOps(form, bo, cia), CondOps(bo, bi, cia));
    k, h' := RunCtr(img, code, form, bo, cia, h);
    if CtrOk(form, bo, h.core.ctr) {
      var k1, h1 := RunCond(img, code, bo, bi, cia, h');
      StepsJoin(img, code, h, k, h', k1, h1);
      k, h' := k + k1, h1;
    }
  }

  /** The link and jump parts, reached with the registers `h.core` once the branch is taken. */
  lemma RunLinkAndGo<R>(img: Image<R>, code: Code, labels: set<u32>, i: Instr, cia: u32, h: Host<R>)
    returns (k: nat, h': Host<R>)
    requires i.BranchCond? && i.Valid() && h.Go?
    requires At(code, h.pc, LinkOps(i.lk, cia) + GoOps(i, cia, labels))
    requires forall a :: a in labels ==> Target(a) in code.bound
    ensures k >= 1 && Steps(img, code, h, k, h') && Landed(code, labels, h', AfterTaken(i, cia, h.core))
  {
    AtSplit(code, h.pc, LinkOps(i.lk, cia), GoOps(i, cia, labels));
    var k1, h1 := RunLink(img, code, i.lk, cia, h);
    var k2, h2 := RunGo(img, code, labels, i, cia, h1);
    StepsJoin(img, code, h, k1, h1, k2, h2);
    k, h' := k1 + k2, h2;
  }

  /** A conditional branch's fragment lands where `Compiled` says, or falls through to its end. */
  lemma RunBranchCond<R>(img: Image<R>, code: Code, labels: set<u32>, i: Instr, cia: u32, h: Host<R>)
    returns (k: nat, h': Host<R>)
    requires i.BranchCond? && i.Valid() && h.Go? && At(code, h.pc, BranchCondOps(i, cia, labels))
    requires forall a :: a in labels ==> Target(a) in code.bound
    requires CondFail(cia) in code.bound && code.bound[CondFail(cia)] == h.pc + |BranchCondOps(i, cia, labels)|
    ensures Steps(img, code, h, k, h')
    ensures Taken(i, h.core) ==> Landed(code, labels, h', Compiled(img, i, cia, h.core))
    ensures !Taken(i, h.core) ==>
      h'.Go? && h'.core == Compiled(img, i, cia, h.core).core && h'.pc == code.bound[CondFail(cia)]
  {
    hide CtrOps, CondOps, LinkOps, GoOps, At, Landed, AfterTaken, Steps;
    var tests := CtrOps(i.form, i.bo, cia) + CondOps(i.bo, i.bi, cia);
    var rest := LinkOps(i.lk, cia) + GoOps(i, cia, labels);
    assert BranchCondOps(i, cia, labels) == tests + rest;
    AtSplit(code, h.pc, tests, rest);
    k, h' := RunTests(img, code, i.form, i.bo, i.bi, cia, h);
    if Taken(i, h.core) {
      var k1, h1 := RunLinkAndGo(img, code, labels, i, cia, h');
      StepsJoin(img, code, h, k, h', k1, h1);
      k, h' := k + k1, h1;
    }
  }

  lemma RunBranch<R>(img: Image<R>, code: Code, labels: set<u32>, i: Instr, cia: u32, h: Host<R>)
    returns (k: nat, h': Host<R>)
    requires i.Branch? && i.Valid() && h.Go? && At(code, h.pc, BranchOps(i, cia, labels))
    requires forall a :: a in labels ==> Target(a) in code.bound
    ensures Steps(img, code, h, k, h') && Landed(code, labels, h', Compiled(img, i, cia, h.core))
  {
    var nia := BranchTarget(i.li, i.aa, cia);
    if !i.lk {
      k, h' := RunLeave(img, code, labels, nia, h);
    } else {
      var ops := BranchOps(i, cia, labels);
      AtIndex(code, h.pc, ops, 0);
      AtIndex(code, h.pc, ops, 1);
      AtIndex(code, h.pc, ops, 2);
      AtIndex(code, h.pc, ops, 3);
      var h1 := HostStep(img, code, h);
      var h2 := HostStep(img, code, h1);
      var h3 := HostStep(img, code, h2);
      h' := HostStep(img, code, h3);
      FourSteps(img, code, h, h1, h2, h3, h');
      k := 4;
    }
  }

  // ---------------------------------------------------------------- compiled against interpreted

  /** The compiled form and the interpreter agree on an instruction, whatever the registers hold. */
  ghost predicate Agrees<R(!new)>(img: Image<R>, cia: u32)
    requires img.Valid() && !img.at(cia).Undecodable?
  {
    forall c: Core<R> :: InterpStep(img, Cpu(c, cia)) == Some(Compiled(img, img.at(cia), cia, c))
  }

  /** The condition under which the compiled branch forms keep the interpreter's meaning. */
  predicate Faithful(i: Instr, cia: u32) {
    i.BranchCond? ==> (i.form == ToDisplacement && i.aa ==> cia == 0) && (i.form == ToLr ==> !i.lk)
  }

  /** Registers under which a given conditional branch is taken. */
  lemma SomeTaken<R>(i: Instr, regs: R, lr: u32) returns (c: Core<R>)
    requires i.BranchCond? && i.Valid()
    ensures c.lr == lr && Taken(i, c)
  {
    var ctr: u32 := if BoBit(i.bo, CTR_VALUE) then 1 else 2;
    var k := 31 - i.bi;
    Pow2Small(k);
    var cr: u32 := if BoBit(i.bo, COND_VALUE) then Pow2(k) else 0;
    OwnBit(k);
    NoBits(k);
    c := Core(regs, lr, ctr, cr);
  }

  /**
   Exactly when compiled code agrees with the interpreter: `bc` must not be absolute (the compiled
   form always adds the address of the branch), `bclr` must not link (the compiled form
   overwrites LR before it reads the target from it).
   */
  lemma AgreesExactly<R(!new)>(img: Image<R>, cia: u32, regs: R)
    requires img.Valid() && !img.at(cia).Undecodable?
    ensures Agrees(img, cia) <==> Faithful(img.at(cia), cia)
  {
    var i := img.at(cia);
    if i.BranchCond? && i.form == ToDisplacement && i.aa && cia != 0 {
      var c := SomeTaken(i, regs, 0);
      assert InterpStep(img, Cpu(c, cia)) != Some(Compiled(img, i, cia, c));
    } else if i.BranchCond? && i.form == ToLr && i.lk {
      var next := Add32(cia, 4);
      var lr: u32 := if ClearLow2(next) == 0 then 4 else 0;
      var c := SomeTaken(i, regs, lr);
      assert InterpStep(img, Cpu(c, cia)) != Some(Compiled(img, i, cia, c));
    }
  }
}
