/**
 Block discovery, code generation and the entry cache (src/cpu/jit/jit.cpp, jit_branch.cpp).
 The functions say what is computed; the classes in Jit.dfy do it step by step.
 */
module JitCompiler {
  import opened Wrappers
  import opened Words
  import opened PowerPc
  import opened JitMachine

  const JIT_MAX_INST := 20000

  // ---------------------------------------------------------------- block discovery

  datatype Ident = Ident(end: u32, targets: set<u32>)

  /** The target of a direct branch as block discovery computes it. */
  function DirectTarget(i: Instr, cia: u32): u32
    requires i.Valid() && (i.Branch? || (i.BranchCond? && i.form == ToDisplacement))
  {
    if i.Branch? then BranchTarget(i.li, i.aa, cia)
    else if i.aa then Displacement16(i.bd) else Add32(Displacement16(i.bd), cia)
  }

  /** A direct branch that does not link: its target must stay inside the function. */
  predicate LocalBranch(i: Instr) {
    (i.Branch? || (i.BranchCond? && i.form == ToDisplacement)) && !i.lk
  }

  function ScanTargets(i: Instr, cia: u32): set<u32>
    requires i.Valid()
  {
    if (i.Branch? || i.BranchCond?) && i.lk then {Add32(cia, 4)}
    else if LocalBranch(i) then {DirectTarget(i, cia)}
    else {}
  }

  function ScanMax(i: Instr, cia: u32, fnMax: u32): u32
    requires i.Valid()
  {
    if LocalBranch(i) && DirectTarget(i, cia) > fnMax then DirectTarget(i, cia) else fnMax
  }

  predicate UnconditionalReturn(i: Instr) {
    i.BranchCond? && i.form == ToLr && BoBit(i.bo, NO_CHECK_CTR) && BoBit(i.bo, NO_CHECK_COND)
  }

  predicate CanScan<R>(img: Image<R>, i: Instr) {
    !i.Undecodable? && (i.Plain? ==> img.known(i.word))
  }

  function AddrAt(start: u32, i: nat): u32 {
    (start + 4 * i) % TWO_32
  }

  /** The scan, with `i` instructions behind it. */
  function IdentFrom<R>(img: Image<R>, start: u32, i: nat, fnMax: u32, targets: set<u32>): Option<Ident>
    requires img.Valid()
    decreases JIT_MAX_INST + 1 - i
  {
    var cia := AddrAt(start, i);
    if cia == 0 then Some(Ident(start, targets))
    else
      var instr := img.at(cia);
      if !CanScan(img, instr) then None
      else
        var targets' := targets + ScanTargets(instr, cia);
        if UnconditionalReturn(instr) && cia > fnMax && Add32(cia, 4) != start then
          Some(Ident(Add32(cia, 4), targets'))
        else if i + 1 > JIT_MAX_INST then None
        else IdentFrom(img, start, i + 1, ScanMax(instr, cia, fnMax), targets')
  }

  function IdentSpec<R>(img: Image<R>, start: u32): Option<Ident>
    requires img.Valid()
  {
    IdentFrom(img, start, 0, start, {})
  }

  lemma AddrAtNext(start: u32, i: nat)
    ensures Add32(AddrAt(start, i), 4) == AddrAt(start, i + 1)
  {}

  /** One step of the scan at an instruction that ends nothing. */
  lemma IdentFromNext<R>(img: Image<R>, start: u32, i: nat, fnMax: u32, targets: set<u32>)
    requires img.Valid() && AddrAt(start, i) != 0 && CanScan(img, img.at(AddrAt(start, i)))
    ensures var cia := AddrAt(start, i);
      var instr := img.at(cia);
      var targets' := targets + ScanTargets(instr, cia);
      IdentFrom(img, start, i, fnMax, targets) ==
        if UnconditionalReturn(instr) && cia > fnMax && Add32(cia, 4) != start then Some(Ident(Add32(cia, 4), targets'))
        else if i + 1 > JIT_MAX_INST then None
        else IdentFrom(img, start, i + 1, ScanMax(instr, cia, fnMax), targets')
  {}

  /** No code at the last word of the address space, so that no scan wraps around. */
  ghost predicate NoWrap<R>(img: Image<R>) {
    img.at(0xFFFF_FFFC).Undecodable?
  }

  ghost predicate Scanned<R>(img: Image<R>, start: u32, end: int) {
    forall a: u32 {:trigger img.at(a)} :: start <= a < end && a % 4 == 0 ==> CanScan(img, img.at(a))
  }

  ghost predicate TargetsBelow<R>(img: Image<R>, start: u32, end: int, bound: int)
    requires img.Valid()
  {
    forall a: u32 {:trigger img.at(a)} :: start <= a < end && a % 4 == 0 && LocalBranch(img.at(a)) ==>
      DirectTarget(img.at(a), a) <= bound
  }

  ghost predicate TargetsListed<R>(img: Image<R>, start: u32, end: int, targets: set<u32>)
    requires img.Valid()
  {
    forall a: u32 {:trigger img.at(a)} :: start <= a < end && a % 4 == 0 ==>
      ScanTargets(img.at(a), a) <= targets
  }

  /** A block is a whole function: it ends in a return and no local branch leads behind it. */
  ghost predicate Closed<R>(img: Image<R>, start: u32, id: Ident)
    requires img.Valid()
  {
    && start < id.end && id.end % 4 == 0 && id.end - start <= 4 * (JIT_MAX_INST + 1)
    && Scanned(img, start, id.end)
    && UnconditionalReturn(img.at(id.end - 4))
    && TargetsBelow(img, start, id.end, id.end - 8)
    && TargetsListed(img, start, id.end, id.targets)
    && forall t :: t in id.targets ==> t % 4 == 0
  }

  /** A successful scan finds a closed block; it looks at no more than JIT_MAX_INST + 1 instructions. */
  lemma {:induction false} IdentFromClosed<R>(img: Image<R>, start: u32, i: nat, fnMax: u32, targets: set<u32>)
    requires img.Valid() && NoWrap(img) && start % 4 == 0 && start > 0
    requires start + 4 * i < TWO_32 && i <= JIT_MAX_INST && fnMax >= start && fnMax % 4 == 0
    requires Scanned(img, start, start + 4 * i) && TargetsBelow(img, start, start + 4 * i, fnMax)
    requires TargetsListed(img, start, start + 4 * i, targets) && forall t :: t in targets ==> t % 4 == 0
    ensures var r := IdentFrom(img, start, i, fnMax, targets); r.Some? ==> Closed(img, start, r.value)
    decreases JIT_MAX_INST + 1 - i
  {
    hide Scanned, TargetsBelow, TargetsListed, Closed, ScanMax, ScanTargets, UnconditionalReturn, CanScan, NoWrap, AddrAt;
    var cia := start + 4 * i;
    AddrAtIs(start, i);
    var instr := img.at(cia);
    if CanScan(img, instr) {
      NotLastWord(img, cia);
      ScanOneMore(img, start, cia, fnMax, targets);
      var targets' := targets + ScanTargets(instr, cia);
      if UnconditionalReturn(instr) && cia > fnMax {
        ScanEnds(img, start, cia, i, fnMax, targets');
      } else if i + 1 <= JIT_MAX_INST {
        IdentFromClosed(img, start, i + 1, ScanMax(instr, cia, fnMax), targets');
      }
    }
  }

  lemma NotLastWord<R>(img: Image<R>, cia: u32)
    requires NoWrap(img) && CanScan(img, img.at(cia)) && cia % 4 == 0
    ensures cia < 0xFFFF_FFFC
  {}

  lemma AddrAtIs(start: u32, i: nat)
    requires start + 4 * i < TWO_32
    ensures AddrAt(start, i) == start + 4 * i
  {}

  lemma ScanEnds<R>(img: Image<R>, start: u32, cia: u32, i: nat, fnMax: u32, targets: set<u32>)
    requires img.Valid() && start % 4 == 0 && start <= fnMax < cia < 0xFFFF_FFFC && fnMax % 4 == 0
    requires i <= JIT_MAX_INST && cia == start + 4 * i && UnconditionalReturn(img.at(cia))
    requires Scanned(img, start, cia + 4) && TargetsBelow(img, start, cia + 4, ScanMax(img.at(cia), cia, fnMax))
    requires TargetsListed(img, start, cia + 4, targets) && forall t :: t in targets ==> t % 4 == 0
    ensures Add32(cia, 4) == cia + 4 && Closed(img, start, Ident(cia + 4, targets))
  {
    assert fnMax <= cia - 4;
  }

  /** The scan's invariant after one more instruction. */
  lemma ScanOneMore<R>(img: Image<R>, start: u32, cia: u32, fnMax: u32, targets: set<u32>)
    requires img.Valid() && start <= cia && cia % 4 == 0 && start % 4 == 0 && fnMax % 4 == 0
    requires CanScan(img, img.at(cia)) && Scanned(img, start, cia) && TargetsBelow(img, start, cia, fnMax)
    requires TargetsListed(img, start, cia, targets) && forall t :: t in targets ==> t % 4 == 0
    ensures Scanned(img, start, cia + 4)
    ensures TargetsBelow(img, start, cia + 4, ScanMax(img.at(cia), cia, fnMax))
    ensures TargetsListed(img, start, cia + 4, targets + ScanTargets(img.at(cia), cia))
    ensures forall t :: t in targets + ScanTargets(img.at(cia), cia) ==> t % 4 == 0
    ensures fnMax <= ScanMax(img.at(cia), cia, fnMax) && ScanMax(img.at(cia), cia, fnMax) % 4 == 0
  {
    TargetsAligned(img.at(cia), cia);
    forall a: u32 | start <= a < cia + 4 && a % 4 == 0 && a != cia ensures a < cia {}
  }

  lemma TargetsAligned(i: Instr, cia: u32)
    requires i.Valid() && cia % 4 == 0
    ensures forall t :: t in ScanTargets(i, cia) ==> t % 4 == 0
    ensures LocalBranch(i) ==> DirectTarget(i, cia) % 4 == 0
  {
    Add32Aligned(cia, 4);
    match i
    case Branch(li, _, _) => Add32Aligned(Displacement26(li), cia);
    case BranchCond(_, _, _, bd, _, _) => Add32Aligned(Displacement16(bd), cia);
    case _ =>
  }

  /** Block discovery is closed. */
  lemma IdentClosed<R>(img: Image<R>, start: u32)
    requires img.Valid() && NoWrap(img) && start % 4 == 0 && start > 0
    ensures IdentSpec(img, start).Some? ==> Closed(img, start, IdentSpec(img, start).value)
  {
    IdentFromClosed(img, start, 0, start, {});
  }

  // ---------------------------------------------------------------- what block discovery finds

  /** `bclr` with BO bits 2 and 4, which checks nothing. */
  predicate Returns(i: Instr) {
    i.BranchCond? && i.form == ToLr && i.bo & 20 == 20
  }

  /** Every decoded branch, and every other instruction that has a handler. */
  predicate Handled<R>(img: Image<R>, a: u32) {
    match img.at(a)
    case Undecodable => false
    case Plain(w) => img.known(w)
    case Branch(_, _, _) => true
    case BranchCond(_, _, _, _, _, _) => true
  }

  /** A `b` or `bc` without the link bit at `a` has its target below `limit`. */
  predicate JumpsBelow<R>(img: Image<R>, a: u32, limit: int)
    requires img.at(a).Valid()
  {
    match img.at(a)
    case Branch(li, aa, lk) =>
      lk || (if aa then Displacement26(li) else (Displacement26(li) + a) % TWO_32) < limit
    case BranchCond(ToDisplacement, _, _, bd, aa, lk) =>
      lk || (if aa then Displacement16(bd) else (Displacement16(bd) + a) % TWO_32) < limit
    case _ => true
  }

  predicate BelowAt<R>(img: Image<R>, start: u32, j: nat, limit: int)
    requires img.Valid()
  {
    start + 4 * j < TWO_32 ==> JumpsBelow(img, start + 4 * j, limit)
  }

  ghost predicate AllBelow<R>(img: Image<R>, start: u32, i: nat, limit: int)
    requires img.Valid()
  {
    forall j: nat | j < i :: BelowAt(img, start, j, limit)
  }

  /** Instruction `k` is a return behind the first instruction and behind all jumps before it. */
  ghost predicate EndsAt<R>(img: Image<R>, start: u32, k: nat)
    requires img.Valid() && start + 4 * k < TWO_32
  {
    k >= 1 && Returns(img.at(start + 4 * k)) && AllBelow(img, start, k, start + 4 * k)
  }

  /** From instruction `i` on, `k` is the first to end the function, and all up to it are handled. */
  ghost predicate FirstEnd<R>(img: Image<R>, start: u32, i: nat, k: nat)
    requires img.Valid() && start + 4 * k < TWO_32
  {
    && i <= k <= 20000 && EndsAt(img, start, k)
    && (forall j: nat | i <= j <= k :: Handled(img, start + 4 * j))
    && (forall j: nat | i <= j < k :: !EndsAt(img, start, j))
  }

  /** `fnMax` is below a limit exactly when the start and the local jumps of the first `i` instructions are. */
  ghost predicate MaxUpTo<R>(img: Image<R>, start: u32, i: nat, fnMax: u32)
    requires img.Valid()
  {
    forall limit: int :: Bounds(img, start, i, fnMax, limit)
  }

  ghost predicate Bounds<R>(img: Image<R>, start: u32, i: nat, fnMax: u32, limit: int)
    requires img.Valid()
  {
    fnMax < limit <==> start < limit && AllBelow(img, start, i, limit)
  }

  lemma MaxGrows<R>(img: Image<R>, start: u32, i: nat, fnMax: u32)
    requires img.Valid() && start + 4 * i < TWO_32 && MaxUpTo(img, start, i, fnMax)
    ensures MaxUpTo(img, start, i + 1, ScanMax(img.at(start + 4 * i), start + 4 * i, fnMax))
  {
    hide JumpsBelow, ScanMax;
    var a: u32 := start + 4 * i;
    var n, next := i + 1, ScanMax(img.at(a), a, fnMax);
    forall limit: int {:trigger Bounds(img, start, n, next, limit)}
      ensures Bounds(img, start, n, next, limit)
    {
      assert Bounds(img, start, i, fnMax, limit);
      assert AllBelow(img, start, i + 1, limit) <==> AllBelow(img, start, i, limit) && BelowAt(img, start, i, limit);
      MaxBelow(img, a, fnMax, limit);
    }
  }

  lemma MaxBelow<R>(img: Image<R>, a: u32, fnMax: u32, limit: int)
    requires img.Valid()
    ensures ScanMax(img.at(a), a, fnMax) < limit <==> fnMax < limit && JumpsBelow(img, a, limit)
  {
    hide Displacement26, Displacement16;
  }

  lemma ReturnsIs(i: Instr)
    ensures UnconditionalReturn(i) <==> Returns(i)
  {
    if i.BranchCond? {
      BoBits(i.bo);
    }
  }

  lemma HandledIs<R>(img: Image<R>, a: u32)
    ensures CanScan(img, img.at(a)) <==> Handled(img, a)
  {}

  lemma {:induction false} ScanFinds<R>(img: Image<R>, start: u32, i: nat, fnMax: u32, targets: set<u32>, k: nat)
    requires img.Valid() && NoWrap(img) && start % 4 == 0 && start > 0 && i <= JIT_MAX_INST
    requires start + 4 * i < TWO_32 && start + 4 * k < TWO_32 && MaxUpTo(img, start, i, fnMax)
    ensures var id := IdentFrom(img, start, i, fnMax, targets);
      id.Some? && id.value.end == (start + 4 * k + 4) % TWO_32 <==> FirstEnd(img, start, i, k)
    decreases JIT_MAX_INST - i
  {
    hide UnconditionalReturn, ScanTargets, ScanMax, Returns, Handled, JumpsBelow, IdentFrom, EndsAt, AllBelow;
    var cia: u32 := start + 4 * i;
    DivModIs(start + 4 * i, TWO_32, 0, start + 4 * i);
    ReturnsIs(img.at(cia));
    HandledIs(img, cia);
    if !CanScan(img, img.at(cia)) {
      ScanFails(img, start, i, fnMax, targets);
    } else {
      IdentFromNext(img, start, i, fnMax, targets);
      EndsHere(img, start, i, fnMax);
      NextNotStart(img, start, i);
      if !EndsAt(img, start, i) && i + 1 <= JIT_MAX_INST {
        MaxGrows(img, start, i, fnMax);
        ScanFinds(img, start, i + 1, ScanMax(img.at(cia), cia, fnMax), targets + ScanTargets(img.at(cia), cia), k);
      }
    }
  }

  lemma ScanFails<R>(img: Image<R>, start: u32, i: nat, fnMax: u32, targets: set<u32>)
    requires img.Valid() && start > 0 && start + 4 * i < TWO_32 && !CanScan(img, img.at(start + 4 * i))
    ensures IdentFrom(img, start, i, fnMax, targets) == None
  {
    DivModIs(start + 4 * i, TWO_32, 0, start + 4 * i);
  }

  /** A scanned instruction is not the last word, so that the next address does not wrap. */
  lemma NextNotStart<R>(img: Image<R>, start: u32, i: nat)
    requires NoWrap(img) && start % 4 == 0 && start + 4 * i < TWO_32 && CanScan(img, img.at(start + 4 * i))
    ensures start + 4 * i + 4 < TWO_32 && Add32(start + 4 * i, 4) == start + 4 * i + 4
  {
    DivModIs(start + 4 * i + 4, TWO_32, 0, start + 4 * i + 4);
  }

  lemma EndsHere<R>(img: Image<R>, start: u32, i: nat, fnMax: u32)
    requires img.Valid() && start + 4 * i < TWO_32 && MaxUpTo(img, start, i, fnMax)
    ensures EndsAt(img, start, i) <==> Returns(img.at(start + 4 * i)) && start + 4 * i > fnMax
  {
    hide BelowAt, Returns;
    assert Bounds(img, start, i, fnMax, start + 4 * i);
  }

  /**
   Block discovery finds the function that ends behind instruction `k` exactly when that is the first
   unconditional return behind every jump before it, within 20000 instructions that are all handled.
   */
  lemma DiscoveryExactlyWhen<R>(img: Image<R>, start: u32, k: nat)
    requires img.Valid() && NoWrap(img) && start % 4 == 0 && start > 0 && start + 4 * k < TWO_32
    ensures IdentSpec(img, start).Some? && IdentSpec(img, start).value.end == (start + 4 * k + 4) % TWO_32
      <==> FirstEnd(img, start, 0, k)
  {
    hide FirstEnd, IdentFrom;
    ScanFinds(img, start, 0, start, {}, k);
  }

  // ---------------------------------------------------------------- code generation

  predicate Emits<R>(img: Image<R>, i: Instr) {
    CanScan(img, i) && (i.Plain? ==> img.emits(i.word))
  }

  /** A range of instructions that all compile. */
  ghost predicate Emittable<R>(img: Image<R>, start: u32, end: u32) {
    && start % 4 == 0 && end % 4 == 0 && start <= end
    && forall a: u32 {:trigger img.at(a)} :: start <= a < end && a % 4 == 0 ==> Emits(img, img.at(a))
  }

  /** Code and label positions after the first `i` instructions. */
  function EmitTo<R>(img: Image<R>, start: u32, end: u32, labels: set<u32>, i: nat): Code
    requires img.Valid() && Emittable(img, start, end) && start + 4 * i <= end
  {
    if i == 0 then Code(seq(8, _ => Nop), map[])
    else
      var before := EmitTo(img, start, end, labels, i - 1);
      var a: u32 := start + 4 * (i - 1);
      EmitOne(before, img.at(a), a, labels)
  }

  /** Appends one instruction at guest address `a`, binding its labels. */
  function EmitOne(before: Code, instr: Instr, a: u32, labels: set<u32>): Code
    requires instr.Valid() && !instr.Undecodable?
  {
    EmitOps(before, InstrOps(instr, a, labels), instr.BranchCond?, a, labels)
  }

  function EmitOps(before: Code, ops: seq<Op>, conditional: bool, a: u32, labels: set<u32>): Code {
    var bound := if a in labels then before.bound[Target(a) := |before.ops|] else before.bound;
    Code(before.ops + [MovCia(a)] + ops + [Nop],
         if conditional then bound[CondFail(a) := |before.ops| + 1 + |ops|] else bound)
  }

  function GenSpec<R>(img: Image<R>, start: u32, end: u32, labels: set<u32>): Code
    requires img.Valid() && Emittable(img, start, end)
  {
    var body := EmitTo(img, start, end, labels, (end - start) / 4);
    body.(ops := body.ops + [MovEaxImm(end), JmpFinale])
  }

  /** Where the code of the instruction at `a` starts; at `end`, the trailing exit. */
  function Offset<R>(img: Image<R>, start: u32, end: u32, labels: set<u32>, a: u32): nat
    requires img.Valid() && Emittable(img, start, end) && start <= a <= end && a % 4 == 0
  {
    |EmitTo(img, start, end, labels, (a - start) / 4).ops|
  }

  function LabelAddr(l: Label): u32 {
    match l case Target(a) => a case CondFail(a) => a
  }

  /** Labels bound in the first `i` instructions belong to them. */
  lemma {:induction false} BoundBelow<R>(img: Image<R>, start: u32, end: u32, labels: set<u32>, i: nat)
    requires img.Valid() && Emittable(img, start, end) && start + 4 * i <= end
    ensures forall l :: l in EmitTo(img, start, end, labels, i).bound ==> LabelAddr(l) < start + 4 * i
  {
    if i > 0 {
      BoundBelow(img, start, end, labels, i - 1);
    }
  }

  /** Later instructions neither move earlier code nor rebind earlier labels. */
  ghost predicate Extends(before: Code, after: Code) {
    && before.ops <= after.ops
    && forall l :: l in before.bound ==> l in after.bound && after.bound[l] == before.bound[l]
  }

  lemma {:induction false} EmitPrefix<R>(img: Image<R>, start: u32, end: u32, labels: set<u32>, i: nat, n: nat)
    requires img.Valid() && Emittable(img, start, end) && i <= n && start + 4 * n <= end
    ensures Extends(EmitTo(img, start, end, labels, i), EmitTo(img, start, end, labels, n))
    decreases n
  {
    if i < n {
      EmitPrefix(img, start, end, labels, i, n - 1);
      BoundBelow(img, start, end, labels, n - 1);
      var a: u32 := start + 4 * (n - 1);
      EmitOpsExtends(EmitTo(img, start, end, labels, n - 1), InstrOps(img.at(a), a, labels),
                     img.at(a).BranchCond?, a, labels);
    }
  }

  lemma EmitOpsExtends(before: Code, ops: seq<Op>, conditional: bool, a: u32, labels: set<u32>)
    requires forall l :: l in before.bound ==> LabelAddr(l) < a
    ensures Extends(before, EmitOps(before, ops, conditional, a, labels))
  {
    assert EmitOps(before, ops, conditional, a, labels).ops == before.ops + ([MovCia(a)] + ops + [Nop]);
  }

  /** `EmitOps` leaves the operations and the labels of its instruction in this shape. */
  ghost predicate Piece(code: Code, p: nat, ops: seq<Op>, conditional: bool, a: u32, labels: set<u32>) {
    && At(code, p, [MovCia(a)] + ops + [Nop])
    && (a in labels ==> Target(a) in code.bound && code.bound[Target(a)] == p)
    && (conditional ==> CondFail(a) in code.bound && code.bound[CondFail(a)] == p + 1 + |ops|)
  }

  lemma AppendedAt(before: seq<Op>, ops: seq<Op>, code: Code)
    requires before + ops <= code.ops
    ensures At(code, |before|, ops)
  {
    assert code.ops[..|before + ops|] == before + ops;
    assert code.ops[|before|..|before| + |ops|] == (before + ops)[|before|..] == ops;
  }

  lemma EmitOpsPiece(before: Code, ops: seq<Op>, conditional: bool, a: u32, labels: set<u32>, code: Code)
    requires Extends(EmitOps(before, ops, conditional, a, labels), code)
    ensures Piece(code, |before.ops|, ops, conditional, a, labels)
  {
    var after := EmitOps(before, ops, conditional, a, labels);
    assert after.ops == before.ops + ([MovCia(a)] + ops + [Nop]);
    AppendedAt(before.ops, [MovCia(a)] + ops + [Nop], code);
    if a in labels {
      assert Target(a) in after.bound && after.bound[Target(a)] == |before.ops|;
    }
  }

  lemma NextFits(a: u32, end: u32)
    requires a % 4 == 0 && end % 4 == 0 && a < end
    ensures a + 4 <= end
  {}

  /** The code of one instruction sits where `Offset` says, with its labels bound there. */
  lemma PieceAt<R>(img: Image<R>, start: u32, end: u32, labels: set<u32>, a: u32)
    requires img.Valid() && Emittable(img, start, end) && start <= a && a + 4 <= end && a % 4 == 0
    ensures Piece(GenSpec(img, start, end, labels), Offset(img, start, end, labels, a),
                  InstrOps(img.at(a), a, labels), img.at(a).BranchCond?, a, labels)
    ensures Offset(img, start, end, labels, a + 4)
      == Offset(img, start, end, labels, a) + |InstrOps(img.at(a), a, labels)| + 2
  {
    hide InstrOps, Piece, Extends;
    var i, n := (a - start) / 4, (end - start) / 4;
    assert start + 4 * i == a && (a + 4 - start) / 4 == i + 1;
    EmitPrefix(img, start, end, labels, i + 1, n);
    EmitOpsPiece(EmitTo(img, start, end, labels, i), InstrOps(img.at(a), a, labels),
                 img.at(a).BranchCond?, a, labels, GenSpec(img, start, end, labels));
  }

  lemma TrailerAt<R>(img: Image<R>, start: u32, end: u32, labels: set<u32>)
    requires img.Valid() && Emittable(img, start, end)
    ensures At(GenSpec(img, start, end, labels), Offset(img, start, end, labels, end), [MovEaxImm(end), JmpFinale])
  {
    var code := GenSpec(img, start, end, labels);
    var p := Offset(img, start, end, labels, end);
    assert code.ops[p..p + 2] == [MovEaxImm(end), JmpFinale];
  }

  // ---------------------------------------------------------------- the entry cache

  /** A position in generated code (`JitCode` in the original is a host pointer). */
  datatype Entry = Entry(code: Code, pc: nat)

  type Cache = map<u32, Option<Entry>>

  predicate AllEmit<R>(img: Image<R>, start: u32, end: u32) {
    forall k: nat | k < (end - start) / 4 :: start + 4 * k < TWO_32 && Emits(img, img.at(start + 4 * k))
  }

  lemma AllEmitIsEmittable<R>(img: Image<R>, start: u32, end: u32)
    requires start % 4 == 0 && end % 4 == 0 && start <= end
    ensures AllEmit(img, start, end) <==> Emittable(img, start, end)
  {
    if AllEmit(img, start, end) {
      forall a: u32 | start <= a < end && a % 4 == 0 ensures Emits(img, img.at(a)) {
        var k := (a - start) / 4;
        assert start + 4 * k == a && k < (end - start) / 4;
      }
    }
  }

  /** The in-block targets: those that get a label. */
  function LabelsOf(start: u32, id: Ident): set<u32> {
    set t | t in id.targets && start <= t < id.end
  }

  /** The block's own entry and one entry per label. */
  function BlockEntries(start: u32, labels: set<u32>, code: Code): Cache {
    (map t | t in labels && Target(t) in code.bound :: Some(Entry(code, code.bound[Target(t)])))
  }

  /** Looks an address up, compiling its function on a miss; a failure is remembered too. */
  function GetSpec<R>(img: Image<R>, cache: Cache, addr: u32): (r: (Cache, Option<Entry>))
    requires img.Valid() && NoWrap(img) && addr % 4 == 0
  {
    if addr in cache then (cache, cache[addr])
    else
      match CompileSpec(img, addr)
      case None => (cache[addr := None], None)
      case Some((labels, code)) =>
        (cache[addr := Some(Entry(code, 8))] + BlockEntries(addr, labels, code), Some(Entry(code, 8)))
  }

  /** The labels and code for the function at an address, if it compiles. */
  function CompileSpec<R>(img: Image<R>, addr: u32): Option<(set<u32>, Code)>
    requires img.Valid() && NoWrap(img) && addr % 4 == 0
  {
    IdentRange(img, addr);
    match IdentSpec(img, addr)
    case None => None
    case Some(id) =>
      if !AllEmit(img, addr, id.end) then None
      else
        AllEmitIsEmittable(img, addr, id.end);
        Some((LabelsOf(addr, id), GenSpec(img, addr, id.end, LabelsOf(addr, id))))
  }

  lemma IdentRange<R>(img: Image<R>, addr: u32)
    requires img.Valid() && NoWrap(img) && addr % 4 == 0
    ensures IdentSpec(img, addr).Some? ==>
      addr <= IdentSpec(img, addr).value.end && IdentSpec(img, addr).value.end % 4 == 0
  {
    if addr > 0 {
      IdentClosed(img, addr);
    }
  }

  /** An address compiles exactly when discovery finds an end and every other instruction's handler succeeds. */
  lemma CompilesExactlyWhen<R>(img: Image<R>, start: u32, k: nat)
    requires img.Valid() && NoWrap(img) && start % 4 == 0 && start > 0 && start + 4 * k < TWO_32 && FirstEnd(img, start, 0, k)
    ensures CompileSpec(img, start).Some? <==>
      forall j: nat | j <= k :: img.at(start + 4 * j).Plain? ==> img.emits(img.at(start + 4 * j).word)
  {
    hide EndsAt, IdentFrom, GenSpec, LabelsOf;
    DiscoveryExactlyWhen(img, start, k);
    HandledIs(img, start + 4 * k);
    NextNotStart(img, start, k);
    forall j: nat | j <= k
      ensures CanScan(img, img.at(start + 4 * j))
    {
      HandledIs(img, start + 4 * j);
    }
    var end: u32 := start + 4 * k + 4;
    assert (end - start) / 4 == k + 1;
    IdentRange(img, start);
  }

  /** Without an end nothing compiles. */
  lemma NoEndNoCode<R>(img: Image<R>, start: u32)
    requires img.Valid() && NoWrap(img) && start % 4 == 0 && start > 0 && CompileSpec(img, start).Some?
    ensures exists k: nat :: start + 4 * k < TWO_32 && FirstEnd(img, start, 0, k)
  {
    hide FirstEnd, IdentFrom, GenSpec, LabelsOf;
    IdentClosed(img, start);
    var end := IdentSpec(img, start).value.end;
    var k := (end - start) / 4 - 1;
    DiscoveryExactlyWhen(img, start, k);
  }
}
