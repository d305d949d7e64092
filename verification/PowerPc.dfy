/**
 The guest processor: decoded instructions, the part of the thread state that branches use, and
 the interpreter (src/cpu/interpreter/interpreter.cpp, interpreter_branch.cpp).
 */
module PowerPc {
  import opened Wrappers
  import opened Words

  const CALLBACK_ADDR: u32 := 0xFBADCDE0

  /** The three conditional branch instructions that share `bcGeneric`. */
  datatype Form = ToDisplacement | ToCtr | ToLr

  datatype Instr =
    | Branch(li: nat, aa: bool, lk: bool)
    | BranchCond(form: Form, bo: bv5, bi: nat, bd: nat, aa: bool, lk: bool)
    | Plain(word: u32)
    | Undecodable
  {
    /** The bit widths of the instruction fields. */
    predicate Valid() {
      match this
      case Branch(li, _, _) => li < 0x100_0000
      case BranchCond(_, _, bi, bd, _, _) => bi < 32 && bd < 0x4000
      case _ => true
    }
  }

  /** Thread state without the two instruction addresses. `R` is everything branches do not touch. */
  datatype Core<R> = Core(regs: R, lr: u32, ctr: u32, cr: u32)

  datatype Cpu<R> = Cpu(core: Core<R>, nia: u32)

  /**
   A fixed code image, together with the meaning of every non-branch instruction.  `known` says
   whether the JIT has a handler for an instruction word, `emits` whether that handler succeeds,
   and `scratch` what the emitted host code leaves in the host's scratch register and flag.
   */
  datatype Image<!R> = Image(
    at: u32 -> Instr,
    step: (u32, Core<R>) -> Core<R>,
    known: u32 -> bool,
    emits: u32 -> bool,
    scratch: (u32, Core<R>) -> (u32, bool))
  {
    ghost predicate Valid() {
      forall a :: at(a).Valid()
    }
  }

  // BO field bits
  const CTR_VALUE := 1
  const NO_CHECK_CTR := 2
  const COND_VALUE := 3
  const NO_CHECK_COND := 4

  predicate BoBit(bo: bv5, k: nat)
    requires k < 5
  {
    (bo >> k) & 1 == 1
  }

  /** sign_extend<26>(li << 2) */
  function Displacement26(li: nat): (d: u32)
    requires li < 0x100_0000
    ensures d % 4 == 0
    ensures d == if li < 0x80_0000 then 4 * li else 4 * li + TWO_32 - 0x400_0000
  {
    var v := 4 * li;
    if v < 0x200_0000 then v else v + TWO_32 - 0x400_0000
  }

  /** sign_extend<16>(bd << 2) */
  function Displacement16(bd: nat): (d: u32)
    requires bd < 0x4000
    ensures d % 4 == 0
    ensures d == if bd < 0x2000 then 4 * bd else 4 * bd + TWO_32 - 0x1_0000
  {
    var v := 4 * bd;
    if v < 0x8000 then v else v + TWO_32 - 0x1_0000
  }

  /** x & ~3 */
  function ClearLow2(x: u32): u32 {
    x - x % 4
  }

  function BranchTarget(li: nat, aa: bool, cia: u32): u32
    requires li < 0x100_0000
  {
    if aa then Displacement26(li) else Add32(Displacement26(li), cia)
  }

  predicate ChecksCtr(form: Form, bo: bv5) {
    form != ToCtr && !BoBit(bo, NO_CHECK_CTR)
  }

  function Decrement(ctr: u32): u32 {
    (ctr + TWO_32 - 1) % TWO_32
  }

  /** The CTR value after the branch: decremented whenever the BO field asks for a CTR check. */
  function CtrAfter(form: Form, bo: bv5, ctr: u32): u32 {
    if ChecksCtr(form, bo) then Decrement(ctr) else ctr
  }

  predicate CtrOk(form: Form, bo: bv5, ctr: u32) {
    ChecksCtr(form, bo) ==> ((Decrement(ctr) != 0) != BoBit(bo, CTR_VALUE))
  }

  predicate CondOk(bo: bv5, bi: nat, cr: u32)
    requires bi < 32
  {
    !BoBit(bo, NO_CHECK_COND) ==> ((Bit(cr, 31 - bi) == 1) == BoBit(bo, COND_VALUE))
  }

  predicate Taken<R>(i: Instr, c: Core<R>)
    requires i.BranchCond? && i.Valid()
  {
    CtrOk(i.form, i.bo, c.ctr) && CondOk(i.bo, i.bi, c.cr)
  }

  /** Where a taken conditional branch goes; `c` is the state before the branch. */
  function CondTarget<R>(i: Instr, cia: u32, c: Core<R>): u32
    requires i.BranchCond? && i.Valid()
  {
    match i.form
    case ToCtr => ClearLow2(CtrAfter(i.form, i.bo, c.ctr))
    case ToLr => ClearLow2(c.lr)
    case ToDisplacement =>
      if i.aa then Displacement16(i.bd) else Add32(Displacement16(i.bd), cia)
  }

  /** One instruction of the reference semantics; None when the word does not decode. */
  function InterpStep<R>(img: Image<R>, s: Cpu<R>): Option<Cpu<R>>
    requires img.at(s.nia).Valid()
  {
    var cia, c := s.nia, s.core;
    var next := Add32(cia, 4);
    match img.at(cia)
    case Undecodable => None
    case Plain(w) => Some(Cpu(img.step(w, c), next))
    case Branch(li, aa, lk) =>
      Some(Cpu(if lk then c.(lr := next) else c, BranchTarget(li, aa, cia)))
    case BranchCond(form, bo, bi, bd, aa, lk) =>
      var i := img.at(cia);
      var c1 := c.(ctr := CtrAfter(form, bo, c.ctr));
      if Taken(i, c) then
        Some(Cpu(if lk then c1.(lr := next) else c1, CondTarget(i, cia, c)))
      else
        Some(Cpu(c1, next))
  }

  /** The interpreter loop after `n` iterations: it stays at CALLBACK_ADDR once it gets there. */
  function InterpRun<R>(img: Image<R>, n: nat, s: Cpu<R>): Option<Cpu<R>>
    requires img.Valid()
  {
    if n == 0 || s.nia == CALLBACK_ADDR then Some(s)
    else match InterpStep(img, s)
      case None => None
      case Some(s') => InterpRun(img, n - 1, s')
  }

  ghost predicate InterpHalts<R>(img: Image<R>, s: Cpu<R>, result: Core<R>)
    requires img.Valid()
  {
    exists n: nat :: InterpRun(img, n, s) == Some(Cpu(result, CALLBACK_ADDR))
  }

  lemma CondTargetAligned<R>(i: Instr, cia: u32, c: Core<R>)
    requires i.BranchCond? && i.Valid() && cia % 4 == 0
    ensures CondTarget(i, cia, c) % 4 == 0
  {
    if i.form == ToDisplacement {
      Add32Aligned(Displacement16(i.bd), cia);
    }
  }

  lemma InterpStepAligned<R>(img: Image<R>, s: Cpu<R>)
    requires img.Valid() && s.nia % 4 == 0
    ensures InterpStep(img, s).Some? ==> InterpStep(img, s).value.nia % 4 == 0
  {
    Add32Aligned(s.nia, 4);
    var i := img.at(s.nia);
    if i.Branch? {
      Add32Aligned(Displacement26(i.li), s.nia);
    } else if i.BranchCond? {
      CondTargetAligned(i, s.nia, s.core);
    }
  }

  // ---------------------------------------------------------------- branches in numbers

  /** A displacement is the signed number of its width that ends in the field's bits, in 32 bits. */
  lemma Displacement26Signed(li: nat, n: int)
    requires li < 0x100_0000 && -0x200_0000 <= n < 0x200_0000 && n % 0x400_0000 == 4 * li
    ensures Displacement26(li) == n % TWO_32
  {
    DivModIs(n, 0x400_0000, if n < 0 then -1 else 0, 4 * li);
    DivModIs(n, TWO_32, if n < 0 then -1 else 0, if n < 0 then n + TWO_32 else n);
  }

  lemma Displacement16Signed(bd: nat, n: int)
    requires bd < 0x4000 && -0x8000 <= n < 0x8000 && n % 0x1_0000 == 4 * bd
    ensures Displacement16(bd) == n % TWO_32
  {
    DivModIs(n, 0x1_0000, if n < 0 then -1 else 0, 4 * bd);
    DivModIs(n, TWO_32, if n < 0 then -1 else 0, if n < 0 then n + TWO_32 else n);
  }

  lemma WrapSum(n: int, cia: u32)
    ensures Add32(n % TWO_32, cia) == (cia + n) % TWO_32
  {
    var q := n / TWO_32 + (n % TWO_32 + cia) / TWO_32;
    assert n == TWO_32 * (n / TWO_32) + n % TWO_32;
    DivModIs(cia + n, TWO_32, q, (n % TWO_32 + cia) % TWO_32);
  }

  /** `b` goes a signed number of bytes from itself, or to that address, and links the address behind it. */
  lemma BranchInNumbers<R>(img: Image<R>, s: Cpu<R>, n: int)
    requires img.at(s.nia).Valid() && img.at(s.nia).Branch?
    requires -0x200_0000 <= n < 0x200_0000 && n % 0x400_0000 == 4 * img.at(s.nia).li
    ensures InterpStep(img, s).Some?
    ensures var i, s' := img.at(s.nia), InterpStep(img, s).value;
      && s'.nia == (if i.aa then n else s.nia + n) % TWO_32
      && s'.core == s.core.(lr := if i.lk then (s.nia + 4) % TWO_32 else s.core.lr)
  {
    Displacement26Signed(img.at(s.nia).li, n);
    WrapSum(n, s.nia);
  }

  /** CTR after a branch of `form`: one less, below 0 all ones, unless it is `bcctr` or BO bit 2 is set. */
  function CtrInNumbers(form: Form, bo: bv5, ctr: u32): u32 {
    if form == ToCtr || bo & 4 != 0 then ctr
    else if ctr == 0 then 0xFFFF_FFFF
    else ctr - 1
  }

  /**
   Whether a conditional branch is taken: BO bit 1 asks for a CTR that has come to 0, unless bit 2 is set or it
   is `bcctr`, and BO bit 3 for the CR bit that BI counts from the top, unless bit 4 is set.
   */
  predicate TakenInNumbers(form: Form, bo: bv5, bi: nat, ctr: u32, cr: u32)
    requires bi < 32
  {
    && (form == ToCtr || bo & 4 != 0 || ((CtrInNumbers(form, bo, ctr) == 0) == (bo & 2 != 0)))
    && (bo & 16 != 0 || ((cr / Pow2(31 - bi)) % 2 == 1) == (bo & 8 != 0))
  }

  lemma BoBits(bo: bv5)
    ensures (BoBit(bo, 1) <==> bo & 2 != 0) && (BoBit(bo, 2) <==> bo & 4 != 0)
    ensures (BoBit(bo, 3) <==> bo & 8 != 0) && (BoBit(bo, 4) <==> bo & 16 != 0)
  {}

  lemma CtrIs(form: Form, bo: bv5, ctr: u32)
    ensures CtrAfter(form, bo, ctr) == CtrInNumbers(form, bo, ctr)
  {
    BoBits(bo);
    if ctr > 0 {
      DivModIs(ctr + TWO_32 - 1, TWO_32, 1, ctr - 1);
    } else {
      DivModIs(TWO_32 - 1, TWO_32, 0, TWO_32 - 1);
    }
  }

  lemma TakenIs<R>(i: Instr, c: Core<R>)
    requires i.BranchCond? && i.Valid()
    ensures Taken(i, c) <==> TakenInNumbers(i.form, i.bo, i.bi, c.ctr, c.cr)
  {
    hide BoBit, CtrInNumbers, Decrement, Bit;
    BoBits(i.bo);
    CtrIs(i.form, i.bo, c.ctr);
    BitIs(c.cr, 31 - i.bi);
  }

  /**
   A conditional branch: the CTR check counts down whether the branch is taken or not, LR is linked only when it
   is, and a taken `bc` goes a signed number of bytes from itself, or to that address.
   */
  lemma BranchCondInNumbers<R>(img: Image<R>, s: Cpu<R>, n: int)
    requires img.at(s.nia).Valid() && img.at(s.nia).BranchCond?
    requires -0x8000 <= n < 0x8000 && n % 0x1_0000 == 4 * img.at(s.nia).bd
    ensures InterpStep(img, s).Some?
    ensures var i, c, s' := img.at(s.nia), s.core, InterpStep(img, s).value;
      var taken := TakenInNumbers(i.form, i.bo, i.bi, c.ctr, c.cr);
      && s'.core == c.(ctr := CtrInNumbers(i.form, i.bo, c.ctr),
                       lr := if taken && i.lk then (s.nia + 4) % TWO_32 else c.lr)
      && s'.nia ==
           if !taken then (s.nia + 4) % TWO_32
           else match i.form
             case ToCtr => c.ctr - c.ctr % 4
             case ToLr => c.lr - c.lr % 4
             case ToDisplacement => (if i.aa then n else s.nia + n) % TWO_32
  {
    hide Taken, TakenInNumbers, CtrAfter, CtrInNumbers, Displacement16;
    var i, c := img.at(s.nia), s.core;
    CtrIs(i.form, i.bo, c.ctr);
    TakenIs(i, c);
    CtrOfBcctr(i.bo, c.ctr);
    Displacement16Signed(i.bd, n);
    WrapSum(n, s.nia);
  }

  lemma CtrOfBcctr(bo: bv5, ctr: u32)
    ensures CtrInNumbers(ToCtr, bo, ctr) == ctr
  {}

  /** A taken relative `bc` with a displacement field of 0x2000 or more goes back. */
  lemma BackwardBranch<R>(img: Image<R>, s: Cpu<R>)
    requires img.at(s.nia).Valid() && img.at(s.nia).BranchCond?
    requires var i := img.at(s.nia); i.form == ToDisplacement && !i.aa && i.bd >= 0x2000 && Taken(i, s.core)
    ensures InterpStep(img, s).Some?
    ensures InterpStep(img, s).value.nia == (s.nia - (0x1_0000 - 4 * img.at(s.nia).bd)) % TWO_32
  {
    hide Taken, TakenInNumbers;
    var n := 4 * img.at(s.nia).bd - 0x1_0000;
    DivModIs(n, 0x1_0000, -1, 4 * img.at(s.nia).bd);
    TakenIs(img.at(s.nia), s.core);
    BranchCondInNumbers(img, s, n);
  }

  // ---------------------------------------------------------------- the interpreter itself

  /** `bcGeneric`'s template flags. */
  datatype BcFlags = BcFlags(checkCtr: bool, checkCond: bool, branchLr: bool, branchCtr: bool)

  const BC_FLAGS := BcFlags(true, true, false, false)
  const BCCTR_FLAGS := BcFlags(false, true, false, true)
  const BCLR_FLAGS := BcFlags(true, true, true, false)

  function FlagsOf(form: Form): BcFlags {
    match form
    case ToDisplacement => BC_FLAGS
    case ToCtr => BCCTR_FLAGS
    case ToLr => BCLR_FLAGS
  }

  class ThreadState<R> {
    var cia: u32
    var nia: u32
    var regs: R
    var lr: u32
    var ctr: u32
    var cr: u32

    constructor (regs: R, lr: u32, ctr: u32, cr: u32, nia: u32)
      ensures View() == Cpu(Core(regs, lr, ctr, cr), nia)
    {
      this.regs, this.lr, this.ctr, this.cr, this.nia := regs, lr, ctr, cr, nia;
      cia := 0;
    }

    function Registers(): Core<R>
      reads this
    {
      Core(regs, lr, ctr, cr)
    }

    function View(): Cpu<R>
      reads this
    {
      Cpu(Registers(), nia)
    }

    method B(instr: Instr)
      requires instr.Branch? && instr.Valid()
      modifies this
      ensures cia == old(cia)
      ensures forall img: Image<R> :: img.at(old(cia)) == instr ==>
        InterpStep(img, Cpu(old(Registers()), old(cia))) == Some(View())
    {
      var target := Displacement26(instr.li);
      if !instr.aa {
        target := Add32(target, cia);
      }
      nia := target;
      if instr.lk {
        lr := Add32(cia, 4);
      }
    }

    method BcGeneric(flags: BcFlags, instr: Instr)
      requires instr.BranchCond? && instr.Valid() && flags == FlagsOf(instr.form)
      requires nia == Add32(cia, 4)
      modifies this
      ensures cia == old(cia)
      ensures forall img: Image<R> :: img.at(old(cia)) == instr ==>
        InterpStep(img, Cpu(old(Registers()), old(cia))) == Some(View())
    {
      var bo := instr.bo;
      var ctrOk, condOk := true, true;

      if flags.checkCtr {
        if !BoBit(bo, NO_CHECK_CTR) {
          ctr := Decrement(ctr);
          ctrOk := (ctr != 0) != BoBit(bo, CTR_VALUE);
        }
      }

      if flags.checkCond {
        if !BoBit(bo, NO_CHECK_COND) {
          var crb := Bit(cr, 31 - instr.bi) == 1;
          condOk := crb == BoBit(bo, COND_VALUE);
        }
      }

      if ctrOk && condOk {
        var target;
        if flags.branchCtr {
          target := ClearLow2(ctr);
        } else if flags.branchLr {
          target := ClearLow2(lr);
        } else {
          target := Displacement16(instr.bd);
          if !instr.aa {
            target := Add32(target, cia);
          }
        }
        nia := target;
        if instr.lk {
          lr := Add32(cia, 4);
        }
      }
    }

    /**
     The interpreter loop, cut off after `fuel` iterations.  `ok` is false when an address did not
     decode, which is an assertion failure in the original.
     */
    method Execute(img: Image<R>, fuel: nat) returns (ok: bool)
      requires img.Valid()
      modifies this
      ensures ok ==> InterpRun(img, fuel, old(View())) == Some(View())
      ensures !ok ==> InterpRun(img, fuel, old(View())) == None
    {
      var left := fuel;
      while nia != CALLBACK_ADDR && left > 0
        invariant 0 <= left <= fuel
        invariant InterpRun(img, fuel, old(View())) == InterpRun(img, left, View())
        decreases left
      {
        ghost var before := View();
        cia := nia;
        nia := Add32(cia, 4);
        var instr := img.at(cia);
        match instr {
        case Undecodable =>
          return false;
        case Plain(w) =>
          var c := img.step(w, Registers());
          regs, lr, ctr, cr := c.regs, c.lr, c.ctr, c.cr;
        case Branch(_, _, _) =>
          B(instr);
        case BranchCond(form, _, _, _, _, _) =>
          BcGeneric(FlagsOf(form), instr);
        }
        assert InterpStep(img, before) == Some(View());
        left := left - 1;
      }
      return true;
    }

    /** Runs a guest function: LR is CALLBACK_ADDR while it runs and is put back afterwards. */
    method ExecuteSub(img: Image<R>, fuel: nat) returns (ok: bool)
      requires img.Valid()
      modifies this
      ensures ok ==>
        var start := old(View()).(core := old(Registers()).(lr := CALLBACK_ADDR));
        && InterpRun(img, fuel, start).Some?
        && View() == InterpRun(img, fuel, start).value.(core := InterpRun(img, fuel, start).value.core.(lr := old(lr)))
    {
      var saved := lr;
      lr := CALLBACK_ADDR;
      ok := Execute(img, fuel);
      lr := saved;
    }
  }
}
