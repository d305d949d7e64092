/**
 Addition and subtraction of 32-bit words with carry (src/cpu/interpreter/interpreter_integer.cpp), and the
 multi-word arithmetic built from them; Power ISA v2.07 Book I, section 3.3.9.
 */
module Carry {
  import opened Words

  // ---------------------------------------------------------------- state and instructions

  /** The flags that `addGeneric` is instantiated with. */
  datatype Flags = Flags(
    carry: bool, extended: bool, immediate: bool, checkRecord: bool, alwaysRecord: bool,
    shifted: bool, toZero: bool, toMinusOne: bool, zeroRA: bool, subtract: bool)

  const PLAIN := Flags(false, false, false, false, false, false, false, false, false, false)
  const ADD := PLAIN.(checkRecord := true)
  const ADDI := PLAIN.(immediate := true, zeroRA := true)
  const ADDIC := PLAIN.(immediate := true, carry := true)
  const ADDICX := PLAIN.(immediate := true, carry := true, alwaysRecord := true)
  const ADDIS := PLAIN.(immediate := true, shifted := true, zeroRA := true)
  const ADDME := PLAIN.(checkRecord := true, carry := true, extended := true, toMinusOne := true)
  const ADDZE := PLAIN.(checkRecord := true, carry := true, extended := true, toZero := true)
  const SUBF := PLAIN.(subtract := true, checkRecord := true)
  const SUBFIC := PLAIN.(immediate := true, carry := true, subtract := true)
  const SUBFME := PLAIN.(toMinusOne := true, extended := true, carry := true, checkRecord := true, subtract := true)
  const SUBFZE := PLAIN.(toZero := true, extended := true, carry := true, checkRecord := true, subtract := true)
  const ADDC := PLAIN.(carry := true, checkRecord := true)
  const ADDE := PLAIN.(extended := true, carry := true, checkRecord := true)
  const SUBFC := PLAIN.(carry := true, subtract := true, checkRecord := true)
  const SUBFE := PLAIN.(extended := true, carry := true, subtract := true, checkRecord := true)

  datatype Ins = Ins(rD: nat, rA: nat, rB: nat, simm: nat, oe: bool, rc: bool)
  {
    predicate Valid() {
      rD < 32 && rA < 32 && rB < 32 && simm < 0x1_0000
    }
  }

  /** General registers, XER[CA], XER[OV], XER[SO] and the first condition field. */
  datatype Regs = Regs(gpr: seq<u32>, ca: bool, ov: bool, so: bool, cr0: nat)
  {
    predicate Valid() {
      |gpr| == 32
    }
  }

  function Top(x: u32): bool {
    x >= 0x8000_0000
  }

  /** The value of a word as a signed number. */
  function Signed(x: u32): (v: int)
    ensures -0x8000_0000 <= v < 0x8000_0000 && (v == x || v == x - 0x1_0000_0000)
  {
    if Top(x) then x - TWO_32 else x
  }

  function SignExtend16(v: nat): u32
    requires v < 0x1_0000
  {
    if v >= 0x8000 then v + TWO_32 - 0x1_0000 else v
  }

  function OperandA(f: Flags, s: Regs, i: Ins): u32
    requires s.Valid() && i.Valid()
  {
    var a := if f.zeroRA && i.rA == 0 then 0 else s.gpr[i.rA];
    if f.subtract then TWO_32 - 1 - a else a
  }

  function OperandB(f: Flags, s: Regs, i: Ins): u32
    requires s.Valid() && i.Valid()
  {
    var b := if f.immediate then SignExtend16(i.simm) else if f.toZero then 0 else if f.toMinusOne then TWO_32 - 1 else s.gpr[i.rB];
    if f.shifted then (b * 0x1_0000) % TWO_32 else b
  }

  function CarryIn(f: Flags, s: Regs): int {
    if f.extended then (if s.ca then 1 else 0) else if f.subtract then 1 else 0
  }

  /** cr0 for a result: negative, positive or zero, and the summary overflow bit. */
  function Condition(d: u32, so: bool): nat {
    (if d == 0 then 2 else if Top(d) then 8 else 4) + if so then 1 else 0
  }

  predicate Records(f: Flags, i: Ins) {
    f.alwaysRecord || (f.checkRecord && i.rc)
  }

  /** What the instruction is for: the sum goes to rD, CA tells whether it left the word and OV whether it left
      the signed range. */
  function Sum(f: Flags, s: Regs, i: Ins): (s': Regs)
    requires s.Valid() && i.Valid()
    ensures s'.Valid()
  {
    var a, b, c := OperandA(f, s, i), OperandB(f, s, i), CarryIn(f, s);
    var d: u32 := (a + b + c) % TWO_32;
    var overflow := !(-0x8000_0000 <= Signed(a) + Signed(b) + c < 0x8000_0000);
    var checks := !f.alwaysRecord && f.checkRecord && i.oe;
    var so := if checks then s.so || overflow else s.so;
    Regs(s.gpr[i.rD := d], if f.carry then a + b + c >= TWO_32 else s.ca, if checks then overflow else s.ov, so,
         if Records(f, i) then Condition(d, so) else s.cr0)
  }

  // ---------------------------------------------------------------- the code

  /** A sum of two words and a bit in one word. */
  lemma WordSum(a: u32, b: u32, c: int)
    requires 0 <= c <= 1
    ensures (a + b + c) % TWO_32 == if a + b + c < TWO_32 then a + b + c else a + b + c - TWO_32
  {}

  /** The carry test of the code, against the sum. */
  lemma CarryTest(a: u32, b: u32, c: int, d: u32)
    requires 0 <= c <= 1 && d == (a + b + c) % TWO_32
    ensures (d < a || (d == a && b > 0)) <==> a + b + c >= TWO_32
  {
    WordSum(a, b, c);
  }

  /** The overflow test of the code, on the top bits of (a ^ d) & (b ^ d), against the signed sum. */
  lemma OverflowTest(a: u32, b: u32, c: int, d: u32)
    requires 0 <= c <= 1 && d == (a + b + c) % TWO_32
    ensures (Top(a) != Top(d) && Top(b) != Top(d)) <==> !(-0x8000_0000 <= Signed(a) + Signed(b) + c < 0x8000_0000)
  {
    WordSum(a, b, c);
  }

  /** The fields of the thread state that the integer instructions use. */
  class IntegerState {
    var gpr: array<u32>
    var ca: bool
    var ov: bool
    var so: bool
    var cr0: nat

    constructor (gpr: array<u32>)
      ensures this.gpr == gpr && !ca && !ov && !so && cr0 == 0
    {
      this.gpr, ca, ov, so, cr0 := gpr, false, false, false, 0;
    }

    function View(): Regs
      reads this, gpr
    {
      Regs(gpr[..], ca, ov, so, cr0)
    }

    method UpdateConditionRegister(value: u32)
      modifies this`cr0
      ensures cr0 == Condition(value, so)
    {
      var flags := 0;
      if value == 0 {
        flags := flags + 2;
      } else if Top(value) {
        flags := flags + 8;
      } else {
        flags := flags + 4;
      }
      if so {
        flags := flags + 1;
      }
      cr0 := flags;
    }

    /** The two operands of addGeneric. */
    method Operands(f: Flags, i: Ins) returns (a: u32, b: u32)
      requires gpr.Length == 32 && i.Valid()
      ensures a == OperandA(f, View(), i) && b == OperandB(f, View(), i)
    {
      if f.zeroRA && i.rA == 0 {
        a := 0;
      } else {
        a := gpr[i.rA];
      }
      if f.subtract {
        a := TWO_32 - 1 - a;
      }
      if f.immediate {
        b := SignExtend16(i.simm);
      } else if f.toZero {
        b := 0;
      } else if f.toMinusOne {
        b := TWO_32 - 1;
      } else {
        b := gpr[i.rB];
      }
      if f.shifted {
        b := (b * 0x1_0000) % TWO_32;
      }
    }

    /** The flags that addGeneric leaves for a result. */
    method Record(f: Flags, i: Ins, d: u32, overflow: bool)
      modifies this`ov, this`so, this`cr0
      ensures var checks := !f.alwaysRecord && f.checkRecord && i.oe;
        && ov == (if checks then overflow else old(ov))
        && so == (if checks then old(so) || overflow else old(so))
        && cr0 == (if Records(f, i) then Condition(d, so) else old(cr0))
    {
      if f.alwaysRecord {
        UpdateConditionRegister(d);
      } else if f.checkRecord {
        if i.oe {
          ov := overflow;
          so := so || overflow;
        }
        if i.rc {
          UpdateConditionRegister(d);
        }
      }
    }

    /** addGeneric */
    method AddGeneric(f: Flags, i: Ins)
      requires gpr.Length == 32 && i.Valid()
      modifies this`ca, this`ov, this`so, this`cr0, gpr
      ensures View() == Sum(f, old(View()), i)
    {
      hide OperandA, OperandB, Condition, Signed, Top, Add32, Records;
      var a, b := Operands(f, i);
      ghost var c := CarryIn(f, View());
      var d := Add32(a, b);
      if f.extended {
        d := Add32(d, if ca then 1 else 0);
      } else if f.subtract {
        d := Add32(d, 1);
      }
      AddTwice(a, b, c);
      CarryTest(a, b, c, d);
      OverflowTest(a, b, c, d);
      gpr[i.rD] := d;
      var carry := d < a || (d == a && b > 0);
      var overflow := Top(a) != Top(d) && Top(b) != Top(d);
      if f.carry {
        ca := carry;
      }
      Record(f, i, d, overflow);
    }
  }

  lemma AddTwice(a: u32, b: u32, c: int)
    requires 0 <= c <= 1
    ensures Add32(Add32(a, b), c) == (a + b + c) % TWO_32 && Add32(a, b) == (a + b) % TWO_32
  {}

  // ---------------------------------------------------------------- the instructions in numbers

  /** The immediate operand as a number. */
  function Immediate(i: Ins): (n: int)
    requires i.Valid()
    ensures -0x8000 <= n < 0x8000 && (n == i.simm || n == i.simm - 0x1_0000)
  {
    if i.simm < 0x8000 then i.simm else i.simm - 0x1_0000
  }

  /** rD and CA after an instruction. */
  predicate Gives(f: Flags, s: Regs, i: Ins, d: int, carry: bool)
    requires s.Valid() && i.Valid()
  {
    Sum(f, s, i).gpr == s.gpr[i.rD := d % 0x1_0000_0000] && Sum(f, s, i).ca == carry
  }

  /** A sum and the multiples of 2^32 in it. */
  lemma GivesFrom(f: Flags, s: Regs, i: Ins, d: int, m: int)
    requires s.Valid() && i.Valid()
    requires (OperandA(f, s, i) as int) + OperandB(f, s, i) + CarryIn(f, s) == d + m * TWO_32
    ensures Gives(f, s, i, d, if f.carry then d + m * TWO_32 >= TWO_32 else s.ca)
  {
    hide OperandA, OperandB, CarryIn, Condition, Signed, Records;
    assert d + m * TWO_32 == TWO_32 * (d / TWO_32 + m) + d % TWO_32;
    DivModIs(d + m * TWO_32, TWO_32, d / TWO_32 + m, d % TWO_32);
  }

  lemma ImmediateIs(i: Ins)
    requires i.Valid()
    ensures var n := Immediate(i);
      && SignExtend16(i.simm) as int == n + (if n < 0 then TWO_32 else 0)
      && (SignExtend16(i.simm) * 0x1_0000) % TWO_32 == 0x1_0000 * n + (if n < 0 then TWO_32 else 0)
  {
    var n := Immediate(i);
    if n < 0 {
      assert SignExtend16(i.simm) * 0x1_0000 == TWO_32 * 0xFFFF + (0x1_0000 * n + TWO_32);
      DivModIs(SignExtend16(i.simm) * 0x1_0000, TWO_32, 0xFFFF, 0x1_0000 * n + TWO_32);
    }
  }

  /** The forms with an immediate operand. */
  lemma ImmediatesInNumbers(s: Regs, i: Ins)
    requires s.Valid() && i.Valid()
    ensures var a: int, base: int, n := s.gpr[i.rA], if i.rA == 0 then 0 else s.gpr[i.rA], Immediate(i);
      && Gives(ADDI, s, i, base + n, s.ca) && Gives(ADDIS, s, i, base + 0x1_0000 * n, s.ca)
      && Gives(ADDIC, s, i, a + n, if n < 0 then a + n >= 0 else a + n >= 0x1_0000_0000)
      && Gives(ADDICX, s, i, a + n, if n < 0 then a + n >= 0 else a + n >= 0x1_0000_0000)
      && Gives(SUBFIC, s, i, n - a, if n < 0 then n + 0x1_0000_0000 >= a else n >= a)
  {
    hide Gives, SignExtend16, Immediate;
    ImmediateIs(i);
    var a: int, base: int, n := s.gpr[i.rA], if i.rA == 0 then 0 else s.gpr[i.rA], Immediate(i);
    var m := if n < 0 then 1 else 0;
    GivesFrom(ADDI, s, i, base + n, m);
    GivesFrom(ADDIS, s, i, base + 0x1_0000 * n, m);
    GivesFrom(ADDIC, s, i, a + n, m);
    GivesFrom(ADDICX, s, i, a + n, m);
    GivesFrom(SUBFIC, s, i, n - a, m + 1);
  }

  /** The forms that add zero or minus one to a register or to its complement, and the carry. */
  lemma ConstantsInNumbers(s: Regs, i: Ins)
    requires s.Valid() && i.Valid()
    ensures var a: int, c := s.gpr[i.rA], if s.ca then 1 else 0;
      && Gives(ADDZE, s, i, a + c, a + c >= 0x1_0000_0000)
      && Gives(ADDME, s, i, a - 1 + c, a + c >= 1)
      && Gives(SUBFZE, s, i, c - 1 - a, a == 0 && s.ca)
      && Gives(SUBFME, s, i, c - 2 - a, s.ca || a < 0xFFFF_FFFF)
  {
    hide Gives;
    var a: int, c := s.gpr[i.rA], if s.ca then 1 else 0;
    GivesFrom(ADDZE, s, i, a + c, 0);
    GivesFrom(ADDME, s, i, a - 1 + c, 1);
    GivesFrom(SUBFZE, s, i, c - 1 - a, 1);
    GivesFrom(SUBFME, s, i, c - 2 - a, 2);
  }

  /** add and subf: the word, no change of CA, and OV when the signed result leaves the signed range. */
  lemma AddAndSubtractInNumbers(s: Regs, i: Ins)
    requires s.Valid() && i.Valid()
    ensures var a: int, b: int := s.gpr[i.rA], s.gpr[i.rB];
      Gives(ADD, s, i, a + b, s.ca) && Gives(SUBF, s, i, b - a, s.ca)
    ensures var a, b := Signed(s.gpr[i.rA]), Signed(s.gpr[i.rB]);
      && (i.oe ==> Sum(ADD, s, i).ov == !(-0x8000_0000 <= a + b < 0x8000_0000))
      && (i.oe ==> Sum(SUBF, s, i).ov == !(-0x8000_0000 <= b - a < 0x8000_0000))
  {
    hide Gives, Condition;
    var a: int, b: int := s.gpr[i.rA], s.gpr[i.rB];
    GivesFrom(ADD, s, i, a + b, 0);
    GivesFrom(SUBF, s, i, b - a, 1);
    SignedComplement(s.gpr[i.rA]);
  }

  lemma SignedComplement(x: u32)
    ensures TWO_32 - 1 - x >= 0 && Signed(TWO_32 - 1 - x) == -1 - Signed(x)
  {}

  /**
   cr0 after an instruction that records: 8 for a negative result, 4 for a positive one, 2 for zero, and 1 for SO.
   OV and SO change only with oe, and an overflow stays in SO.
   */
  lemma RecordInNumbers(f: Flags, s: Regs, i: Ins)
    requires s.Valid() && i.Valid()
    ensures var s' := Sum(f, s, i);
      var d := s'.gpr[i.rD];
      && s'.cr0 == (if !f.alwaysRecord && !(f.checkRecord && i.rc) then s.cr0
                    else (if d == 0 then 2 else if d < 0x8000_0000 then 4 else 8) + (if s'.so then 1 else 0))
      && (if f.checkRecord && !f.alwaysRecord && i.oe then s'.so == (s.so || s'.ov) else s'.so == s.so && s'.ov == s.ov)
  {
    hide OperandA, OperandB, Signed;
  }

  // ---------------------------------------------------------------- many words

  function Radix(n: nat): (r: nat)
    ensures r > 0
  {
    if n == 0 then 1 else TWO_32 * Radix(n - 1)
  }

  /** The number made of words, lowest first. */
  function Value(words: seq<u32>): nat {
    if words == [] then 0 else words[0] + TWO_32 * Value(words[1..])
  }

  function Int(b: bool): int {
    if b then 1 else 0
  }

  /** An instruction with the registers it finds. */
  datatype Step = Step(before: Regs, ins: Ins)
  {
    predicate Valid() {
      before.Valid() && ins.Valid()
    }
  }

  function After(f: Flags, step: Step): (s: Regs)
    requires step.Valid()
    ensures s.Valid()
  {
    Sum(f, step.before, step.ins)
  }

  /** The words that a step finds in its source registers. */
  function WordA(step: Step): u32
    requires step.Valid()
  {
    step.before.gpr[step.ins.rA]
  }

  function WordB(step: Step): u32
    requires step.Valid()
  {
    step.before.gpr[step.ins.rB]
  }

  /** Steps of one instruction that hand the carry on; between two of them anything else may change. */
  predicate Linked(f: Flags, steps: seq<Step>) {
    && (forall k :: 0 <= k < |steps| ==> steps[k].Valid())
    && forall k :: 0 < k < |steps| ==> steps[k].before.ca == After(f, steps[k - 1]).ca
  }

  /** The words that the steps produce, and the words they read. */
  function Results(f: Flags, steps: seq<Step>): (words: seq<u32>)
    requires Linked(f, steps)
    ensures |words| == |steps|
  {
    seq(|steps|, k requires 0 <= k < |steps| => After(f, steps[k]).gpr[steps[k].ins.rD])
  }

  function SourcesA(f: Flags, steps: seq<Step>): (words: seq<u32>)
    requires Linked(f, steps)
    ensures |words| == |steps|
  {
    seq(|steps|, k requires 0 <= k < |steps| => OperandA(f, steps[k].before, steps[k].ins))
  }

  function SourcesB(f: Flags, steps: seq<Step>): (words: seq<u32>)
    requires Linked(f, steps)
    ensures |words| == |steps|
  {
    seq(|steps|, k requires 0 <= k < |steps| => OperandB(f, steps[k].before, steps[k].ins))
  }

  function CarryOut(f: Flags, steps: seq<Step>): bool
    requires Linked(f, steps) && steps != []
  {
    After(f, steps[|steps| - 1]).ca
  }

  predicate Extends(f: Flags) {
    f == ADDE || f == SUBFE
  }

  lemma OneWord(f: Flags, s: Regs, i: Ins)
    requires s.Valid() && i.Valid() && Extends(f)
    ensures var s' := Sum(f, s, i);
      s'.gpr[i.rD] + TWO_32 * Int(s'.ca) == OperandA(f, s, i) + OperandB(f, s, i) + Int(s.ca)
  {
    hide OperandA, OperandB;
    WordSum(OperandA(f, s, i), OperandB(f, s, i), CarryIn(f, s));
  }

  lemma Shifted(x: int, y: int, z: int, r: int, c: int)
    requires x + r * c == y
    ensures z + TWO_32 * x + (TWO_32 * r) * c == z + TWO_32 * y
  {
    assert (TWO_32 * r) * c == TWO_32 * (r * c);
  }

  /** Taking one step off takes the lowest word off the numbers. */
  lemma Peel(f: Flags, steps: seq<Step>)
    requires Linked(f, steps) && steps != []
    ensures Linked(f, steps[1..])
    ensures Results(f, steps) == [After(f, steps[0]).gpr[steps[0].ins.rD]] + Results(f, steps[1..])
    ensures SourcesA(f, steps) == [OperandA(f, steps[0].before, steps[0].ins)] + SourcesA(f, steps[1..])
    ensures SourcesB(f, steps) == [OperandB(f, steps[0].before, steps[0].ins)] + SourcesB(f, steps[1..])
  {
    hide Sum, OperandA, OperandB;
  }

  lemma ValueCons(w: u32, words: seq<u32>)
    ensures Value([w] + words) == w + TWO_32 * Value(words)
  {
    assert ([w] + words)[1..] == words;
  }

  /** A chain of extended instructions adds its numbers and the carry into it; CA is the carry out of it. */
  lemma {:induction false} ChainAdds(f: Flags, steps: seq<Step>)
    requires Linked(f, steps) && steps != [] && Extends(f)
    ensures Value(Results(f, steps)) + Radix(|steps|) * Int(CarryOut(f, steps))
      == Value(SourcesA(f, steps)) + Value(SourcesB(f, steps)) + Int(steps[0].before.ca)
    decreases |steps|
  {
    hide Sum, OperandA, OperandB, Results, SourcesA, SourcesB, Value;
    var s, i, rest := steps[0].before, steps[0].ins, steps[1..];
    OneWord(f, s, i);
    Peel(f, steps);
    ValueCons(Sum(f, s, i).gpr[i.rD], Results(f, rest));
    ValueCons(OperandA(f, s, i), SourcesA(f, rest));
    ValueCons(OperandB(f, s, i), SourcesB(f, rest));
    if rest == [] {
      NoWords(f);
    } else {
      ChainAdds(f, rest);
      Shifted(Value(Results(f, rest)), Value(SourcesA(f, rest)) + Value(SourcesB(f, rest)) + Int(rest[0].before.ca),
              Sum(f, s, i).gpr[i.rD], Radix(|rest|), Int(CarryOut(f, steps)));
    }
  }

  lemma NoWords(f: Flags)
    ensures Value(Results(f, [])) == 0 && Value(SourcesA(f, [])) == 0 && Value(SourcesB(f, [])) == 0
    ensures Radix(1) == TWO_32
  {
    assert Radix(1) == TWO_32 * Radix(0);
  }

  lemma {:induction false} ValueBelow(words: seq<u32>)
    ensures Value(words) < Radix(|words|)
  {
    if words != [] {
      ValueBelow(words[1..]);
      assert TWO_32 * (Value(words[1..]) + 1) <= TWO_32 * Radix(|words| - 1);
    }
  }

  /** The number whose words are complemented. */
  lemma {:induction false} ComplementValue(words: seq<u32>, complements: seq<u32>)
    requires |words| == |complements| && forall k :: 0 <= k < |words| ==> complements[k] == TWO_32 - 1 - words[k]
    ensures Value(complements) == Radix(|words|) - 1 - Value(words)
  {
    if words != [] {
      ComplementValue(words[1..], complements[1..]);
    }
  }

  lemma RadixCarry(r: int, d: int, c: bool, sum: int)
    requires r > 0 && 0 <= d < r && d + r * Int(c) == sum
    ensures d == sum % r && (c <==> sum >= r)
  {
    DivModIs(sum, r, Int(c), d);
  }

  lemma ChainModulo(f: Flags, steps: seq<Step>)
    requires Linked(f, steps) && steps != [] && Extends(f)
    ensures var r := Radix(|steps|);
      var total := Value(SourcesA(f, steps)) + Value(SourcesB(f, steps)) + Int(steps[0].before.ca);
      Value(Results(f, steps)) == total % r && (CarryOut(f, steps) <==> total >= r)
  {
    hide Sum, Radix, Value, Results, SourcesA, SourcesB, Linked, CarryOut;
    ChainAdds(f, steps);
    ValueBelow(Results(f, steps));
    RadixCarry(Radix(|steps|), Value(Results(f, steps)), CarryOut(f, steps),
               Value(SourcesA(f, steps)) + Value(SourcesB(f, steps)) + Int(steps[0].before.ca));
  }

  // ---------------------------------------------------------------- chains that start with addc or subfc

  /** `first`, and then `next` for each further word. */
  function FlagsAt(first: Flags, next: Flags, k: nat): Flags {
    if k == 0 then first else next
  }

  predicate Chained(first: Flags, next: Flags, steps: seq<Step>) {
    && steps != [] && (forall k :: 0 <= k < |steps| ==> steps[k].Valid())
    && forall k :: 0 < k < |steps| ==> steps[k].before.ca == After(FlagsAt(first, next, k - 1), steps[k - 1]).ca
  }

  /** The words in the registers that the steps name, as each step finds them. */
  function WordsA(steps: seq<Step>): (words: seq<u32>)
    requires forall k :: 0 <= k < |steps| ==> steps[k].Valid()
    ensures |words| == |steps|
  {
    seq(|steps|, k requires 0 <= k < |steps| => WordA(steps[k]))
  }

  function WordsB(steps: seq<Step>): (words: seq<u32>)
    requires forall k :: 0 <= k < |steps| ==> steps[k].Valid()
    ensures |words| == |steps|
  {
    seq(|steps|, k requires 0 <= k < |steps| => WordB(steps[k]))
  }

  function NumberA(steps: seq<Step>): nat
    requires forall k :: 0 <= k < |steps| ==> steps[k].Valid()
  {
    Value(WordsA(steps))
  }

  function NumberB(steps: seq<Step>): nat
    requires forall k :: 0 <= k < |steps| ==> steps[k].Valid()
  {
    Value(WordsB(steps))
  }

  /** The number in the registers that the steps leave. */
  function NumberD(first: Flags, next: Flags, steps: seq<Step>): nat
    requires Chained(first, next, steps)
  {
    Value(seq(|steps|, k requires 0 <= k < |steps| => After(FlagsAt(first, next, k), steps[k]).gpr[steps[k].ins.rD]))
  }

  function LastCarry(first: Flags, next: Flags, steps: seq<Step>): bool
    requires Chained(first, next, steps)
  {
    After(FlagsAt(first, next, |steps| - 1), steps[|steps| - 1]).ca
  }

  lemma FirstIsExtended(s: Regs, i: Ins)
    requires s.Valid() && i.Valid()
    ensures Sum(ADDC, s, i) == Sum(ADDE, s.(ca := false), i)
    ensures Sum(SUBFC, s, i) == Sum(SUBFE, s.(ca := true), i)
  {}

  /** The same steps with the carry that the first instruction implies. */
  function WithCarry(steps: seq<Step>, ca: bool): seq<Step>
    requires steps != []
  {
    steps[0 := steps[0].(before := steps[0].before.(ca := ca))]
  }

  /** A chain is a chain of extended instructions only, with the implied carry coming in. */
  lemma ChainIsExtended(first: Flags, next: Flags, steps: seq<Step>)
    requires Chained(first, next, steps) && ((first == ADDC && next == ADDE) || (first == SUBFC && next == SUBFE))
    ensures var steps' := WithCarry(steps, first == SUBFC);
      && Linked(next, steps') && CarryOut(next, steps') == LastCarry(first, next, steps)
      && Value(Results(next, steps')) == NumberD(first, next, steps)
  {
    hide Sum, Value;
    var steps' := WithCarry(steps, first == SUBFC);
    FirstIsExtended(steps[0].before, steps[0].ins);
    assert forall k :: 0 <= k < |steps| ==> After(next, steps'[k]) == After(FlagsAt(first, next, k), steps[k]);
    assert Results(next, steps') ==
      seq(|steps|, k requires 0 <= k < |steps| => After(FlagsAt(first, next, k), steps[k]).gpr[steps[k].ins.rD]);
  }

  lemma AddSources(steps: seq<Step>)
    requires Chained(ADDC, ADDE, steps) && Linked(ADDE, WithCarry(steps, false))
    ensures var steps' := WithCarry(steps, false);
      SourcesA(ADDE, steps') == WordsA(steps) && SourcesB(ADDE, steps') == WordsB(steps)
  {
    hide Sum;
  }

  lemma SubtractSources(steps: seq<Step>)
    requires Chained(SUBFC, SUBFE, steps) && Linked(SUBFE, WithCarry(steps, true))
    ensures var sources, words := SourcesA(SUBFE, WithCarry(steps, true)), WordsA(steps);
      forall k :: 0 <= k < |steps| ==> sources[k] == TWO_32 - 1 - words[k]
    ensures SourcesB(SUBFE, WithCarry(steps, true)) == WordsB(steps)
  {
    hide Sum;
  }

  /** addc and then adde: the sum of the two numbers modulo the radix, with CA the carry out. */
  lemma AddChain(steps: seq<Step>)
    requires Chained(ADDC, ADDE, steps)
    ensures var sum, r := NumberA(steps) + NumberB(steps), Radix(|steps|);
      NumberD(ADDC, ADDE, steps) == sum % r && (LastCarry(ADDC, ADDE, steps) <==> sum >= r)
  {
    hide Sum, Radix, Value, WordsA, WordsB, NumberD, SourcesA, SourcesB, Results, Linked, CarryOut, LastCarry;
    ChainIsExtended(ADDC, ADDE, steps);
    ChainModulo(ADDE, WithCarry(steps, false));
    AddSources(steps);
  }

  /** subfc and then subfe: the difference of the two numbers modulo the radix, with CA when nothing was borrowed. */
  lemma SubtractChain(steps: seq<Step>)
    requires Chained(SUBFC, SUBFE, steps)
    ensures NumberD(SUBFC, SUBFE, steps) == (NumberB(steps) - NumberA(steps)) % Radix(|steps|)
    ensures LastCarry(SUBFC, SUBFE, steps) <==> NumberB(steps) >= NumberA(steps)
  {
    hide Sum, Radix, Value, WordsA, WordsB, NumberD, SourcesA, SourcesB, Results, Linked, CarryOut, LastCarry;
    ChainIsExtended(SUBFC, SUBFE, steps);
    ChainModulo(SUBFE, WithCarry(steps, true));
    SubtractSources(steps);
    ComplementValue(WordsA(steps), SourcesA(SUBFE, WithCarry(steps, true)));
    WholeRadix(NumberB(steps) - NumberA(steps), Radix(|steps|));
  }

  lemma WholeRadix(n: int, r: int)
    requires r > 0
    ensures (n + r) % r == n % r
  {
    assert n + r == r * (n / r + 1) + n % r;
    DivModIs(n + r, r, n / r + 1, n % r);
  }

  // ---------------------------------------------------------------- chains in one register file

  /** The registers after a straight run of instructions. */
  function RunChain(first: Flags, next: Flags, s: Regs, prog: seq<Ins>): (s': Regs)
    requires s.Valid() && forall k :: 0 <= k < |prog| ==> prog[k].Valid()
    ensures s'.Valid()
    decreases |prog|
  {
    if prog == [] then s else RunChain(next, next, Sum(first, s, prog[0]), prog[1..])
  }

  function StepsOf(first: Flags, next: Flags, s: Regs, prog: seq<Ins>): (steps: seq<Step>)
    requires s.Valid() && forall k :: 0 <= k < |prog| ==> prog[k].Valid()
    ensures |steps| == |prog| && forall k :: 0 <= k < |prog| ==> steps[k].Valid() && steps[k].ins == prog[k]
    ensures prog != [] ==> steps[0].before == s
    decreases |prog|
  {
    if prog == [] then []
    else [Step(s, prog[0])] + StepsOf(next, next, Sum(first, s, prog[0]), prog[1..])
  }

  /** A straight run is a chain, whatever registers it uses, and ends with the chain's carry. */
  lemma {:induction false} RunIsChain(first: Flags, next: Flags, s: Regs, prog: seq<Ins>)
    requires s.Valid() && prog != [] && forall k :: 0 <= k < |prog| ==> prog[k].Valid()
    ensures Chained(first, next, StepsOf(first, next, s, prog))
    ensures LastCarry(first, next, StepsOf(first, next, s, prog)) == RunChain(first, next, s, prog).ca
    decreases |prog|
  {
    hide Sum;
    var rest := prog[1..];
    var steps := StepsOf(first, next, s, prog);
    if rest != [] {
      var s1 := Sum(first, s, prog[0]);
      RunIsChain(next, next, s1, rest);
      var tail := StepsOf(next, next, s1, rest);
      forall k | 0 < k < |steps|
        ensures steps[k].before.ca == After(FlagsAt(first, next, k - 1), steps[k - 1]).ca
      {
        if k > 1 {
          assert tail[k - 1].before.ca == After(FlagsAt(next, next, k - 2), tail[k - 2]).ca;
        }
      }
    }
  }

  /** Each instruction has its own target, and none reads an earlier one's. */
  predicate Apart(prog: seq<Ins>) {
    && (forall k :: 0 <= k < |prog| ==> prog[k].Valid())
    && forall j, k :: 0 <= j < k < |prog| ==> prog[j].rD !in {prog[k].rD, prog[k].rA, prog[k].rB}
  }

  lemma {:induction false} OthersKept(first: Flags, next: Flags, s: Regs, prog: seq<Ins>, r: nat)
    requires s.Valid() && Apart(prog) && r < 32 && forall k :: 0 <= k < |prog| ==> prog[k].rD != r
    ensures RunChain(first, next, s, prog).gpr[r] == s.gpr[r]
    ensures forall k :: 0 <= k < |prog| ==> StepsOf(first, next, s, prog)[k].before.gpr[r] == s.gpr[r]
    decreases |prog|
  {
    if prog != [] {
      OthersKept(next, next, Sum(first, s, prog[0]), prog[1..], r);
    }
  }

  lemma SumKeeps(f: Flags, s: Regs, i: Ins, r: nat)
    requires s.Valid() && i.Valid() && r < 32 && r != i.rD
    ensures Sum(f, s, i).gpr[r] == s.gpr[r]
  {}

  /** With registers apart, the numbers are those in the registers before and after the run. */
  lemma {:induction false} RegistersHold(first: Flags, next: Flags, s: Regs, prog: seq<Ins>, k: nat)
    requires s.Valid() && Apart(prog) && k < |prog|
    ensures var steps, s' := StepsOf(first, next, s, prog), RunChain(first, next, s, prog);
      && WordA(steps[k]) == s.gpr[prog[k].rA] && WordB(steps[k]) == s.gpr[prog[k].rB]
      && After(FlagsAt(first, next, k), steps[k]).gpr[prog[k].rD] == s'.gpr[prog[k].rD]
    decreases |prog|
  {
    hide Sum;
    var s1, rest := Sum(first, s, prog[0]), prog[1..];
    if k == 0 {
      OthersKept(next, next, s1, rest, prog[0].rD);
    } else {
      RegistersHold(next, next, s1, rest, k - 1);
      SumKeeps(first, s, prog[0], prog[k].rA);
      SumKeeps(first, s, prog[0], prog[k].rB);
      assert StepsOf(first, next, s, prog)[k] == StepsOf(next, next, s1, rest)[k - 1];
    }
  }

  /** What is in the registers that a program names. */
  function RegistersA(s: Regs, prog: seq<Ins>): nat
    requires s.Valid() && Apart(prog)
  {
    Value(seq(|prog|, k requires 0 <= k < |prog| => s.gpr[prog[k].rA]))
  }

  function RegistersB(s: Regs, prog: seq<Ins>): nat
    requires s.Valid() && Apart(prog)
  {
    Value(seq(|prog|, k requires 0 <= k < |prog| => s.gpr[prog[k].rB]))
  }

  function RegistersD(s: Regs, prog: seq<Ins>): nat
    requires s.Valid() && Apart(prog)
  {
    Value(seq(|prog|, k requires 0 <= k < |prog| => s.gpr[prog[k].rD]))
  }

  lemma RegistersAre(first: Flags, next: Flags, s: Regs, prog: seq<Ins>)
    requires s.Valid() && Apart(prog) && prog != []
    ensures var steps, s' := StepsOf(first, next, s, prog), RunChain(first, next, s, prog);
      && Chained(first, next, steps) && NumberD(first, next, steps) == RegistersD(s', prog)
      && NumberA(steps) == RegistersA(s, prog) && NumberB(steps) == RegistersB(s, prog)
  {
    hide Sum, Value, StepsOf, RunChain;
    RunIsChain(first, next, s, prog);
    var steps, s' := StepsOf(first, next, s, prog), RunChain(first, next, s, prog);
    forall k | 0 <= k < |prog|
      ensures WordA(steps[k]) == s.gpr[prog[k].rA] && WordB(steps[k]) == s.gpr[prog[k].rB]
      ensures After(FlagsAt(first, next, k), steps[k]).gpr[prog[k].rD] == s'.gpr[prog[k].rD]
    {
      RegistersHold(first, next, s, prog, k);
    }
    assert WordsA(steps) == seq(|prog|, k requires 0 <= k < |prog| => s.gpr[prog[k].rA]);
    assert WordsB(steps) == seq(|prog|, k requires 0 <= k < |prog| => s.gpr[prog[k].rB]);
    assert seq(|prog|, k requires 0 <= k < |prog| => s'.gpr[prog[k].rD]) ==
      seq(|steps|, k requires 0 <= k < |steps| => After(FlagsAt(first, next, k), steps[k]).gpr[steps[k].ins.rD]);
  }

  /** addc and adde in separate registers. */
  lemma AddInRegisters(s: Regs, prog: seq<Ins>)
    requires s.Valid() && Apart(prog) && prog != []
    ensures var s', sum, r := RunChain(ADDC, ADDE, s, prog), RegistersA(s, prog) + RegistersB(s, prog), Radix(|prog|);
      RegistersD(s', prog) == sum % r && (s'.ca <==> sum >= r)
  {
    hide Sum, Radix, Value, NumberA, NumberB, NumberD, LastCarry, RunChain, StepsOf, Chained, RegistersA, RegistersB, RegistersD;
    RegistersAre(ADDC, ADDE, s, prog);
    RunIsChain(ADDC, ADDE, s, prog);
    AddChain(StepsOf(ADDC, ADDE, s, prog));
  }

  /** subfc and subfe in separate registers. */
  lemma SubtractInRegisters(s: Regs, prog: seq<Ins>)
    requires s.Valid() && Apart(prog) && prog != []
    ensures var s', a, b := RunChain(SUBFC, SUBFE, s, prog), RegistersA(s, prog), RegistersB(s, prog);
      RegistersD(s', prog) == (b - a) % Radix(|prog|) && (s'.ca <==> b >= a)
  {
    hide Sum, Radix, Value, NumberA, NumberB, NumberD, LastCarry, RunChain, StepsOf, Chained, RegistersA, RegistersB, RegistersD;
    RegistersAre(SUBFC, SUBFE, s, prog);
    RunIsChain(SUBFC, SUBFE, s, prog);
    SubtractChain(StepsOf(SUBFC, SUBFE, s, prog));
  }
}
