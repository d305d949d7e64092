/**
 Branch relocation in the loader (src/loader.cpp): REL24 entries are patched into `b` instructions, through
 memoised trampolines when the symbol is out of reach.
 */
module Loader {
  import opened Wrappers
  import opened Words
  import opened PowerPc

  // ---------------------------------------------------------------- the b instruction

  const OPCODE_B: nat := 18
  const B_WORD: u32 := 0x4800_0000

  /** The fields of a `b` word: opcode, li, aa and lk. */
  function Opcode(w: u32): nat {
    w / 0x400_0000
  }

  function Li(w: u32): (li: nat)
    ensures li < 0x100_0000
  {
    (w / 4) % 0x100_0000
  }

  predicate Aa(w: u32) {
    (w / 2) % 2 == 1
  }

  predicate Lk(w: u32) {
    w % 2 == 1
  }

  /** The low 24 bits of `delta >> 2`, in two's complement. */
  function LiOf(delta: int): (li: nat)
    ensures li < 0x100_0000
  {
    (delta / 4) % 0x100_0000
  }

  /** (w & ~0x03FFFFFC) | (delta & 0x03FFFFFC) */
  function Patched(w: u32, delta: int): u32 {
    w - 4 * Li(w) + 4 * LiOf(delta)
  }

  lemma WordIs(w: u32)
    ensures w == 0x400_0000 * Opcode(w) + 4 * Li(w) + w % 4 && Opcode(w) < 64
    ensures w % 4 == (if Aa(w) then 2 else 0) + (if Lk(w) then 1 else 0)
  {
    assert w / 4 / 0x100_0000 == w / 0x400_0000;
  }

  lemma FieldsOf(w: u32, opcode: nat, li: nat, low: nat)
    requires opcode < 64 && li < 0x100_0000 && low < 4 && w == 0x400_0000 * opcode + 4 * li + low
    ensures Opcode(w) == opcode && Li(w) == li && w % 4 == low
    ensures (Aa(w) <==> low >= 2) && (Lk(w) <==> low % 2 == 1)
  {}

  /** Patching sets `li` and leaves the other fields. */
  lemma PatchedFields(w: u32, delta: int)
    ensures var p := Patched(w, delta);
      Opcode(p) == Opcode(w) && Li(p) == LiOf(delta) && (Aa(p) <==> Aa(w)) && (Lk(p) <==> Lk(w))
  {
    hide Li, Opcode, Aa, Lk, LiOf;
    WordIs(w);
    FieldsOf(w, Opcode(w), Li(w), w % 4);
    FieldsOf(Patched(w, delta), Opcode(w), LiOf(delta), w % 4);
  }

  /** Sign extension undoes the truncation of a displacement that fits in 26 bits. */
  lemma DisplacementOf(delta: int)
    requires delta % 4 == 0 && -0x200_0000 <= delta < 0x200_0000
    ensures Displacement26(LiOf(delta)) == delta % TWO_32
  {
    var k := delta / 4;
    assert delta == 4 * k;
    if delta >= 0 {
      assert LiOf(delta) == k;
    } else {
      assert LiOf(delta) == k + 0x100_0000;
      assert delta % TWO_32 == delta + TWO_32;
    }
  }

  // ---------------------------------------------------------------- what the interpreter does with it

  function Decode(w: u32): Instr {
    if Opcode(w) == OPCODE_B then Branch(Li(w), Aa(w), Lk(w)) else Plain(w)
  }

  function Fetch(words: map<u32, u32>, a: u32): Instr {
    if a in words then Decode(words[a]) else Undecodable
  }

  /** An image whose code is the given words. */
  function CodeOf<R>(img: Image<R>, words: map<u32, u32>): Image<R> {
    img.(at := (a: u32) => Fetch(words, a))
  }

  function Linked<R>(c: Core<R>, site: u32, lk: bool): Core<R> {
    if lk then c.(lr := Add32(site, 4)) else c
  }

  lemma BranchSteps<R>(img: Image<R>, words: map<u32, u32>, a: u32, c: Core<R>)
    requires a in words && Opcode(words[a]) == OPCODE_B
    ensures CodeOf(img, words).at(a).Valid()
    ensures InterpStep(CodeOf(img, words), Cpu(c, a)) ==
      Some(Cpu(Linked(c, a, Lk(words[a])), BranchTarget(Li(words[a]), Aa(words[a]), a)))
  {}

  /** A displacement taken relative to `from` leads to `to`, and taken as an address only from address 0. */
  lemma DisplacementLeads(from: u32, to: u32)
    requires (to - from) % 4 == 0 && -0x200_0000 <= to - from < 0x200_0000
    ensures Add32(Displacement26(LiOf(to - from)), from) == to
    ensures Displacement26(LiOf(to - from)) == to <==> from == 0
  {
    hide Displacement26, LiOf;
    DisplacementOf(to - from);
    Wrapped(from, to);
  }

  lemma Wrapped(from: u32, to: u32)
    ensures ((to - from) % TWO_32 + from) % TWO_32 == to
    ensures (to - from) % TWO_32 == to <==> from == 0
  {
    var d := to - from;
    DivModIs(d, TWO_32, if d >= 0 then 0 else -1, if d >= 0 then d else d + TWO_32);
  }

  /** A patched branch reaches a displacement in range exactly when it is relative (or sits at address 0). */
  lemma PatchedReaches(w: u32, site: u32, target: u32)
    requires (target - site) % 4 == 0 && -0x200_0000 <= target - site < 0x200_0000
    ensures BranchTarget(Li(Patched(w, target - site)), Aa(Patched(w, target - site)), site) == target <==> !Aa(w) || site == 0
  {
    hide Displacement26, Li, LiOf, Opcode, Aa, Lk, Patched, Add32;
    PatchedFields(w, target - site);
    DisplacementLeads(site, target);
  }

  // ---------------------------------------------------------------- trampolines

  predicate Short(target: u32, at: u32) {
    -0x1FF_FFFC < target - at < 0x1FF_FFFC
  }

  function RelativeB(delta: int): u32 {
    Patched(B_WORD, delta)
  }

  function AbsoluteB(target: u32): u32 {
    Patched(B_WORD, target) + 2
  }

  /** The trampoline's `b`: relative when short, absolute otherwise. */
  function TrampolineWord(target: u32, at: u32): u32 {
    if Short(target, at) then RelativeB(target - at) else AbsoluteB(target)
  }

  lemma TrampolineFields(target: u32, at: u32)
    ensures var w := TrampolineWord(target, at);
      && Opcode(w) == OPCODE_B && !Lk(w) && (Aa(w) <==> !Short(target, at))
      && Li(w) == LiOf(if Short(target, at) then target - at else target)
  {
    hide Li, Opcode, Aa, Lk, LiOf;
    FieldsOf(B_WORD, 18, 0, 0);
    FieldsOf(Patched(B_WORD, target - at), 18, LiOf(target - at), 0);
    FieldsOf(Patched(B_WORD, target), 18, LiOf(target), 0);
    FieldsOf(Patched(B_WORD, target) + 2, 18, LiOf(target), 2);
  }

  /** The absolute form is only right below 0x02000000, although it is used up to 0x03fffffc. */
  lemma AbsoluteReaches(target: u32)
    requires target % 4 == 0 && target < 0x3ff_fffc
    ensures Displacement26(LiOf(target)) == target <==> target < 0x200_0000
  {}

  /** A trampoline arrives exactly when its target is in relative range or below 0x02000000. */
  lemma TrampolineReaches(target: u32, at: u32)
    requires target % 4 == 0 && at % 4 == 0 && (Short(target, at) || target < 0x3ff_fffc)
    ensures BranchTarget(Li(TrampolineWord(target, at)), Aa(TrampolineWord(target, at)), at) == target
      <==> Short(target, at) || target < 0x200_0000
  {
    hide Displacement26, Li, LiOf, Opcode, Aa, Lk, TrampolineWord, Add32;
    TrampolineFields(target, at);
    if Short(target, at) {
      DisplacementLeads(at, target);
    } else {
      AbsoluteReaches(target);
    }
  }

  /** An absolute trampoline at 0x08000000 to 0x02000000 jumps to 0xfe000000. */
  lemma AbsoluteMisses()
    ensures var target, at := 0x200_0000, 0x800_0000;
      && !Short(target, at) && target < 0x3ff_fffc
      && BranchTarget(Li(TrampolineWord(target, at)), Aa(TrampolineWord(target, at)), at) == 0xfe00_0000
  {
    hide Li, Opcode, Aa, Lk, TrampolineWord;
    TrampolineFields(0x200_0000, 0x800_0000);
  }

  /** An absolute branch at 0x1000 that is patched to reach 0x2000 jumps to 0x1000. */
  lemma AbsoluteBranchMisses()
    ensures var w := 0x4800_0002;
      Aa(w) && BranchTarget(Li(Patched(w, 0x1000)), Aa(Patched(w, 0x1000)), 0x1000) == 0x1000
  {
    hide Li, Opcode, Aa, Lk, Patched;
    FieldsOf(0x4800_0002, 18, 0, 2);
    PatchedFields(0x4800_0002, 0x1000);
  }

  // ---------------------------------------------------------------- arriving

  /** `b` at `site`, and then the trampoline's if it goes to one, ends at `target` with LR as `lk` says. */
  ghost predicate Arrives<R>(img: Image<R>, words: map<u32, u32>, tramps: map<u32, u32>, site: u32, target: u32, lk: bool, c: Core<R>)
    requires CodeOf(img, words).at(site).Valid()
  {
    var code, there := CodeOf(img, words), Some(Cpu(Linked(c, site, lk), target));
    var first := InterpStep(code, Cpu(c, site));
    first == there
    || (first.Some? && first.value.nia in tramps.Values && code.at(first.value.nia).Valid() && InterpStep(code, first.value) == there)
  }

  /** A relocated site: patched to its symbol, or to the symbol's trampoline. */
  predicate Relocated(words: map<u32, u32>, tramps: map<u32, u32>, site: u32, symbol: u32, word: u32) {
    && site in words && Opcode(word) == OPCODE_B
    && if InReach(symbol - site) then words[site] == Patched(word, symbol - site)
       else symbol in tramps && InReach(tramps[symbol] - site) && words[site] == Patched(word, tramps[symbol] - site)
  }

  predicate InReach(delta: int) {
    -0x1FF_FFFC <= delta <= 0x1FF_FFFC
  }

  /** The trampolines made so far lie between `start` and `end`, each with its word. */
  ghost predicate TrampolinesOk(words: map<u32, u32>, tramps: map<u32, u32>, start: nat, end: nat) {
    forall symbol :: symbol in tramps ==>
      && start <= tramps[symbol] && tramps[symbol] + 4 <= end && tramps[symbol] % 4 == 0
      && tramps[symbol] in words && words[tramps[symbol]] == TrampolineWord(symbol, tramps[symbol])
      && (Short(symbol, tramps[symbol]) || symbol < 0x3ff_fffc)
  }

  /** No two symbols have the same trampoline. */
  ghost predicate OneEach(tramps: map<u32, u32>) {
    forall a, b :: a in tramps && b in tramps && a != b ==> tramps[a] != tramps[b]
  }

  /** A branch patched to `to` steps there. */
  lemma PatchedSteps<R>(img: Image<R>, words: map<u32, u32>, site: u32, to: u32, word: u32, c: Core<R>)
    requires site % 4 == 0 && to % 4 == 0 && !Aa(word) && Opcode(word) == OPCODE_B
    requires InReach(to - site) && site in words && words[site] == Patched(word, to - site)
    ensures CodeOf(img, words).at(site).Valid()
    ensures InterpStep(CodeOf(img, words), Cpu(c, site)) == Some(Cpu(Linked(c, site, Lk(word)), to))
  {
    hide Li, Opcode, Aa, Lk, Patched, InterpStep, CodeOf, BranchTarget, Linked;
    PatchedFields(word, to - site);
    PatchedReaches(word, site, to);
    BranchSteps(img, words, site, c);
  }

  /** What a trampoline does. */
  lemma TrampolineSteps<R>(img: Image<R>, words: map<u32, u32>, tramp: u32, symbol: u32, c: Core<R>)
    requires tramp % 4 == 0 && symbol % 4 == 0 && (Short(symbol, tramp) || symbol < 0x3ff_fffc)
    requires tramp in words && words[tramp] == TrampolineWord(symbol, tramp)
    ensures CodeOf(img, words).at(tramp).Valid()
    ensures InterpStep(CodeOf(img, words), Cpu(c, tramp)) == Some(Cpu(c, symbol)) <==> Short(symbol, tramp) || symbol < 0x200_0000
  {
    hide Li, Opcode, Aa, Lk, TrampolineWord, InterpStep, CodeOf, BranchTarget, Short;
    TrampolineFields(symbol, tramp);
    TrampolineReaches(symbol, tramp);
    BranchSteps(img, words, tramp, c);
  }

  lemma TrampolineIs(words: map<u32, u32>, tramps: map<u32, u32>, start: nat, end: nat, symbol: u32)
    requires TrampolinesOk(words, tramps, start, end) && symbol in tramps
    ensures tramps[symbol] % 4 == 0 && tramps[symbol] in words && tramps[symbol] in tramps.Values
    ensures words[tramps[symbol]] == TrampolineWord(symbol, tramps[symbol])
    ensures Short(symbol, tramps[symbol]) || symbol < 0x3ff_fffc
  {}

  /** A relocated relative branch arrives at its symbol, with LR as its own lk bit says, exactly when it
      needs no trampoline or its trampoline can encode the symbol. */
  lemma RelocatedArrives<R>(img: Image<R>, words: map<u32, u32>, tramps: map<u32, u32>, start: nat, end: nat,
                            site: u32, symbol: u32, word: u32, c: Core<R>)
    requires site % 4 == 0 && symbol % 4 == 0 && !Aa(word) && Relocated(words, tramps, site, symbol, word)
    requires TrampolinesOk(words, tramps, start, end) && symbol !in tramps.Values
    ensures CodeOf(img, words).at(site).Valid()
    ensures Arrives(img, words, tramps, site, symbol, Lk(word), c) <==>
      InReach(symbol - site) || Short(symbol, tramps[symbol]) || symbol < 0x200_0000
  {
    hide Opcode, Aa, Lk, Patched, TrampolineWord, InterpStep, CodeOf, Short, TrampolinesOk, Linked;
    if InReach(symbol - site) {
      PatchedSteps(img, words, site, symbol, word, c);
    } else {
      TrampolineIs(words, tramps, start, end, symbol);
      PatchedSteps(img, words, site, tramps[symbol], word, c);
      TrampolineSteps(img, words, tramps[symbol], symbol, Linked(c, site, Lk(word)));
    }
  }

  // ---------------------------------------------------------------- the code

  /** A relocation entry after section addresses and addend have been added in. */
  datatype Rel24 = Rel24(site: u32, symbol: u32)

  class SequentialMemoryTracker {
    const end: nat
    var ptr: nat

    constructor (start: nat, end: nat)
      ensures this.end == end && ptr == start
    {
      this.end, ptr := end, start;
    }

    /** `size` bytes at the next aligned address; false when there is no room. */
    method Get(size: nat, alignment: nat) returns (ok: bool, out: nat)
      requires alignment > 0 && IsPowerOfTwo(alignment)
      modifies this
      ensures old(ptr) <= out < old(ptr) + alignment && out % alignment == 0
      ensures ok <==> out + size <= end
      ensures ptr == if ok then out + size else old(ptr)
    {
      var alignOffset := AlignUp(ptr, alignment) - ptr;
      out := ptr + alignOffset;
      ok := out + size <= end;
      if ok {
        ptr := out + size;
      }
    }

    /** A word, at the default alignment of 4. */
    method GetWord() returns (ok: bool, out: nat)
      requires ptr % 4 == 0
      modifies this
      ensures out == old(ptr) && (ok <==> old(ptr) + 4 <= end) && ptr == old(ptr) + if ok then 4 else 0
    {
      assert Pow2(2) == 4;
      ok, out := Get(4, 4);
    }
  }

  /** Relocations that leave the trampoline area and each other alone. */
  ghost predicate Separate(relas: seq<Rel24>, words: map<u32, u32>, start: nat, end: nat) {
    && (forall k :: 0 <= k < |relas| ==>
          relas[k].site in words && (relas[k].site + 4 <= start || end <= relas[k].site))
    && (forall j, k :: 0 <= j < k < |relas| ==> relas[j].site != relas[k].site)
  }

  /** The first `n` relocations are done and the words of the others are as they were. */
  ghost predicate DoneUpTo(relas: seq<Rel24>, before: map<u32, u32>, words: map<u32, u32>, tramps: map<u32, u32>, n: nat)
    requires n <= |relas| && forall k :: 0 <= k < |relas| ==> relas[k].site in before
  {
    && (forall k :: 0 <= k < n ==> Relocated(words, tramps, relas[k].site, relas[k].symbol, before[relas[k].site]))
    && (forall k :: n <= k < |relas| ==> relas[k].site in words && words[relas[k].site] == before[relas[k].site])
  }

  /** Relative branches at word addresses, to symbols outside the trampoline area. */
  ghost predicate RelativeSites(relas: seq<Rel24>, before: map<u32, u32>, start: nat, end: nat) {
    forall k :: 0 <= k < |relas| ==>
      && relas[k].site in before && !Aa(before[relas[k].site]) && relas[k].site % 4 == 0
      && relas[k].symbol % 4 == 0 && (relas[k].symbol < start || end <= relas[k].symbol)
  }

  /** The symbol is in reach of the site or of its trampoline, or low enough for an absolute branch. */
  predicate Encodable(tramps: map<u32, u32>, rela: Rel24) {
    || InReach(rela.symbol - rela.site)
    || (rela.symbol in tramps && Short(rela.symbol, tramps[rela.symbol]))
    || rela.symbol < 0x200_0000
  }

  /** After a successful pass each site arrives at its symbol exactly when its symbol can be encoded. */
  lemma PassArrives<R>(img: Image<R>, relas: seq<Rel24>, before: map<u32, u32>, words: map<u32, u32>,
                       tramps: map<u32, u32>, start: nat, end: nat, k: nat, c: Core<R>)
    requires RelativeSites(relas, before, start, end) && k < |relas|
    requires DoneUpTo(relas, before, words, tramps, |relas|) && TrampolinesOk(words, tramps, start, end)
    ensures CodeOf(img, words).at(relas[k].site).Valid()
    ensures Arrives(img, words, tramps, relas[k].site, relas[k].symbol, Lk(before[relas[k].site]), c)
      <==> Encodable(tramps, relas[k])
  {
    hide Opcode, Patched, TrampolineWord, InterpStep, CodeOf, Arrives;
    var rela := relas[k];
    assert rela.symbol !in tramps.Values;
    RelocatedArrives(img, words, tramps, start, end, rela.site, rela.symbol, before[rela.site], c);
  }

  /** Where a trampoline's branch jumps. */
  function JumpOf(symbol: u32, at: u32): u32 {
    BranchTarget(Li(TrampolineWord(symbol, at)), Aa(TrampolineWord(symbol, at)), at)
  }

  /** An address that is the symbol, or that of a trampoline which jumps there. */
  ghost predicate Leads(tramps: map<u32, u32>, to: u32, symbol: u32) {
    to == symbol || exists other :: other in tramps && tramps[other] == to && JumpOf(other, to) == symbol
  }

  /** What a site is patched to reach: its symbol, or its symbol's trampoline. */
  function Goal(tramps: map<u32, u32>, rela: Rel24): u32 {
    if InReach(rela.symbol - rela.site) || rela.symbol !in tramps then rela.symbol else tramps[rela.symbol]
  }

  /** Where a patched site goes: an absolute branch takes its displacement for an address. */
  function Landing(tramps: map<u32, u32>, rela: Rel24, aa: bool): u32 {
    if aa then (Goal(tramps, rela) - rela.site) % TWO_32 else Goal(tramps, rela)
  }

  /** The step of a patched absolute branch. */
  lemma PatchedAbsolute<R>(img: Image<R>, words: map<u32, u32>, site: u32, to: u32, word: u32, c: Core<R>)
    requires site % 4 == 0 && to % 4 == 0 && Aa(word) && Opcode(word) == OPCODE_B
    requires InReach(to - site) && site in words && words[site] == Patched(word, to - site)
    ensures CodeOf(img, words).at(site).Valid()
    ensures InterpStep(CodeOf(img, words), Cpu(c, site)) == Some(Cpu(Linked(c, site, Lk(word)), (to - site) % TWO_32))
  {
    hide Li, Opcode, Aa, Lk, Patched, InterpStep, CodeOf, Linked, Displacement26, LiOf;
    PatchedFields(word, to - site);
    DisplacementOf(to - site);
    BranchSteps(img, words, site, c);
  }

  /**
   After a successful pass any site, relative or absolute, arrives exactly when it lands on its symbol or on
   a trampoline that jumps there.
   */
  lemma PassArrivesExactlyWhen<R>(img: Image<R>, relas: seq<Rel24>, before: map<u32, u32>, words: map<u32, u32>,
                                  tramps: map<u32, u32>, start: nat, end: nat, k: nat, c: Core<R>)
    requires k < |relas| && (forall i :: 0 <= i < |relas| ==> relas[i].site in before)
    requires relas[k].site % 4 == 0 && relas[k].symbol % 4 == 0
    requires DoneUpTo(relas, before, words, tramps, |relas|) && TrampolinesOk(words, tramps, start, end)
    ensures CodeOf(img, words).at(relas[k].site).Valid()
    ensures Arrives(img, words, tramps, relas[k].site, relas[k].symbol, Lk(before[relas[k].site]), c)
      <==> Leads(tramps, Landing(tramps, relas[k], Aa(before[relas[k].site])), relas[k].symbol)
  {
    hide Opcode, Patched, InterpStep, CodeOf, TrampolinesOk, Linked, JumpOf, Aa, Lk, Displacement26;
    var rela := relas[k];
    var word := before[rela.site];
    assert Relocated(words, tramps, rela.site, rela.symbol, word);
    if !InReach(rela.symbol - rela.site) {
      TrampolineIs(words, tramps, start, end, rela.symbol);
    }
    var landed := Landing(tramps, rela, Aa(word));
    if Aa(word) {
      PatchedAbsolute(img, words, rela.site, Goal(tramps, rela), word, c);
    } else {
      PatchedSteps(img, words, rela.site, Goal(tramps, rela), word, c);
    }
    if other :| other in tramps && tramps[other] == landed {
      TrampolineJumps(img, words, tramps, start, end, other, Linked(c, rela.site, Lk(word)));
      forall x | x in tramps && tramps[x] == landed
        ensures JumpOf(x, landed) == JumpOf(other, landed)
      {
        TrampolineJumps(img, words, tramps, start, end, x, Linked(c, rela.site, Lk(word)));
      }
    }
  }

  lemma TrampolineJumps<R>(img: Image<R>, words: map<u32, u32>, tramps: map<u32, u32>, start: nat, end: nat,
                           symbol: u32, c: Core<R>)
    requires TrampolinesOk(words, tramps, start, end) && symbol in tramps
    ensures tramps[symbol] in tramps.Values && CodeOf(img, words).at(tramps[symbol]).Valid()
    ensures InterpStep(CodeOf(img, words), Cpu(c, tramps[symbol])) == Some(Cpu(c, JumpOf(symbol, tramps[symbol])))
  {
    hide Li, Opcode, Aa, Lk, TrampolineWord, InterpStep, CodeOf, BranchTarget, Short;
    TrampolineFields(symbol, tramps[symbol]);
    BranchSteps(img, words, tramps[symbol], c);
  }

  /** Words outside the area and the sites do not change. */
  ghost predicate OthersKept(relas: seq<Rel24>, before: map<u32, u32>, words: map<u32, u32>, start: nat, end: nat) {
    forall a :: a in before && (a < start || end <= a) && (forall k :: 0 <= k < |relas| ==> relas[k].site != a) ==>
      a in words && words[a] == before[a]
  }

  /** One more trampoline at the end of the area. */
  lemma TrampolineAdded(words: map<u32, u32>, tramps: map<u32, u32>, start: nat, at: nat, target: u32)
    requires TrampolinesOk(words, tramps, start, at) && OneEach(tramps) && target !in tramps
    requires start <= at && at % 4 == 0 && at + 4 <= TWO_32 && (Short(target, at) || target < 0x3ff_fffc)
    ensures TrampolinesOk(words[at := TrampolineWord(target, at)], tramps[target := at], start, at + 4)
    ensures OneEach(tramps[target := at])
  {
    hide TrampolineWord;
  }

  /** Words outside the area, other than `site`, do not change. */
  ghost predicate KeptExcept(before: map<u32, u32>, words: map<u32, u32>, start: nat, end: nat, site: int) {
    forall a :: a in before && (a < start || end <= a) && a != site ==> a in words && words[a] == before[a]
  }

  lemma SiteWritten(words: map<u32, u32>, tramps: map<u32, u32>, start: nat, end: nat, site: u32, w: u32)
    requires TrampolinesOk(words, tramps, start, end) && (site + 4 <= start || end <= site)
    ensures TrampolinesOk(words[site := w], tramps, start, end)
  {
    hide TrampolineWord, Short;
  }

  ghost predicate Extends(before: map<u32, u32>, tramps: map<u32, u32>) {
    forall t :: t in before ==> t in tramps && tramps[t] == before[t]
  }

  /** What is done stays done when only another word and new trampolines are written. */
  lemma StillDone(relas: seq<Rel24>, first: map<u32, u32>, words: map<u32, u32>, words': map<u32, u32>,
                  tramps: map<u32, u32>, tramps': map<u32, u32>, start: nat, end: nat, k: nat)
    requires k < |relas| && Separate(relas, first, start, end) && DoneUpTo(relas, first, words, tramps, k)
    requires KeptExcept(words, words', start, end, relas[k].site) && Extends(tramps, tramps')
    requires relas[k].site in words' && words'[relas[k].site] == first[relas[k].site]
    ensures DoneUpTo(relas, first, words', tramps', k)
  {
    hide Patched, Opcode;
    forall j | 0 <= j < k
      ensures Relocated(words', tramps', relas[j].site, relas[j].symbol, first[relas[j].site])
    {
      assert Relocated(words, tramps, relas[j].site, relas[j].symbol, first[relas[j].site]);
    }
  }

  lemma OneMore(relas: seq<Rel24>, first: map<u32, u32>, words: map<u32, u32>, words': map<u32, u32>,
                tramps: map<u32, u32>, tramps': map<u32, u32>, start: nat, end: nat, k: nat)
    requires k < |relas| && Separate(relas, first, start, end) && DoneUpTo(relas, first, words, tramps, k)
    requires KeptExcept(words, words', start, end, relas[k].site) && Extends(tramps, tramps')
    requires relas[k].site in words && Relocated(words', tramps', relas[k].site, relas[k].symbol, words[relas[k].site])
    ensures DoneUpTo(relas, first, words', tramps', k + 1)
  {
    hide Patched, Opcode;
    forall j | 0 <= j < k
      ensures Relocated(words', tramps', relas[j].site, relas[j].symbol, first[relas[j].site])
    {
      assert Relocated(words, tramps, relas[j].site, relas[j].symbol, first[relas[j].site]);
    }
  }

  lemma Nothing(relas: seq<Rel24>, words: map<u32, u32>, tramps: map<u32, u32>, start: nat, end: nat)
    requires Separate(relas, words, start, end)
    ensures DoneUpTo(relas, words, words, tramps, 0)
  {}

  lemma Pending(relas: seq<Rel24>, first: map<u32, u32>, words: map<u32, u32>, tramps: map<u32, u32>, k: nat)
    requires k < |relas| && forall j :: 0 <= j < |relas| ==> relas[j].site in first
    requires DoneUpTo(relas, first, words, tramps, k)
    ensures relas[k].site in words && words[relas[k].site] == first[relas[k].site]
  {}

  /** Where a trampoline to a target is or would be: an earlier one, or the next word if that can hold the branch. */
  function TrampolineFor(tramps: map<u32, u32>, ptr: nat, end: nat, target: u32): Option<nat> {
    if target in tramps then Some(tramps[target])
    else if ptr + 4 <= end && (-0x1FF_FFFC < target - ptr < 0x1FF_FFFC || target < 0x3FF_FFFC) then Some(ptr)
    else None
  }

  /** A `b` whose symbol, or whose trampoline, is at most 0x1fffffc bytes away. */
  predicate CanRelocate(words: map<u32, u32>, tramps: map<u32, u32>, ptr: nat, end: nat, site: u32, symbol: u32)
    requires site in words
  {
    var tramp := TrampolineFor(tramps, ptr, end, symbol);
    && words[site] / 0x400_0000 == 18
    && (-0x1FF_FFFC <= symbol - site <= 0x1FF_FFFC || (tramp.Some? && -0x1FF_FFFC <= tramp.value - site <= 0x1FF_FFFC))
  }

  class RelocationPass {
    const codeSeg: SequentialMemoryTracker
    const start: nat
    var words: map<u32, u32>
    var trampolines: map<u32, u32>

    constructor (words: map<u32, u32>, codeSeg: SequentialMemoryTracker)
      requires codeSeg.ptr % 4 == 0 && codeSeg.ptr <= codeSeg.end <= TWO_32
      ensures this.words == words && this.codeSeg == codeSeg && start == codeSeg.ptr && trampolines == map[] && Valid()
    {
      this.words, this.codeSeg, start, trampolines := words, codeSeg, codeSeg.ptr, map[];
    }

    ghost predicate Valid()
      reads this, codeSeg
    {
      && codeSeg.ptr % 4 == 0 && start <= codeSeg.ptr <= codeSeg.end <= TWO_32
      && TrampolinesOk(words, trampolines, start, codeSeg.ptr) && OneEach(trampolines)
    }

    /** The relocations before `k` are done, and that one cannot be. */
    ghost predicate StuckAt(relas: seq<Rel24>, before: map<u32, u32>, k: nat)
      requires k < |relas| && forall j :: 0 <= j < |relas| ==> relas[j].site in before
      reads this, codeSeg
    {
      && DoneUpTo(relas, before, words, trampolines, k) && relas[k].site in words
      && !CanRelocate(words, trampolines, codeSeg.ptr, codeSeg.end, relas[k].site, relas[k].symbol)
    }

    /** getTrampAddress; none when an assertion fails. */
    method GetTrampAddress(target: u32) returns (result: Option<u32>)
      requires Valid()
      modifies this, codeSeg
      ensures Valid() && old(codeSeg.ptr) <= codeSeg.ptr
      ensures KeptExcept(old(words), words, old(codeSeg.ptr), codeSeg.end, -1)
      ensures Extends(old(trampolines), trampolines)
      ensures result == TrampolineFor(old(trampolines), old(codeSeg.ptr), codeSeg.end, target)
      ensures trampolines == if result.Some? then old(trampolines)[target := result.value] else old(trampolines)
      ensures codeSeg.ptr == old(codeSeg.ptr) + if trampolines == old(trampolines) then 0 else 4
    {
      hide RelativeB, AbsoluteB, TrampolinesOk, OneEach, Pow2;
      var trampAddr := codeSeg.ptr;
      if target !in trampolines && trampAddr + 4 <= codeSeg.end && (Short(target, trampAddr) || target < 0x3ff_fffc) {
        TrampolineAdded(words, trampolines, start, trampAddr, target);
      }
      if target in trampolines {
        return Some(trampolines[target]);
      }
      var delta := target - trampAddr;
      if -0x1FF_FFFC < delta < 0x1FF_FFFC {
        var ok, tramp := codeSeg.GetWord();
        if !ok {
          return None;
        }
        words := words[tramp := RelativeB(delta)];
      } else if target < 0x3ff_fffc {
        var ok, tramp := codeSeg.GetWord();
        if !ok {
          return None;
        }
        words := words[tramp := AbsoluteB(target)];
      } else {
        return None;
      }
      trampolines := trampolines[target := trampAddr];
      return Some(trampAddr);
    }

    /** The REL24 case of processRelocations for one entry; false when an assertion fails. */
    method Relocate(site: u32, symbol: u32) returns (ok: bool)
      requires Valid() && site in words && (site + 4 <= start || codeSeg.end <= site)
      modifies this, codeSeg
      ensures Valid() && old(codeSeg.ptr) <= codeSeg.ptr
      ensures KeptExcept(old(words), words, old(codeSeg.ptr), codeSeg.end, site)
      ensures Extends(old(trampolines), trampolines)
      ensures ok <==> CanRelocate(old(words), old(trampolines), old(codeSeg.ptr), codeSeg.end, site, symbol)
      ensures ok ==> Relocated(words, trampolines, site, symbol, old(words[site]))
      ensures ok && -0x1FF_FFFC <= symbol - site <= 0x1FF_FFFC ==>
        words == old(words)[site := Patched(old(words[site]), symbol - site)] && trampolines == old(trampolines)
      ensures !ok ==> site in words && words[site] == old(words[site])
      ensures !ok ==> !CanRelocate(words, trampolines, codeSeg.ptr, codeSeg.end, site, symbol)
    {
      hide Patched, TrampolinesOk, OneEach;
      if Opcode(words[site]) != OPCODE_B {
        return false;
      }
      var delta := symbol - site;
      if delta < -0x1FF_FFFC || delta > 0x1FF_FFFC {
        var trampAddr := GetTrampAddress(symbol);
        if trampAddr.None? {
          return false;
        }
        delta := trampAddr.value - site;
      }
      ok := -0x1FF_FFFC <= delta <= 0x1FF_FFFC;
      if ok {
        SiteWritten(words, trampolines, start, codeSeg.ptr, site, Patched(words[site], delta));
        words := words[site := Patched(words[site], delta)];
      }
    }

    /** The REL24 entries of processRelocations in turn. */
    method ProcessRelocations(relas: seq<Rel24>) returns (ok: bool)
      requires Valid() && Separate(relas, words, start, codeSeg.end)
      modifies this, codeSeg
      ensures Valid()
      ensures ok ==> DoneUpTo(relas, old(words), words, trampolines, |relas|)
      ensures !ok ==> exists k :: 0 <= k < |relas| && StuckAt(relas, old(words), k)
      ensures OthersKept(relas, old(words), words, start, codeSeg.end)
      ensures Extends(old(trampolines), trampolines)
    {
      hide Relocated, DoneUpTo, TrampolinesOk, OneEach;
      Nothing(relas, words, trampolines, start, codeSeg.end);
      for k := 0 to |relas|
        invariant Valid()
        invariant DoneUpTo(relas, old(words), words, trampolines, k)
        invariant OthersKept(relas, old(words), words, start, codeSeg.end)
        invariant Extends(old(trampolines), trampolines)
      {
        ghost var words', tramps := words, trampolines;
        Pending(relas, old(words), words, trampolines, k);
        var done := Relocate(relas[k].site, relas[k].symbol);
        if !done {
          StillDone(relas, old(words), words', words, tramps, trampolines, start, codeSeg.end, k);
          assert StuckAt(relas, old(words), k);
          return false;
        }
        OneMore(relas, old(words), words', words, tramps, trampolines, start, codeSeg.end, k);
      }
      return true;
    }
  }
}
