/**
 The JIT's outer loop and cache as a state machine, and the theorem that it reaches CALLBACK_ADDR
 exactly when the interpreter does, with the same registers.
 */
module JitSimulation {
  import opened Wrappers
  import opened Words
  import opened PowerPc
  import opened JitMachine
  import opened JitCompiler

  /** What the theorem asks of the code image. */
  ghost predicate Sane<R>(img: Image<R>) {
    && img.Valid() && NoWrap(img)
    && img.at(0).Undecodable? && img.at(CALLBACK_ADDR).Undecodable?
    && forall a: u32 :: Faithful(img.at(a), a)
  }

  lemma SaneIsValid<R>(img: Image<R>)
    requires Sane(img)
    ensures img.Valid() && NoWrap(img)
  {}

  // ---------------------------------------------------------------- one instruction in a block

  datatype Block = Block(start: u32, end: u32, labels: set<u32>)

  /** The block compiles and its labels are addresses of its own instructions. */
  ghost predicate GoodBlock<R>(img: Image<R>, b: Block) {
    && img.Valid() && Emittable(img, b.start, b.end)
    && forall t :: t in b.labels ==> b.start <= t < b.end && t % 4 == 0
  }

  function CodeOf<R>(img: Image<R>, b: Block): Code
    requires GoodBlock(img, b)
  {
    GenSpec(img, b.start, b.end, b.labels)
  }

  /** The host is about to run the code of the instruction at `s.nia`, or the trailing exit. */
  ghost predicate Poised<R>(img: Image<R>, b: Block, h: Host<R>, s: Cpu<R>)
    requires GoodBlock(img, b)
  {
    && h.Go? && h.core == s.core && b.start <= s.nia <= b.end && s.nia % 4 == 0
    && h.pc == Offset(img, b.start, b.end, b.labels, s.nia)
  }

  /** Every label of a block is bound at the code of its instruction. */
  lemma LabelsBound<R>(img: Image<R>, b: Block)
    requires GoodBlock(img, b)
    ensures forall t :: t in b.labels ==>
      Target(t) in CodeOf(img, b).bound
      && CodeOf(img, b).bound[Target(t)] == Offset(img, b.start, b.end, b.labels, t)
  {
    forall t | t in b.labels
      ensures Target(t) in CodeOf(img, b).bound
        && CodeOf(img, b).bound[Target(t)] == Offset(img, b.start, b.end, b.labels, t)
    {
      NextFits(t, b.end);
      PieceAt(img, b.start, b.end, b.labels, t);
    }
  }

  /** A branch that is taken. */
  ghost predicate Jumps<R>(instr: Instr, c: Core<R>)
    requires instr.Valid()
  {
    instr.Branch? || (instr.BranchCond? && Taken(instr, c))
  }

  /** The operations between `MovCia` and `Nop`: they land somewhere or fall through. */
  lemma RunOps<R>(img: Image<R>, code: Code, labels: set<u32>, instr: Instr, a: u32, h: Host<R>)
    returns (k: nat, h': Host<R>)
    requires instr.Valid() && !instr.Undecodable? && h.Go? && At(code, h.pc, InstrOps(instr, a, labels))
    requires forall t :: t in labels ==> Target(t) in code.bound
    requires instr.BranchCond? ==>
      CondFail(a) in code.bound && code.bound[CondFail(a)] == h.pc + |InstrOps(instr, a, labels)|
    ensures Steps(img, code, h, k, h')
    ensures var s' := Compiled(img, instr, a, h.core);
      || Landed(code, labels, h', s')
      || (h'.Go? && h'.core == s'.core && h'.pc == h.pc + |InstrOps(instr, a, labels)| && s'.nia == Add32(a, 4))
    ensures Jumps(instr, h.core) ==> Landed(code, labels, h', Compiled(img, instr, a, h.core))
  {
    match instr
    case Branch(_, _, _) =>
      k, h' := RunBranch(img, code, labels, instr, a, h);
    case BranchCond(_, _, _, _, _, _) =>
      k, h' := RunBranchCond(img, code, labels, instr, a, h);
    case Plain(w) =>
      AtIndex(code, h.pc, [Native(w)], 0);
      k, h' := 1, HostStep(img, code, h);
      assert Steps(img, code, h', 0, h');
  }

  /** A whole piece: `MovCia`, the instruction's operations, `Nop`. */
  lemma RunPiece<R>(img: Image<R>, code: Code, labels: set<u32>, instr: Instr, a: u32, h: Host<R>)
    returns (k: nat, h': Host<R>)
    requires instr.Valid() && !instr.Undecodable? && h.Go?
    requires Piece(code, h.pc, InstrOps(instr, a, labels), instr.BranchCond?, a, labels)
    requires forall t :: t in labels ==> Target(t) in code.bound
    ensures k >= 1 && Steps(img, code, h, k, h')
    ensures var s' := Compiled(img, instr, a, h.core);
      || Landed(code, labels, h', s')
      || (h'.Go? && h'.core == s'.core && h'.pc == h.pc + |InstrOps(instr, a, labels)| + 2 && s'.nia == Add32(a, 4))
    ensures Jumps(instr, h.core) ==> Landed(code, labels, h', Compiled(img, instr, a, h.core))
  {
    hide InstrOps, Compiled, At, Landed;
    var ops := InstrOps(instr, a, labels);
    AtSplit(code, h.pc, [MovCia(a)] + ops, [Nop]);
    AtSplit(code, h.pc, [MovCia(a)], ops);
    AtIndex(code, h.pc, [MovCia(a)], 0);
    var h1 := HostStep(img, code, h);
    var j, h2 := RunOps(img, code, labels, instr, a, h1);
    k, h' := 1 + j, h2;
    if !Landed(code, labels, h2, Compiled(img, instr, a, h.core)) {
      AtIndex(code, h2.pc, [Nop], 0);
      h' := HostStep(img, code, h2);
      assert Steps(img, code, h', 0, h');
      assert Steps(img, code, h2, 1, h');
      StepsJoin(img, code, h, k, h2, 1, h');
      k := k + 1;
    }
  }

  /**
   The code of one instruction, run from its start, does what `Compiled` says: it leaves the block
   or stands at the code of the next instruction.
   */
  lemma RunInstr<R>(img: Image<R>, b: Block, h: Host<R>, s: Cpu<R>) returns (k: nat, h': Host<R>)
    requires GoodBlock(img, b) && Poised(img, b, h, s) && s.nia < b.end
    ensures k >= 1 && Steps(img, CodeOf(img, b), h, k, h')
    ensures var s' := Compiled(img, img.at(s.nia), s.nia, s.core);
      && (h' == Exit(s'.core, s'.nia) || Poised(img, b, h', s'))
      && (Jumps(img.at(s.nia), s.core) && h'.Go? ==> s'.nia < b.end)
      && (!Jumps(img.at(s.nia), s.core) ==> s'.nia == s.nia + 4)
  {
    hide InstrOps, Compiled, Piece, CodeOf, Offset, Taken;
    CompiledFallsThrough(img, s);
    NextFits(s.nia, b.end);
    PieceAtPoised(img, b, h, s);
    NextPoised(img, b, h, s);
    var instr, s' := img.at(s.nia), Compiled(img, img.at(s.nia), s.nia, s.core);
    k, h' := RunPiece(img, CodeOf(img, b), b.labels, instr, s.nia, h);
    if Landed(CodeOf(img, b), b.labels, h', s') {
      LandedIsPoised(img, b, h', s');
    } else {
      assert s'.nia == s.nia + 4;
    }
  }

  lemma PieceAtPoised<R>(img: Image<R>, b: Block, h: Host<R>, s: Cpu<R>)
    requires GoodBlock(img, b) && Poised(img, b, h, s) && s.nia + 4 <= b.end
    ensures !img.at(s.nia).Undecodable?
    ensures forall t :: t in b.labels ==> Target(t) in CodeOf(img, b).bound
    ensures Piece(CodeOf(img, b), h.pc, InstrOps(img.at(s.nia), s.nia, b.labels), img.at(s.nia).BranchCond?, s.nia, b.labels)
  {
    hide InstrOps, Piece, Offset;
    assert Emits(img, img.at(s.nia));
    PieceAt(img, b.start, b.end, b.labels, s.nia);
    LabelsBound(img, b);
  }

  /** The code of the next instruction follows. */
  lemma NextPoised<R>(img: Image<R>, b: Block, h: Host<R>, s: Cpu<R>)
    requires GoodBlock(img, b) && Poised(img, b, h, s) && s.nia + 4 <= b.end
    ensures !img.at(s.nia).Undecodable?
    ensures Offset(img, b.start, b.end, b.labels, s.nia + 4) == h.pc + |InstrOps(img.at(s.nia), s.nia, b.labels)| + 2
  {
    hide InstrOps, Piece, Offset;
    assert Emits(img, img.at(s.nia));
    PieceAt(img, b.start, b.end, b.labels, s.nia);
  }

  lemma LandedIsPoised<R>(img: Image<R>, b: Block, h: Host<R>, s: Cpu<R>)
    requires GoodBlock(img, b) && Landed(CodeOf(img, b), b.labels, h, s)
    ensures h == Exit(s.core, s.nia) || (Poised(img, b, h, s) && s.nia < b.end)
  {
    LabelsBound(img, b);
  }

  lemma CompiledFallsThrough<R>(img: Image<R>, s: Cpu<R>)
    requires img.Valid() && s.nia % 4 == 0 && s.nia < 0xFFFF_FFFC
    ensures var i := img.at(s.nia);
      !i.Undecodable? && !Jumps(i, s.core) ==> Compiled(img, i, s.nia, s.core).nia == s.nia + 4
  {}

  /** In a block found by discovery, no instruction falls through to the trailing exit. */
  lemma NeverFallsThrough<R>(img: Image<R>, b: Block, id: Ident, h: Host<R>, s: Cpu<R>) returns (k: nat, h': Host<R>)
    requires GoodBlock(img, b) && NoWrap(img) && b.start > 0 && IdentSpec(img, b.start) == Some(id) && b.end == id.end
    requires Poised(img, b, h, s) && s.nia < b.end
    ensures k >= 1 && Steps(img, CodeOf(img, b), h, k, h')
    ensures var s' := Compiled(img, img.at(s.nia), s.nia, s.core);
      h' == Exit(s'.core, s'.nia) || (Poised(img, b, h', s') && s'.nia < b.end)
  {
    hide Compiled, CodeOf, Offset, Steps, IdentSpec;
    k, h' := RunInstr(img, b, h, s);
    IdentClosed(img, b.start);
  }

  /** The trailing exit returns the block's end address. */
  lemma RunTrailer<R>(img: Image<R>, b: Block, h: Host<R>, s: Cpu<R>)
    requires GoodBlock(img, b) && Poised(img, b, h, s) && s.nia == b.end
    ensures Steps(img, CodeOf(img, b), h, 2, Exit(s.core, s.nia))
  {
    var code := CodeOf(img, b);
    TrailerAt(img, b.start, b.end, b.labels);
    AtIndex(code, h.pc, [MovEaxImm(b.end), JmpFinale], 0);
    AtIndex(code, h.pc, [MovEaxImm(b.end), JmpFinale], 1);
    var h1 := HostStep(img, code, h);
    TwoSteps(img, code, h, h1, HostStep(img, code, h1));
  }

  // ---------------------------------------------------------------- the cache

  /** `e` is the entry, in a compiled block, of the instruction at `a`. */
  ghost predicate EntryIn<R>(img: Image<R>, b: Block, a: u32, e: Entry) {
    && GoodBlock(img, b) && b.start <= a <= b.end && a % 4 == 0 && (a < b.end || a == 0)
    && e == Entry(CodeOf(img, b), Offset(img, b.start, b.end, b.labels, a))
  }

  ghost predicate GoodEntry<R>(img: Image<R>, a: u32, e: Entry) {
    exists b :: EntryIn(img, b, a, e)
  }

  ghost predicate Compiles<R>(img: Image<R>, a: u32)
    requires img.Valid() && NoWrap(img)
  {
    a % 4 == 0 && CompileSpec(img, a).Some?
  }

  /** Every cached entry is right, and only addresses that do not compile are cached as failures. */
  ghost predicate CacheOk<R>(img: Image<R>, cache: Cache)
    requires img.Valid() && NoWrap(img)
  {
    forall a :: a in cache ==>
      match cache[a]
      case Some(e) => GoodEntry(img, a, e)
      case None => !Compiles(img, a)
  }

  /** A freshly compiled block: its range, its labels and its first entry. */
  lemma CompiledBlock<R>(img: Image<R>, a: u32) returns (b: Block)
    requires img.Valid() && NoWrap(img) && Compiles(img, a)
    ensures GoodBlock(img, b) && b.start == a && CompileSpec(img, a) == Some((b.labels, CodeOf(img, b)))
    ensures EntryIn(img, b, a, Entry(CodeOf(img, b), 8))
  {
    var id := IdentSpec(img, a).value;
    b := Block(a, id.end, LabelsOf(a, id));
    IdentRange(img, a);
    AllEmitIsEmittable(img, a, b.end);
    LabelsAligned(img, a);
    OffsetOfStart(img, b);
  }

  lemma LabelsAligned<R>(img: Image<R>, a: u32)
    requires img.Valid() && NoWrap(img) && a % 4 == 0 && IdentSpec(img, a).Some?
    ensures forall t :: t in LabelsOf(a, IdentSpec(img, a).value) ==> t % 4 == 0
    ensures a == 0 || a < IdentSpec(img, a).value.end
  {
    if a > 0 {
      IdentClosed(img, a);
    } else {
      assert IdentSpec(img, a) == Some(Ident(0, {}));
    }
  }

  lemma OffsetOfStart<R>(img: Image<R>, b: Block)
    requires img.Valid() && Emittable(img, b.start, b.end)
    ensures Offset(img, b.start, b.end, b.labels, b.start) == 8
  {}

  lemma GetKeepsCache<R>(img: Image<R>, cache: Cache, addr: u32)
    requires img.Valid() && NoWrap(img) && addr % 4 == 0 && CacheOk(img, cache)
    ensures var (cache', e) := GetSpec(img, cache, addr);
      && CacheOk(img, cache')
      && (e.Some? ==> GoodEntry(img, addr, e.value))
      && (Compiles(img, addr) ==> e.Some?)
  {
    var (cache', e) := GetSpec(img, cache, addr);
    if addr !in cache && Compiles(img, addr) {
      var b := CompiledBlock(img, addr);
      var added := BlockEntries(addr, b.labels, CodeOf(img, b));
      LabelsBound(img, b);
      forall t | t in added ensures added[t].Some? && GoodEntry(img, t, added[t].value) {
        assert EntryIn(img, b, t, added[t].value);
      }
    }
  }

  // ---------------------------------------------------------------- runs of the JIT

  datatype Config<R> =
    | Outer(cpu: Cpu<R>, cache: Cache)                      // testing the loop condition
    | Inner(code: Code, host: Host<R>, running: Cache)      // inside generated code
    | Failed                                                // no code for an address: assert(0)

  function JitStep<R>(img: Image<R>, c: Config<R>): Config<R>
    requires img.Valid() && NoWrap(img)
  {
    match c
    case Failed => Failed
    case Outer(cpu, cache) =>
      if cpu.nia == CALLBACK_ADDR then c
      else if cpu.nia % 4 != 0 then Failed
      else (
        var (cache', e) := GetSpec(img, cache, cpu.nia);
        match e
        case None => Failed
        case Some(e) => Inner(e.code, Go(cpu.core, 0, false, e.pc), cache'))
    case Inner(code, h, cache) =>
      match h
      case Fault => Failed
      case Exit(core, nia) => Outer(Cpu(core, nia), cache)
      case Go(_, _, _, _) => Inner(code, HostStep(img, code, h), cache)
  }

  function JitRun<R>(img: Image<R>, n: nat, c: Config<R>): Config<R>
    requires img.Valid() && NoWrap(img)
  {
    if n == 0 then c else JitRun(img, n - 1, JitStep(img, c))
  }

  ghost predicate Done<R>(c: Config<R>, result: Core<R>) {
    c.Outer? && c.cpu == Cpu(result, CALLBACK_ADDR)
  }

  ghost predicate JitHalts<R>(img: Image<R>, c: Config<R>, result: Core<R>)
    requires img.Valid() && NoWrap(img)
  {
    exists n: nat :: Done(JitRun(img, n, c), result)
  }

  /** Running inside a block: `k` host steps advance the whole machine by `k`, or it is still inside. */
  lemma {:induction false} RunInside<R>(img: Image<R>, n: nat, code: Code, h: Host<R>, cache: Cache, k: nat, h': Host<R>)
    requires img.Valid() && NoWrap(img) && Steps(img, code, h, k, h')
    ensures n >= k ==> JitRun(img, n, Inner(code, h, cache)) == JitRun(img, n - k, Inner(code, h', cache))
    ensures n < k ==> JitRun(img, n, Inner(code, h, cache)).Inner?
    decreases n
  {
    if n > 0 && k > 0 {
      RunInside(img, n - 1, code, HostStep(img, code, h), cache, k - 1, h');
    }
  }

  /** Host code that stands for the guest state `s`. */
  ghost predicate InBlock<R>(img: Image<R>, b: Block, code: Code, h: Host<R>, s: Cpu<R>) {
    GoodBlock(img, b) && code == CodeOf(img, b) && Poised(img, b, h, s)
  }

  /** The configuration stands for the guest state `s`. */
  ghost predicate Matches<R>(img: Image<R>, c: Config<R>, s: Cpu<R>)
    requires img.Valid() && NoWrap(img)
  {
    && s.nia % 4 == 0
    && match c
       case Failed => false
       case Outer(cpu, cache) => cpu == s && CacheOk(img, cache)
       case Inner(code, h, cache) =>
         CacheOk(img, cache) && (h == Exit(s.core, s.nia) || exists b :: InBlock(img, b, code, h, s))
  }

  /** Entering generated code from the outer loop: at an instruction, unless the address is 0. */
  lemma Enter<R>(img: Image<R>, cache: Cache, s: Cpu<R>) returns (b: Block)
    requires img.Valid() && NoWrap(img) && CacheOk(img, cache) && s.nia % 4 == 0 && s.nia != CALLBACK_ADDR
    ensures var c := JitStep(img, Outer(s, cache));
      || (c.Failed? && !Compiles(img, s.nia))
      || (c.Inner? && CacheOk(img, c.running) && InBlock(img, b, c.code, c.host, s) && (s.nia < b.end || s.nia == 0))
  {
    hide CacheOk, GetSpec, EntryIn, Compiles, Poised, CodeOf, GoodBlock;
    GetKeepsCache(img, cache, s.nia);
    var (cache', e) := GetSpec(img, cache, s.nia);
    if e.Some? {
      b :| EntryIn(img, b, s.nia, e.value);
      EntryIsPoised(img, b, s, e.value);
    } else {
      b := Block(0, 0, {});
    }
  }

  lemma EntryIsPoised<R>(img: Image<R>, b: Block, s: Cpu<R>, e: Entry)
    requires EntryIn(img, b, s.nia, e)
    ensures InBlock(img, b, e.code, Go(s.core, 0, false, e.pc), s) && (s.nia < b.end || s.nia == 0)
  {}

  /** At an instruction, some host steps lead on to the interpreter's next state. */
  lemma InstrStep<R>(img: Image<R>, b: Block, code: Code, h: Host<R>, cache: Cache, s: Cpu<R>)
    returns (k: nat, h': Host<R>, s': Cpu<R>)
    requires Sane(img) && InBlock(img, b, code, h, s) && s.nia < b.end && CacheOk(img, cache)
    ensures k >= 1 && Steps(img, code, h, k, h') && Matches(img, Inner(code, h', cache), s')
    ensures s.nia != CALLBACK_ADDR && InterpStep(img, s) == Some(s')
  {
    assert Emits(img, img.at(s.nia));
    k, h' := RunInstr(img, b, h, s);
    s' := Compiled(img, img.at(s.nia), s.nia, s.core);
    AgreesWhenFaithful(img, s);
    InterpStepAligned(img, s);
    if h' != Exit(s'.core, s'.nia) {
      assert InBlock(img, b, code, h', s');
    }
  }

  lemma AgreesWhenFaithful<R>(img: Image<R>, s: Cpu<R>)
    requires Sane(img) && !img.at(s.nia).Undecodable?
    ensures InterpStep(img, s) == Some(Compiled(img, img.at(s.nia), s.nia, s.core))
  {
    assert Faithful(img.at(s.nia), s.nia);
  }

  // ---------------------------------------------------------------- soundness

  lemma InterpHaltsAfter<R>(img: Image<R>, s: Cpu<R>, s': Cpu<R>, result: Core<R>)
    requires img.Valid() && s.nia != CALLBACK_ADDR && InterpStep(img, s) == Some(s') && InterpHalts(img, s', result)
    ensures InterpHalts(img, s, result)
  {
    var n: nat :| InterpRun(img, n, s') == Some(Cpu(result, CALLBACK_ADDR));
    assert InterpRun(img, n + 1, s) == Some(Cpu(result, CALLBACK_ADDR));
  }

  /** A result of the JIT is a result of the interpreter. */
  lemma {:induction false} JitSound<R>(img: Image<R>, n: nat, c: Config<R>, s: Cpu<R>, result: Core<R>)
    requires Sane(img) && Matches(img, c, s) && Done(JitRun(img, n, c), result)
    ensures InterpHalts(img, s, result)
    decreases n
  {
    hide *;
    SaneIsValid(img);
    if n == 0 || (c.Outer? && s.nia == CALLBACK_ADDR) {
      AtCallback(img, n, c, s, result);
    } else if c.Inner? && c.host.Go? {
      JitSoundInside(img, n, c.code, c.host, c.running, s, result);
    } else {
      OuterStepMatches(img, n, c, s, result);
      JitSound(img, n - 1, JitStep(img, c), s, result);
    }
  }

  lemma AtCallback<R>(img: Image<R>, n: nat, c: Config<R>, s: Cpu<R>, result: Core<R>)
    requires img.Valid() && NoWrap(img) && Matches(img, c, s) && Done(JitRun(img, n, c), result)
    requires n == 0 || (c.Outer? && s.nia == CALLBACK_ADDR)
    ensures InterpHalts(img, s, result)
  {
    if n > 0 {
      StaysDone(img, n, c);
    }
    assert InterpRun(img, 0, s) == Some(Cpu(result, CALLBACK_ADDR));
  }

  lemma OuterStepMatches<R>(img: Image<R>, n: nat, c: Config<R>, s: Cpu<R>, result: Core<R>)
    requires img.Valid() && NoWrap(img) && Matches(img, c, s) && n > 0 && Done(JitRun(img, n, c), result)
    requires !(c.Outer? && s.nia == CALLBACK_ADDR) && !(c.Inner? && c.host.Go?)
    ensures Matches(img, JitStep(img, c), s) && Done(JitRun(img, n - 1, JitStep(img, c)), result)
  {
    if c.Outer? {
      var b := Enter(img, c.cache, s);
      FailedStays(img, n - 1);
    }
  }

  lemma {:induction false} JitSoundInside<R>(img: Image<R>, n: nat, code: Code, h: Host<R>, cache: Cache, s: Cpu<R>, result: Core<R>)
    requires Sane(img) && Matches(img, Inner(code, h, cache), s) && h.Go?
    requires n > 0 && Done(JitRun(img, n, Inner(code, h, cache)), result)
    ensures InterpHalts(img, s, result)
    decreases n, 0
  {
    hide *;
    SaneIsValid(img);
    var k, h', s' := InsideAdvance(img, code, h, cache, s);
    JitRunInside(img, n, code, h, cache, k, h', result);
    JitSound(img, n - k, Inner(code, h', cache), s', result);
    if s' != s {
      InterpHaltsAfter(img, s, s', result);
    }
  }

  /** Inside a block: on to the interpreter's next state, or out through the trailing exit. */
  lemma InsideAdvance<R>(img: Image<R>, code: Code, h: Host<R>, cache: Cache, s: Cpu<R>)
    returns (k: nat, h': Host<R>, s': Cpu<R>)
    requires Sane(img) && Matches(img, Inner(code, h, cache), s) && h.Go?
    ensures k >= 1 && Steps(img, code, h, k, h') && Matches(img, Inner(code, h', cache), s')
    ensures s' == s || (s.nia != CALLBACK_ADDR && InterpStep(img, s) == Some(s'))
  {
    hide Steps, InterpStep, CacheOk, CodeOf, GoodBlock;
    var b :| InBlock(img, b, code, h, s);
    if s.nia == b.end {
      RunTrailer(img, b, h, s);
      k, h', s' := 2, Exit(s.core, s.nia), s;
    } else {
      k, h', s' := InstrStep(img, b, code, h, cache, s);
    }
  }

  lemma JitRunInside<R>(img: Image<R>, n: nat, code: Code, h: Host<R>, cache: Cache, k: nat, h': Host<R>, result: Core<R>)
    requires img.Valid() && NoWrap(img) && Steps(img, code, h, k, h') && Done(JitRun(img, n, Inner(code, h, cache)), result)
    ensures n >= k && Done(JitRun(img, n - k, Inner(code, h', cache)), result)
  {
    hide JitRun;
    RunInside(img, n, code, h, cache, k, h');
  }

  lemma {:induction false} StaysDone<R>(img: Image<R>, n: nat, c: Config<R>)
    requires img.Valid() && NoWrap(img) && c.Outer? && c.cpu.nia == CALLBACK_ADDR
    ensures JitRun(img, n, c) == c
  {
    if n > 0 {
      StaysDone(img, n - 1, c);
    }
  }

  lemma {:induction false} FailedStays<R>(img: Image<R>, n: nat)
    requires img.Valid() && NoWrap(img)
    ensures JitRun(img, n, Failed) == Failed
  {
    if n > 0 {
      FailedStays(img, n - 1);
    }
  }

  // ---------------------------------------------------------------- completeness

  /** After `n` steps the outer loop looks up an address that does not compile, and its assertion fails. */
  ghost predicate FailsAt<R>(img: Image<R>, n: nat, c: Config<R>)
    requires img.Valid() && NoWrap(img)
  {
    var d := JitRun(img, n, c);
    d.Outer? && d.cpu.nia != CALLBACK_ADDR && !Compiles(img, d.cpu.nia) && JitStep(img, d) == Failed
  }

  ghost predicate LookupFails<R>(img: Image<R>, c: Config<R>)
    requires img.Valid() && NoWrap(img)
  {
    exists n: nat :: FailsAt(img, n, c)
  }

  ghost predicate HaltsOrFails<R>(img: Image<R>, c: Config<R>, result: Core<R>)
    requires img.Valid() && NoWrap(img)
  {
    JitHalts(img, c, result) || LookupFails(img, c)
  }

  lemma EndsAfter<R>(img: Image<R>, c: Config<R>, m: nat, c': Config<R>, result: Core<R>)
    requires img.Valid() && NoWrap(img) && JitRun(img, m, c) == c' && HaltsOrFails(img, c', result)
    ensures HaltsOrFails(img, c, result)
  {
    if JitHalts(img, c', result) {
      var n: nat :| Done(JitRun(img, n, c'), result);
      JitRunSplit(img, m, n, c);
      assert Done(JitRun(img, m + n, c), result);
    } else {
      var n: nat :| FailsAt(img, n, c');
      JitRunSplit(img, m, n, c);
      assert FailsAt(img, m + n, c);
    }
  }

  /** A run does not both halt and fail. */
  lemma HaltsNotFails<R>(img: Image<R>, c: Config<R>, n: nat, m: nat, result: Core<R>)
    requires img.Valid() && NoWrap(img) && Done(JitRun(img, n, c), result)
    ensures !FailsAt(img, m, c)
  {
    hide JitStep;
    if n <= m {
      JitRunSplit(img, n, m - n, c);
      StaysDone(img, m - n, JitRun(img, n, c));
    } else {
      var d := JitRun(img, m, c);
      JitRunSplit(img, m, n - m, c);
      if JitStep(img, d) == Failed {
        FailedStays(img, n - m - 1);
      }
    }
  }

  lemma {:induction false} JitRunSplit<R>(img: Image<R>, m: nat, n: nat, c: Config<R>)
    requires img.Valid() && NoWrap(img)
    ensures JitRun(img, m + n, c) == JitRun(img, n, JitRun(img, m, c))
    decreases m
  {
    if m > 0 {
      JitRunSplit(img, m - 1, n, JitStep(img, c));
    }
  }

  /** A result of the interpreter is a result of the JIT, unless a lookup of the JIT fails. */
  lemma {:induction false} JitComplete<R>(img: Image<R>, n: nat, c: Config<R>, s: Cpu<R>, result: Core<R>)
    requires Sane(img) && Matches(img, c, s)
    requires InterpRun(img, n, s) == Some(Cpu(result, CALLBACK_ADDR))
    ensures HaltsOrFails(img, c, result)
    decreases n, 2
  {
    if c.Outer? {
      CompleteOuter(img, n, c.cache, s, result);
    } else if c.host.Exit? {
      CompleteOuter(img, n, c.running, s, result);
      assert JitRun(img, 0, JitStep(img, c)) == JitRun(img, 1, c);
      EndsAfter(img, c, 1, Outer(s, c.running), result);
    } else {
      var b :| InBlock(img, b, c.code, c.host, s);
      if s.nia < b.end {
        CompleteInstr(img, n, b, c.code, c.host, c.running, s, result);
      } else {
        CompleteOuter(img, n, c.running, s, result);
        RunTrailer(img, b, c.host, s);
        RunInside(img, 3, c.code, c.host, c.running, 2, Exit(s.core, s.nia));
        assert JitRun(img, 3, c) == JitRun(img, 1, Inner(c.code, Exit(s.core, s.nia), c.running));
        assert JitRun(img, 0, Outer(s, c.running)) == JitRun(img, 3, c);
        EndsAfter(img, c, 3, Outer(s, c.running), result);
      }
    }
  }

  lemma {:induction false} CompleteOuter<R>(img: Image<R>, n: nat, cache: Cache, s: Cpu<R>, result: Core<R>)
    requires Sane(img) && CacheOk(img, cache) && s.nia % 4 == 0
    requires InterpRun(img, n, s) == Some(Cpu(result, CALLBACK_ADDR))
    ensures HaltsOrFails(img, Outer(s, cache), result)
    decreases n, 1
  {
    if s.nia == CALLBACK_ADDR {
      assert Done(JitRun(img, 0, Outer(s, cache)), result);
    } else {
      assert InterpRun(img, 0, s) == Some(s);
      assert s.nia != 0;
      var b := Enter(img, cache, s);
      var c := JitStep(img, Outer(s, cache));
      if c.Failed? {
        assert FailsAt(img, 0, Outer(s, cache));
      } else {
        CompleteInstr(img, n, b, c.code, c.host, c.running, s, result);
        assert JitRun(img, 0, c) == JitRun(img, 1, Outer(s, cache));
        EndsAfter(img, Outer(s, cache), 1, c, result);
      }
    }
  }

  lemma NoRun<R>(img: Image<R>, c: Config<R>)
    requires img.Valid() && NoWrap(img)
    ensures JitRun(img, 0, c) == c
  {}

  lemma {:induction false} CompleteInstr<R>(img: Image<R>, n: nat, b: Block, code: Code, h: Host<R>, cache: Cache, s: Cpu<R>, result: Core<R>)
    requires Sane(img) && CacheOk(img, cache) && InBlock(img, b, code, h, s) && s.nia < b.end
    requires InterpRun(img, n, s) == Some(Cpu(result, CALLBACK_ADDR))
    ensures HaltsOrFails(img, Inner(code, h, cache), result)
    decreases n, 0
  {
    hide HaltsOrFails, JitRun, CacheOk, InBlock, JitStep;
    var k, h', s' := InstrStep(img, b, code, h, cache, s);
    JitComplete(img, n - 1, Inner(code, h', cache), s', result);
    RunInside(img, k, code, h, cache, k, h');
    NoRun(img, Inner(code, h', cache));
    EndsAfter(img, Inner(code, h, cache), k, Inner(code, h', cache), result);
  }

  // ---------------------------------------------------------------- the theorem

  /**
   The JIT simulates the interpreter: from any 4-aligned address and any good cache, and from
   inside any cached block, the JIT halts with a result exactly when the interpreter does and the JIT's
   own run looks up no address that does not compile.
   */
  lemma JitSimulatesInterpreter<R>(img: Image<R>, c: Config<R>, s: Cpu<R>, result: Core<R>)
    requires Sane(img) && Matches(img, c, s)
    ensures JitHalts(img, c, result) <==> InterpHalts(img, s, result) && !LookupFails(img, c)
  {
    if JitHalts(img, c, result) {
      var n: nat :| Done(JitRun(img, n, c), result);
      JitSound(img, n, c, s, result);
      forall m: nat ensures !FailsAt(img, m, c) {
        HaltsNotFails(img, c, n, m, result);
      }
    }
    if InterpHalts(img, s, result) {
      var n: nat :| InterpRun(img, n, s) == Some(Cpu(result, CALLBACK_ADDR));
      JitComplete(img, n, c, s, result);
    }
  }
}
