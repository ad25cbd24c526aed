/** When fusing a pair is right: exactly when the second half consumes the slot that the first
    half fills. `drop` emits no code, so the table of pairs can meet a pair that is not. */
module WasmFusion {
  import opened WasmInstr
  import opened WasmSource
  import opened WasmSlots
  import opened T = WasmTranslate
  import opened WasmOptimize
  import opened WasmStatic
  import opened WasmFunction
  import opened WasmSimulation
  import opened WasmPairs
  import opened WasmRefinement
  import opened WasmSafety
  import opened WasmGenerate
  import B = Bits

  // ---- one pair ----

  /** How many operands the second half takes. */
  function Takes(b: Imc): nat { if b.mnemonic.Simple? && b.mnemonic.plain.Binary? then 2 else 1 }

  function HeightBehind(b: Imc): nat { if Takes(b) == 2 then b.level + 1 else b.level }

  /** The pair as two steps, and as the fused instruction behind the `Nop` left by fusion. */
  function Separately(env: Env, a: Imc, b: Imc, m: Machine): Outcome<Machine> {
    match StepSlots(env, [a, b], m)
    case Running(m') => StepSlots(env, [a, b], m')
    case o => o
  }

  function Together(env: Env, a: Imc, b: Imc, m: Machine): Outcome<Machine>
    requires Pair(a.mnemonic, b.mnemonic).Some?
  {
    StepSlots(env, [Imc(ImNop, a.level), Imc(Pair(a.mnemonic, b.mnemonic).value, b.level)], m.(pc := 1))
  }

  /** A state of a function with `n` slots. */
  predicate Ready(env: Env, n: nat, slots: seq<Word>, heap: Heap) { |slots| == n && HeapOk(env, heap) }

  /** A branch, watched with a target that is not the next instruction. */
  function Elsewhere(b: Imc): Imc { if b.mnemonic.ImBrIf? then b.(mnemonic := ImBrIf(0)) else b }

  /** The pair and the fused instruction do the same, whatever a branch's target is. */
  predicate SameEffect(env: Env, a: Imc, b: Imc, slots: seq<Word>, heap: Heap)
    requires Pair(a.mnemonic, b.mnemonic).Some?
  {
    SameSteps(env, a, Elsewhere(b), slots, heap)
  }

  /** Same successor, same heap, same operands left on the stack. */
  predicate SameSteps(env: Env, a: Imc, b: Imc, slots: seq<Word>, heap: Heap)
    requires Pair(a.mnemonic, b.mnemonic).Some?
  {
    var o, p := Separately(env, a, b, Machine(0, slots, heap)), Together(env, a, b, Machine(0, slots, heap));
    && o.Running? && p.Running? && o.state.pc == p.state.pc && o.state.heap == p.state.heap
    && HeightBehind(b) <= |o.state.slots| && HeightBehind(b) <= |p.state.slots|
    && o.state.slots[..HeightBehind(b)] == p.state.slots[..HeightBehind(b)]
  }

  /** Two emitted halves in a function with `n` slots: the second stands no higher than the
      first leaves the stack. */
  predicate Adjacent(env: Env, n: nat, a: Imc, b: Imc) {
    && Pair(a.mnemonic, b.mnemonic).Some? && b.level + Takes(b) <= a.level + 1
    && a.level + Touch(a.mnemonic) <= n
    && (b.mnemonic.Simple? && b.mnemonic.plain.LocalSet? ==> b.mnemonic.plain.local < |env.locals|)
  }

  /** And a branch goes elsewhere. */
  predicate Apart(env: Env, n: nat, a: Imc, b: Imc) { Adjacent(env, n, a, b) && Elsewhere(b) == b }

  lemma AlignedSame(env: Env, n: nat, a: Imc, b: Imc, slots: seq<Word>, heap: Heap)
    requires Apart(env, n, a, b) && Aligned(a, b) && Ready(env, n, slots, heap)
    ensures SameSteps(env, a, b, slots, heap)
  {
    hide EvalBin, EvalUn, EvalCompare, FusedArith32, FusedArith64;
    match (a.mnemonic, b.mnemonic)
    case (Simple(Const32(v)), Simple(Binary(op))) => Immediate32Agrees(op, slots[b.level], v);
    case (Simple(Const64(v)), Simple(Binary(op))) => Immediate64Agrees(op, slots[b.level], v);
    case (Simple(Unary(op)), ImBrIf(t)) => ZeroTest(op, slots[a.level]);
    case (Simple(Binary(op)), ImBrIf(t)) => CompareTest(op, slots[a.level], slots[a.level + 1]);
    case _ =>
  }

  lemma ZeroTest(op: UnOp, w: Word)
    requires op.I32Eqz? || op.I64Eqz?
    ensures GetI32(EvalUn(op, w)) != 0 <==> if op.I32Eqz? then GetI32(w) == 0 else w == 0
  {
  }

  lemma CompareTest(op: BinOp, x: Word, y: Word)
    requires IsCompare(op)
    ensures EvalBin(op, x, y) == Value(OfBool(EvalCompare(op, x, y)))
    ensures GetI32(OfBool(EvalCompare(op, x, y))) != 0 <==> EvalCompare(op, x, y)
  {
  }

  /** Operands on which the comparison differs from reading its first operand as a flag. */
  function UnlikeFlag(op: BinOp): (Word, Word) {
    if op.I32Eq? || op.I64Eq? then (1, 2)
    else if op.I32GeS? || op.I32GeU? then (0, 0)
    else if op.I32LeS? || op.I32LeU? then (1, 0)
    else (1, 1)
  }

  lemma UnlikeFlagWorks(op: BinOp)
    requires Branching(op)
    ensures EvalCompare(op, UnlikeFlag(op).0, UnlikeFlag(op).1) != (GetI32(UnlikeFlag(op).0) != 0)
  {
  }

  /** Operands on which the operation tells its right operand from `v`. */
  lemma RightMatters32(op: BinOp, v: U32) returns (x: U32, y: U32)
    requires Immediate32(op)
    ensures EvalBin(op, x, y) != Value(FusedArith32(op, x, v))
  {
    if op.I32Shl? || op.I32ShrS? || op.I32ShrU? {
      x, y := 1, if v % 32 == 0 then 1 else 0;
      ShiftMatters(op, v);
    } else if op.I32Add? || op.I32Sub? {
      x, y := 0, Wrap32(v + 1);
    } else {
      x, y := if op.I32And? then 1 else 0, if op.I32And? then 1 - v % 2 else Wrap32(v + 1);
      BitsMatter(op, v, y);
    }
  }

  lemma BitsMatter(op: BinOp, v: U32, y: U32)
    requires op.I32And? || op.I32Or? || op.I32Xor?
    requires if op.I32And? then y == 1 - v % 2 else y == Wrap32(v + 1)
    ensures var x := if op.I32And? then 1 else 0; EvalBin(op, x, y) != Value(FusedArith32(op, x, v))
  {
    hide EvalBin, FusedArith32;
    BitsGive(op, v);
    BitsGive(op, y);
    Immediate32Agrees(op, if op.I32And? then 1 else 0, v);
  }

  /** With 1 on the left `and` keeps the lowest bit; with 0 `or` and `xor` keep everything. */
  lemma BitsGive(op: BinOp, v: U32)
    requires op.I32And? || op.I32Or? || op.I32Xor?
    ensures EvalBin(op, if op.I32And? then 1 else 0, v) == Value(if op.I32And? then v % 2 else v)
  {
    OneAnd(v);
    B.OrZero(v);
    B.AndZero(v);
    hide B.BitAnd, B.BitOr, B.Pow2, Signed32;
    assert GetI32(v) == v && GetI32(1) == 1 && GetI32(0) == 0;
  }

  lemma OneAnd(v: nat)
    ensures B.BitAnd(1, v) == v % 2
  {
    B.AndZero(v / 2);
  }

  lemma ShiftMatters(op: BinOp, v: U32)
    requires op.I32Shl? || op.I32ShrS? || op.I32ShrU?
    ensures EvalBin(op, 1, if v % 32 == 0 then 1 else 0) != Value(FusedArith32(op, 1, v))
  {
    var k := v % 32;
    PowerOf(k);
    hide B.BitAnd, B.BitOr, B.Pow2;
  }

  lemma PowerOf(k: nat)
    ensures B.Pow2(0) == 1 && B.Pow2(1) == 2
    ensures k > 0 ==> B.Pow2(k) == 2 * B.Pow2(k - 1) && 1 / B.Pow2(k) == 0 && B.Pow2(k) % 2 == 0
    ensures k > 0 ==> Wrap32(B.Pow2(k)) % 2 == 0
  {
    assert k > 0 ==> B.Pow2(k) == 2 * B.Pow2(k - 1);
    assert B.Pow2(0) == 1 && B.Pow2(1) == 2;
    hide B.Pow2;
    if k > 0 {
      EvenWrap(B.Pow2(k - 1));
      B.ModUnique(1, B.Pow2(k), 0, 1);
    }
  }

  lemma EvenWrap(q: nat)
    ensures Wrap32(2 * q) % 2 == 0
  {
  }

  lemma RightMatters64(op: BinOp, v: Word) returns (x: Word, y: Word)
    requires Immediate64(op)
    ensures EvalBin(op, x, y) != Value(FusedArith64(op, x, v))
  {
    x, y := 0, Wrap64(v + 1);
  }

  /** A state that tells the two apart, when something was dropped in between. */
  lemma UnalignedDiffers(env: Env, n: nat, a: Imc, b: Imc) returns (slots: seq<Word>, heap: Heap)
    requires Apart(env, n, a, b) && !Aligned(a, b)
    ensures Ready(env, n, slots, heap) && !SameSteps(env, a, b, slots, heap)
  {
    hide EvalBin, EvalUn, EvalCompare, FusedArith32, FusedArith64, UnlikeFlag;
    var zeros: seq<Word> := seq(n, _ => 0);
    heap := Heap(seq(|env.locals|, _ => 0), seq(|env.globals|, _ => 0), seq(8, _ => 0));
    match (a.mnemonic, b.mnemonic)
    case (Simple(Const32(v)), Simple(LocalSet(l))) =>
      slots := zeros[b.level := Wrap32(v + 1)];
      SetDiffers(env, n, a, b, slots, heap, l, v);
    case (Simple(Const64(v)), Simple(LocalSet(l))) =>
      slots := zeros[b.level := Wrap64(v + 1)];
      SetDiffers(env, n, a, b, slots, heap, l, v);
    case (Simple(Const32(v)), Simple(Binary(op))) =>
      var x, y := RightMatters32(op, v);
      slots := zeros[b.level := x][b.level + 1 := y];
      ImmediateDiffers(env, n, a, b, slots, heap, x, y);
    case (Simple(Const64(v)), Simple(Binary(op))) =>
      var x, y := RightMatters64(op, v);
      slots := zeros[b.level := x][b.level + 1 := y];
      ImmediateDiffers(env, n, a, b, slots, heap, x, y);
    case (Simple(Unary(op)), ImBrIf(t)) =>
      slots := zeros;
    case (Simple(Binary(op)), ImBrIf(t)) =>
      slots := zeros[b.level := UnlikeFlag(op).0][b.level + 1 := UnlikeFlag(op).1];
      CompareDiffers(env, n, a, b, slots, heap);
  }

  lemma CompareDiffers(env: Env, n: nat, a: Imc, b: Imc, slots: seq<Word>, heap: Heap)
    requires Apart(env, n, a, b) && !Aligned(a, b) && Ready(env, n, slots, heap) && b.mnemonic.ImBrIf?
    requires a.mnemonic.Simple? && a.mnemonic.plain.Binary?
    requires (slots[b.level], slots[b.level + 1]) == UnlikeFlag(a.mnemonic.plain.bin)
    ensures !SameSteps(env, a, b, slots, heap)
  {
    hide EvalBin, EvalCompare, UnlikeFlag;
    var op := a.mnemonic.plain.bin;
    UnlikeFlagWorks(op);
    CompareTest(op, slots[a.level], slots[a.level + 1]);
  }

  lemma ImmediateDiffers(env: Env, n: nat, a: Imc, b: Imc, slots: seq<Word>, heap: Heap, x: Word, y: Word)
    requires Apart(env, n, a, b) && !Aligned(a, b) && Ready(env, n, slots, heap) && Takes(b) == 2
    requires slots[b.level] == x && slots[b.level + 1] == y
    requires match a.mnemonic
      case Simple(Const32(v)) =>
        EvalBin(b.mnemonic.plain.bin, x, y) != Value(FusedArith32(b.mnemonic.plain.bin, GetI32(x), v))
      case Simple(Const64(v)) => EvalBin(b.mnemonic.plain.bin, x, y) != Value(FusedArith64(b.mnemonic.plain.bin, x, v))
      case _ => false
    ensures !SameSteps(env, a, b, slots, heap)
  {
    hide EvalBin, FusedArith32, FusedArith64;
    var o, p := Separately(env, a, b, Machine(0, slots, heap)), Together(env, a, b, Machine(0, slots, heap));
    if o.Running? {
      assert o.state.slots[..b.level + 1][b.level] != p.state.slots[..b.level + 1][b.level];
    }
  }

  lemma SetDiffers(env: Env, n: nat, a: Imc, b: Imc, slots: seq<Word>, heap: Heap, l: nat, v: Word)
    requires Apart(env, n, a, b) && !Aligned(a, b) && Ready(env, n, slots, heap) && b.mnemonic == Simple(LocalSet(l))
    requires a.mnemonic == Simple(Const64(v)) || (v < TWO32 && a.mnemonic == Simple(Const32(v)))
    requires slots[b.level] != v
    ensures !SameSteps(env, a, b, slots, heap)
  {
    var o, p := Separately(env, a, b, Machine(0, slots, heap)), Together(env, a, b, Machine(0, slots, heap));
    assert o.state.heap.locals[l] == slots[b.level];
    assert p.state.heap.locals[l] == v;
  }

  /** Fusing a pair is right in every state exactly when the pair is aligned. */
  lemma FusionIsExact(env: Env, n: nat, a: Imc, b: Imc)
    requires Adjacent(env, n, a, b)
    ensures Aligned(a, b) <==> forall slots, heap :: Ready(env, n, slots, heap) ==> SameEffect(env, a, b, slots, heap)
  {
    var b' := Elsewhere(b);
    assert Apart(env, n, a, b') && (Aligned(a, b') <==> Aligned(a, b));
    hide Aligned, Pair, Ready, SameSteps, Apart;
    if Aligned(a, b) {
      forall slots, heap | Ready(env, n, slots, heap) ensures SameEffect(env, a, b, slots, heap) {
        AlignedSame(env, n, a, b', slots, heap);
      }
    } else {
      var slots, heap := UnalignedDiffers(env, n, a, b');
    }
  }

  // ---- the pairs of a function ----

  /** The second half of a pair never stands higher than the first leaves the stack, and both
      have their slots and locals. */
  lemma PairsAreAdjacent(fn: Fn, i: nat)
    requires fn.Ok() && Opens(fn.Unfused(), i)
    ensures Adjacent(fn.env, fn.Slots(), fn.Unfused()[i], fn.Unfused()[i + 1])
  {
    hide Fn.At, Accepts, Pair;
    var a, b := PairOps(fn, i);
    HeightBetween(fn, a + 1, b);
    Appends(fn, a);
    OpenerIs(fn, a);
    CloserIs(fn, b);
    SlotsFit(fn, i);
    UnfusedLocalsIn(fn, i + 1);
    assert Pair(fn.Unfused()[i].mnemonic, fn.Unfused()[i + 1].mnemonic).Some?;
    OpenerKeeps(fn.Unfused()[i].mnemonic, fn.Unfused()[i + 1].mnemonic);
  }

  lemma OpenerKeeps(a: Mnemonic, b: Mnemonic)
    requires Pair(a, b).Some?
    ensures !a.ImReturn?
  {
  }

  lemma UnfusedLocalsIn(fn: Fn, i: nat)
    requires fn.Ok() && i < |fn.Unfused()|
    ensures LocalsIn(fn.env, fn.Unfused()[i].mnemonic)
  {
    var k := Origin(fn, i, fn.last + 1);
    EmittedAt(fn, k);
    Turn(fn, k);
    UnfusedLocals(fn.env, fn.At(k), fn.ops[k]);
    hide Fn.At, Accepts, Translate;
  }

  /** The pair at `i` does in every state of the function what its halves do. */
  ghost predicate Faithful(fn: Fn, i: nat) {
    && Opens(fn.Unfused(), i)
    && forall slots, heap :: Ready(fn.env, fn.Slots(), slots, heap) ==>
         SameEffect(fn.env, fn.Unfused()[i], fn.Unfused()[i + 1], slots, heap)
  }

  /** For every accepted function: all its fused pairs do what their halves do, in every
      state, if and only if nothing is dropped inside a pair. */
  lemma FusionIsRightWithoutDrops(fn: Fn)
    requires fn.Ok()
    ensures NoDropInPair(fn) <==> forall i :: 0 <= i < |fn.Unfused()| && Opens(fn.Unfused(), i) ==> Faithful(fn, i)
  {
    AlignedMeansNoDrop(fn);
    hide NoDropInPair, Accepts, Aligned, SameEffect, Ready, Pair;
    forall i | 0 <= i < |fn.Unfused()| && Opens(fn.Unfused(), i)
      ensures Faithful(fn, i) <==> Aligned(fn.Unfused()[i], fn.Unfused()[i + 1])
    {
      PairsAreAdjacent(fn, i);
      FusionIsExact(fn.env, fn.Slots(), fn.Unfused()[i], fn.Unfused()[i + 1]);
    }
  }

  // ---- a function that is compiled wrongly ----

  /** `1 + 2` with a dropped `4` in between, which the fused addition picks up. */
  const DROP_OPS: seq<Op> := [
    Instr(Const32(1)), Instr(Const32(2)), Instr(Const32(4)), Drop, Instr(Binary(I32Add)), End]

  const DROP_ENV: Env := Env([], [], [I32], false, 0)

  const DROP_FN: Fn := Fn(DROP_ENV, DROP_OPS, 5)

  function DropUnfused(): seq<Imc> {
    [Imc(Simple(Const32(1)), 0), Imc(Simple(Const32(2)), 1), Imc(Simple(Const32(4)), 2),
     Imc(Simple(Binary(I32Add)), 0), Imc(ImReturn, 0)]
  }

  /** The translator's state in front of each instruction. */
  function DropGen(k: nat): Gen {
    var u := DropUnfused();
    match k
    case 0 => FRESH
    case 1 => Gen([I32], [], [], u[..1], 0)
    case 2 => Gen([I32, I32], [], [], u[..2], 1)
    case 3 => Gen([I32, I32, I32], [], [], u[..3], 2)
    case 4 => Gen([I32, I32], [], [], u[..3], 3)
    case 5 => Gen([I32], [], [], u[..4], 3)
    case _ => Gen([I32], [], [], u, 3)
  }

  lemma DropTurn(k: nat)
    requires k < 5
    ensures Translate(DROP_ENV, Raise(DropGen(k)), DROP_OPS[k]) == Going(DropGen(k + 1))
  {
    if k < 3 { DropPush(k); } else if k == 3 { DropDrop(); } else { DropAdd(); }
    hide Translate;
  }

  lemma DropPush(k: nat)
    requires k < 3
    ensures TranslatePlain(DROP_ENV, Raise(DropGen(k)), DROP_OPS[k].plain) == Going(DropGen(k + 1))
    ensures Translate(DROP_ENV, Raise(DropGen(k)), DROP_OPS[k]) == Going(DropGen(k + 1))
  {
    if k == 0 { assert DropGen(0).values[..0] == []; }
    else if k == 1 { assert DropGen(1).values[..1] == [I32]; }
    else { assert DropGen(2).values[..2] == [I32, I32]; }
  }

  lemma DropDrop()
    ensures Translate(DROP_ENV, Raise(DropGen(3)), DROP_OPS[3]) == Going(DropGen(4))
  {
    assert DropGen(3).values[..2] == [I32, I32];
  }

  lemma DropAdd()
    ensures Translate(DROP_ENV, Raise(DropGen(4)), DROP_OPS[4]) == Going(DropGen(5))
  {
    AddTranslates(DROP_ENV, DropGen(4));
    assert DropUnfused()[..3] + [DropUnfused()[3]] == DropUnfused()[..4];
    hide Translate;
  }

  lemma AddTranslates(env: Env, g: Gen)
    requires g.values == [I32, I32]
    ensures Translate(env, Raise(g), Instr(Binary(I32Add)))
         == Going(Raise(g).(values := [I32], codes := g.codes + [Imc(Simple(Binary(I32Add)), 0)]))
  {
    hide TranslatePlain, Targets, Open, PopCondition, OperandsOk, ResultType;
    AddPlain(env, Raise(g));
  }

  lemma AddPlain(env: Env, g: Gen)
    requires g.values == [I32, I32]
    ensures TranslatePlain(env, g, Binary(I32Add))
         == Going(g.(values := [I32], codes := g.codes + [Imc(Simple(Binary(I32Add)), 0)]))
  {
    hide Translate;
    var p, args := Binary(I32Add), g.values[0..];
    assert args[0] == I32 && args[1] == I32;
    assert OperandsOk(env, p, args) && EarlyError(env, p).None? && ResultType(env, p, args) == I32;
    hide OperandsOk, ResultType, EarlyError;
    assert g.values[..0] + [I32] == [I32];
  }

  lemma DropEnd()
    ensures Translate(DROP_ENV, Raise(DropGen(5)), DROP_OPS[5]) == Finished(DropGen(6))
  {
  }

  lemma {:induction false} DropTranslated(k: nat)
    requires k <= 5
    ensures After(DROP_ENV, DROP_OPS, k) == Going(DropGen(k))
  {
    if k > 0 {
      DropTranslated(k - 1);
      DropTurn(k - 1);
    }
    hide Translate, DropGen;
  }

  lemma DropFnIs()
    ensures DROP_FN.Ok() && DROP_FN.Unfused() == DropUnfused() && DROP_FN.Slots() == 3 && DROP_FN.Blocks() == []
  {
    DropTranslated(5);
    DropEnd();
    hide Translate;
  }

  lemma DropFused()
    ensures Fused(DropUnfused()) == DropUnfused()[2 := Imc(ImNop, 2)][3 := Imc(FusedImm32(I32Add, 4), 0)]
  {
  }

  lemma DropCode()
    ensures DROP_FN.Code() == [Imc(Simple(Const32(1)), 0), Imc(Simple(Const32(2)), 1), Imc(FusedImm32(I32Add, 4), 0),
                              Imc(ImReturn, 0)]
  {
    DropFnIs();
    DropFused();
    DropSurvivors();
    SurvivorTargets(DROP_FN);
    hide Accepts, Fn.Unfused, Fused, Survivors;
  }

  lemma DropSurvivors()
    ensures Survivors(Fused(DropUnfused())) ==
      [Imc(Simple(Const32(1)), 0), Imc(Simple(Const32(2)), 1), Imc(FusedImm32(I32Add, 4), 0), Imc(ImReturn, 0)]
  {
    DropFused();
    SurvivorsOf(Fused(DropUnfused()));
    hide Fused;
  }

  lemma SurvivorsOf(f: seq<Imc>)
    requires |f| == 5 && !Kept(f[2].mnemonic) && forall i :: 0 <= i < 5 && i != 2 ==> Kept(f[i].mnemonic)
    ensures Survivors(f) == [f[0], f[1], f[3], f[4]]
  {
    hide Kept, Survivors;
    SurvivorsStep(f, 0);
    SurvivorsStep(f, 1);
    SurvivorsStep(f, 2);
    SurvivorsStep(f, 3);
    SurvivorsStep(f, 4);
    assert Survivors(f[..0]) == [] by { NoSurvivors(f[..0]); }
    assert f[..5] == f;
  }

  lemma NoSurvivors(f: seq<Imc>)
    requires f == []
    ensures Survivors(f) == []
  {
  }

  lemma DropRuns(heap: Heap, code: seq<Imc>)
    requires code == [Imc(Simple(Const32(1)), 0), Imc(Simple(Const32(2)), 1), Imc(FusedImm32(I32Add, 4), 0),
      Imc(ImReturn, 0)]
    ensures RunSlots(DROP_ENV, code, 3, heap, 4) == Returned([5], heap)
  {
    var m0 := RunSlots(DROP_ENV, code, 3, heap, 0);
    assert m0.Running? && m0.state.pc == 0 && m0.state.heap == heap && m0.state.slots == [0, 0, 0];
    var m1 := RunSlots(DROP_ENV, code, 3, heap, 1);
    assert m1.Running? && m1.state.pc == 1 && m1.state.heap == heap && m1.state.slots == [1, 0, 0];
    var m2 := RunSlots(DROP_ENV, code, 3, heap, 2);
    assert m2.Running? && m2.state.pc == 2 && m2.state.heap == heap && m2.state.slots == [1, 2, 0];
    var m3 := RunSlots(DROP_ENV, code, 3, heap, 3);
    assert m3.Running? && m3.state.pc == 3 && m3.state.heap == heap && m3.state.slots == [5, 2, 0];
  }

  function DropStack(k: nat): seq<Word> {
    match k
    case 0 => []
    case 1 => [1]
    case 2 => [1, 2]
    case 3 => [1, 2, 4]
    case 4 => [1, 2]
    case _ => [3]
  }

  lemma DropStep(heap: Heap, k: nat)
    requires k < 5
    ensures WasmSource.Step(DROP_ENV, DROP_OPS, Frame(k, DropStack(k), [], heap))
         == Running(Frame(k + 1, DropStack(k + 1), [], heap))
  {
    if k < 3 { DropStepPush(heap, k); }
    else if k == 3 { assert DropStack(3)[..2] == DropStack(4); }
    else { DropStepAdd(heap); }
    hide Exec;
  }

  lemma DropStepPush(heap: Heap, k: nat)
    requires k < 3
    ensures WasmSource.Step(DROP_ENV, DROP_OPS, Frame(k, DropStack(k), [], heap))
         == Running(Frame(k + 1, DropStack(k + 1), [], heap))
  {
    var s := DropStack(k);
    var v := DROP_OPS[k].plain.imm32;
    assert s[..|s|] + [v] == DropStack(k + 1);
    hide EvalBin, DropStack;
  }

  lemma DropStepAdd(heap: Heap)
    ensures WasmSource.Step(DROP_ENV, DROP_OPS, Frame(4, DropStack(4), [], heap))
         == Running(Frame(5, DropStack(5), [], heap))
  {
    assert EvalBin(I32Add, 1, 2) == Value(3);
    hide EvalBin, WasmSource.Step;
    BinarySteps(DROP_ENV, DROP_OPS, Frame(4, DropStack(4), [], heap), I32Add, 1, 2, 3);
    assert [3] == DropStack(5);
  }

  lemma BinarySteps(env: Env, ops: seq<Op>, f: Frame, op: BinOp, x: Word, y: Word, w: Word)
    requires f.pc < |ops| && ops[f.pc] == Instr(Binary(op)) && f.stack == [x, y] && EvalBin(op, x, y) == Value(w)
    ensures WasmSource.Step(env, ops, f) == Running(f.(pc := f.pc + 1, stack := [w]))
  {
    hide EvalBin, Branch, Result;
    assert f.stack[0..] == [x, y] && f.stack[..0] + [w] == [w];
  }

  lemma {:induction false} DropRun(heap: Heap, k: nat)
    requires k <= 5
    ensures Run(DROP_ENV, DROP_OPS, heap, k) == Running(Frame(k, DropStack(k), [], heap))
  {
    if k > 0 {
      DropRun(heap, k - 1);
      DropStep(heap, k - 1);
    }
    hide WasmSource.Step;
  }

  lemma DropMeans(heap: Heap)
    ensures Run(DROP_ENV, DROP_OPS, heap, 6) == Returned([3], heap)
  {
    DropRun(heap, 5);
    hide Exec, Branch;
  }

  /** The body returns 3, its compiled code 5. */
  lemma DropIsMiscompiled(heap: Heap)
    ensures DROP_FN.Ok() && !FusionAligned(DROP_FN)
    ensures Run(DROP_ENV, DROP_OPS, heap, 6) == Returned([3], heap)
    ensures RunSlots(DROP_ENV, DROP_FN.Code(), DROP_FN.Slots(), heap, 4) == Returned([5], heap)
  {
    DropFnIs();
    DropCode();
    DropRuns(heap, DROP_FN.Code());
    DropMeans(heap);
    var u := DropUnfused();
    assert Opens(u, 2) && !Aligned(u[2], u[3]);
    hide Fn.Code, Run, RunSlots, Accepts, Fn.Unfused;
  }

  // ---- a function that is compiled rightly ----

  /** The same sum without the dropped constant: fused, aligned and within the theorem. */
  const SUM_OPS: seq<Op> := [Instr(Const32(1)), Instr(Const32(2)), Instr(Binary(I32Add)), End]

  const SUM_FN: Fn := Fn(DROP_ENV, SUM_OPS, 3)

  function SumUnfused(): seq<Imc> {
    [Imc(Simple(Const32(1)), 0), Imc(Simple(Const32(2)), 1), Imc(Simple(Binary(I32Add)), 0), Imc(ImReturn, 0)]
  }

  function SumGen(k: nat): Gen {
    var u := SumUnfused();
    match k
    case 0 => FRESH
    case 1 => Gen([I32], [], [], u[..1], 0)
    case 2 => Gen([I32, I32], [], [], u[..2], 1)
    case 3 => Gen([I32], [], [], u[..3], 2)
    case _ => Gen([I32], [], [], u, 2)
  }

  lemma SumTurn(k: nat)
    requires k < 3
    ensures Translate(DROP_ENV, Raise(SumGen(k)), SUM_OPS[k]) == Going(SumGen(k + 1))
  {
    if k == 0 {
      ConstTranslates(DROP_ENV, SumGen(0), 1);
      assert SumUnfused()[..1] == [] + [SumUnfused()[0]];
    } else if k == 1 {
      ConstTranslates(DROP_ENV, SumGen(1), 2);
      assert SumUnfused()[..2] == SumUnfused()[..1] + [SumUnfused()[1]];
    } else {
      AddTranslates(DROP_ENV, SumGen(2));
      assert SumUnfused()[..3] == SumUnfused()[..2] + [SumUnfused()[2]];
    }
    hide Translate;
  }

  lemma ConstTranslates(env: Env, g: Gen, v: U32)
    ensures Translate(env, Raise(g), Instr(Const32(v)))
         == Going(Raise(g).(values := g.values + [I32], codes := g.codes + [Imc(Simple(Const32(v)), |g.values|)]))
  {
    hide Targets, Open, PopCondition;
    assert g.values[..|g.values|] == g.values;
  }

  lemma SumEnd()
    ensures Translate(DROP_ENV, Raise(SumGen(3)), SUM_OPS[3]) == Finished(SumGen(4))
  {
    hide TranslatePlain, Targets, Open, PopCondition;
  }

  lemma {:induction false} SumTranslated(k: nat)
    requires k <= 3
    ensures After(DROP_ENV, SUM_OPS, k) == Going(SumGen(k))
  {
    hide Translate, SumGen;
    if k > 0 {
      SumTranslated(k - 1);
      SumTurn(k - 1);
    } else {
      SumStart();
    }
  }

  lemma SumStart()
    ensures SumGen(0) == FRESH
  {
  }

  /** The theorem's conditions can be met, with a pair that is fused. */
  lemma SumIsCallable(heap: Heap)
    requires heap.globals == []
    ensures Callable(SUM_FN, heap) && Opens(SUM_FN.Unfused(), 1)
  {
    hide Translate, Disciplined;
    SumTranslated(3);
    SumEnd();
    assert SUM_FN.Ok() && SUM_FN.Unfused() == SumUnfused();
    forall i | 0 <= i < 4 && Opens(SumUnfused(), i) ensures Aligned(SumUnfused()[i], SumUnfused()[i + 1]) {
      assert i == 1;
    }
    forall k | 0 <= k < 3 ensures Disciplined(DROP_ENV, SUM_FN.At(k), SUM_OPS[k]) {
      PlainDisciplined(DROP_ENV, SUM_FN.At(k), SUM_OPS[k]);
    }
  }

  lemma PlainDisciplined(env: Env, g: Gen, op: Op)
    requires op.Instr?
    ensures Disciplined(env, g, op)
  {
  }
}
