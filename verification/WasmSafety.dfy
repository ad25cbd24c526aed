/** "The verifier guarantees this index": every accepted function, fused or not, aligned or
    not, keeps the interpreter inside its value stack, locals, globals and code. */
module WasmSafety {
  import opened WasmInstr
  import opened WasmSource
  import opened WasmSlots
  import opened T = WasmTranslate
  import opened WasmOptimize
  import opened WasmStatic
  import opened WasmFunction
  import opened WasmSimulation
  import opened WasmCorrect

  /** Explicit returns have a value to return when a result is declared. The translator
      checks this only at the end of the body. */
  ghost predicate ReturnsHaveValues(fn: Fn) {
    forall k :: 0 <= k < fn.last && k < |fn.ops| && fn.ops[k].Return? && fn.env.results != [] ==> fn.Height(k) > 0
  }

  // ---- what one instruction may touch ----

  predicate LocalsIn(env: Env, m: Mnemonic) {
    match m
    case LocalGet32(i) => i < |env.locals|
    case LocalSet32(i) => i < |env.locals|
    case LocalTee32(i) => i < |env.locals|
    case FusedSetConst32(i, _) => i < |env.locals|
    case FusedSetConst64(i, _) => i < |env.locals|
    case FusedBrCompare(op, _) => IsCompare(op)
    case ImBrTable(ts) => ts != []
    case Simple(p) => EarlyError(env, p).None?
    case _ => true
  }

  /** All of the instruction's unchecked indices are in range. */
  predicate Contained(env: Env, c: Imc, slots: nat) {
    && LocalsIn(env, c.mnemonic)
    && (if c.mnemonic.ImReturn? then env.results != [] ==> c.level < slots else c.level + Touch(c.mnemonic) <= slots)
  }

  /** The operation that emitted unfused instruction `i`. */
  lemma {:induction false} Origin(fn: Fn, i: nat, j: nat) returns (k: nat)
    requires fn.Ok() && j <= fn.last + 1 && i < fn.Emitted(j)
    ensures k <= fn.last && k < |fn.ops| && !Silent(fn.ops[k]) && fn.Emitted(k) == i
    decreases j
  {
    hide Fn.At, Accepts;
    if j == 0 {
      EmittedNone(fn);
    } else {
      Appends(fn, j - 1);
      if i < fn.Emitted(j - 1) { k := Origin(fn, i, j - 1); } else { k := j - 1; InBody(fn, k); }
    }
  }

  lemma EmittedNone(fn: Fn)
    ensures fn.Emitted(0) == 0
  {
  }

  lemma InBody(fn: Fn, k: nat)
    requires fn.Ok() && k <= fn.last
    ensures k < |fn.ops|
  {
  }

  lemma UnfusedLocals(env: Env, g: Gen, op: Op)
    requires !Translate(env, Raise(g), op).Failed? && !Silent(op)
    ensures var g' := Translate(env, Raise(g), op).gen;
      && |g'.codes| == |g.codes| + 1 && LocalsIn(env, g'.codes[|g.codes|].mnemonic)
      && (g'.codes[|g.codes|].mnemonic.ImReturn? ==>
            (op.Return? || op.End?) && g'.codes[|g.codes|].level == Below(|g.values|))
  {
    hide OperandsOk, Targets;
    if op.BrTable? {
      TableTranslates(env, g, op.depths);
      TargetsRaise(g, op.depths);
    }
  }

  lemma ReturnFits(fn: Fn, k: nat)
    requires fn.Ok() && ReturnsHaveValues(fn) && k <= fn.last && k < |fn.ops| && (fn.ops[k].Return? || k == fn.last)
    ensures fn.env.results != [] ==> Below(fn.Height(k)) < fn.Slots()
  {
    FinalStack(fn);
    hide Fn.At, Accepts;
    Grows(fn, k, fn.last + 1);
  }

  lemma UnfusedContained(fn: Fn, i: nat)
    requires fn.Ok() && ReturnsHaveValues(fn) && i < |fn.Unfused()|
    ensures Contained(fn.env, fn.Unfused()[i], fn.Slots())
  {
    var k := Origin(fn, i, fn.last + 1);
    EmittedAt(fn, k);
    Turn(fn, k);
    UnfusedLocals(fn.env, fn.At(k), fn.ops[k]);
    SlotsFit(fn, i);
    hide Fn.At, Accepts, Translate;
    if fn.Unfused()[i].mnemonic.ImReturn? {
      ReturnKind(fn, k);
      ReturnFits(fn, k);
    }
  }

  lemma ReturnKind(fn: Fn, k: nat)
    requires fn.Ok() && k <= fn.last && !Silent(fn.ops[k])
    requires fn.At(k + 1).codes != [] && fn.At(k + 1).codes[|fn.At(k + 1).codes| - 1].mnemonic.ImReturn?
    ensures fn.ops[k].Return? || k == fn.last
  {
    Turn(fn, k);
    hide Fn.At, Accepts;
    EndReturns(fn.env, fn.At(k), fn.ops[k]);
  }

  lemma EndReturns(env: Env, g: Gen, op: Op)
    requires !Translate(env, Raise(g), op).Failed? && !Silent(op)
    requires var cs := Translate(env, Raise(g), op).gen.codes; cs != [] && cs[|cs| - 1].mnemonic.ImReturn?
    ensures op.Return? || Translate(env, Raise(g), op).Finished?
  {
  }

  /** Fusing keeps every index in range: the compare-and-branch forms read one slot more than
      the branch they replace, and that slot is one the comparison had. */
  lemma PairContained(env: Env, a: Imc, b: Imc, slots: nat)
    requires Contained(env, a, slots) && Contained(env, b, slots) && Pair(a.mnemonic, b.mnemonic).Some?
    requires StepsDown(a, b)
    ensures Contained(env, b.(mnemonic := Pair(a.mnemonic, b.mnemonic).value), slots)
  {
  }

  lemma FusedContained(fn: Fn, i: nat)
    requires fn.Ok() && ReturnsHaveValues(fn) && i < |fn.Unfused()| && Kept(fn.FusedCode()[i].mnemonic)
    ensures Contained(fn.env, fn.FusedCode()[i], fn.Slots())
  {
    hide Fn.At, Accepts, Contained, Pair;
    var u := fn.Unfused();
    UnfusedContained(fn, i);
    if Closes(u, i) {
      UnfusedContained(fn, i - 1);
      PairStepsDown(fn, i - 1);
      PairContained(fn.env, u[i - 1], u[i], fn.Slots());
    }
  }

  lemma PairStepsDown(fn: Fn, i: nat)
    requires fn.Ok() && i + 1 < |fn.Unfused()|
    ensures StepsDown(fn.Unfused()[i], fn.Unfused()[i + 1])
  {
    hide Fn.At, Accepts, Structured;
    Sound(fn, fn.last + 1);
  }

  // ---- the final code ----

  /** Where survivor `j` stood before compaction. */
  lemma {:induction false} SurvivorFrom(f: seq<Imc>, j: nat) returns (i: nat)
    requires j < |Survivors(f)|
    ensures i < |f| && Kept(f[i].mnemonic) && Count(f, i) == j && Survivors(f)[j] == f[i]
  {
    var g := f[..|f| - 1];
    SurvivorCount(g);
    CountPrefix(f, g, |g|);
    if j < |Survivors(g)| {
      i := SurvivorFrom(g, j);
      CountPrefix(f, g, i);
    } else {
      i := |f| - 1;
    }
  }

  /** The body ends in a return, which survives as the last instruction. */
  lemma FinalReturn(fn: Fn)
    requires fn.Ok()
    ensures fn.Emitted(fn.last) == |fn.Unfused()| - 1
    ensures |fn.Code()| == fn.Position(fn.Emitted(fn.last)) + 1
    ensures fn.Code()[|fn.Code()| - 1].mnemonic.ImReturn?
  {
    LastOp(fn);
    LastIsOpen(fn);
    SurvivorTargets(fn);
    SurvivorCount(fn.FusedCode());
    var i := fn.Emitted(fn.last);
    assert fn.Unfused()[i].mnemonic.ImReturn? && Kept(fn.FusedCode()[i].mnemonic);
    CodeAt(fn, i);
    hide Fn.At, Accepts;
  }

  lemma {:induction false} MarkBelow(f: seq<Imc>, b: nat, n: nat)
    requires n <= |f|
    ensures StartOf(f, b, n) <= Count(f, |f|) && EndOf(f, b, n) <= Count(f, |f|)
    ensures f != [] && Kept(f[|f| - 1].mnemonic) ==> StartOf(f, b, n) < Count(f, |f|) && EndOf(f, b, n) < Count(f, |f|)
    decreases n
  {
    if n > 0 {
      MarkBelow(f, b, n - 1);
      CountGrows(f, n - 1, |f|);
      CountGrows(f, n - 1, |f| - 1);
    }
  }

  /** Every branch target lies inside the code. */
  lemma PlaceInside(fn: Fn, b: nat)
    requires fn.Ok()
    ensures fn.Place(b) < |fn.Code()|
  {
    LastOp(fn);
    LastIsOpen(fn);
    SurvivorTargets(fn);
    SurvivorCount(fn.FusedCode());
    var f := fn.FusedCode();
    assert Kept(f[|f| - 1].mnemonic);
    hide Fn.At, Accepts;
    if b < |fn.Places()| { MarkBelow(f, b, |f|); }
  }

  /** The final instruction at `j` touches only existing slots, locals and globals, jumps only
      into the code, and only the last instruction can lack a successor. */
  ghost predicate Safe(fn: Fn, j: nat)
    requires j < |fn.Code()|
  {
    var c := fn.Code()[j];
    && Contained(fn.env, c, fn.Slots())
    && (forall t :: t in TargetsOf(c.mnemonic) ==> t < |fn.Code()|)
    && (j == |fn.Code()| - 1 ==> c.mnemonic.ImReturn?)
  }

  lemma RetargetKeeps(fn: Fn, m: Mnemonic, c: Mnemonic)
    requires fn.Ok() && Placed(fn, m, c)
    ensures LocalsIn(fn.env, m) ==> LocalsIn(fn.env, c)
    ensures Touch(m) == Touch(c) && (m.ImReturn? <==> c.ImReturn?)
    ensures forall t :: t in TargetsOf(c) ==> t < |fn.Code()|
  {
    hide Fn.At, Accepts, Fn.Code, Fn.Place, Fn.Places;
    forall t | t in TargetsOf(c) ensures t < |fn.Code()| {
      var b: nat :| t == fn.Place(b);
      PlaceInside(fn, b);
    }
  }

  /** Every index an accepted function's final code can use is in range. */
  lemma CodeIsSafe(fn: Fn, j: nat)
    requires fn.Ok() && ReturnsHaveValues(fn) && j < |fn.Code()|
    ensures Safe(fn, j)
  {
    FinalReturn(fn);
    SurvivorTargets(fn);
    hide Fn.At, Accepts, Placed;
    var i := SurvivorFrom(fn.FusedCode(), j);
    CodeAt(fn, i);
    FusedContained(fn, i);
    hide Fn.Code, Survivors;
    RetargetKeeps(fn, fn.FusedCode()[i].mnemonic, fn.Code()[j].mnemonic);
  }

  /** An explicit return without a value reads the slot before the first one: the condition
      on returns is exactly what keeps the code in range. */
  lemma ReturnsDecideSafety(fn: Fn)
    requires fn.Ok() && fn.Slots() < TWO64
    ensures ReturnsHaveValues(fn) <==> forall j :: 0 <= j < |fn.Code()| ==> Contained(fn.env, fn.Code()[j], fn.Slots())
  {
    hide Fn.At, Accepts, Fn.Code;
    if ReturnsHaveValues(fn) {
      forall j | 0 <= j < |fn.Code()| ensures Contained(fn.env, fn.Code()[j], fn.Slots()) { CodeIsSafe(fn, j); }
    } else {
      var k: nat :| k < fn.last && k < |fn.ops| && fn.ops[k].Return? && fn.env.results != [] && fn.Height(k) == 0;
      WildReturn(fn, k);
    }
  }

  lemma WildReturn(fn: Fn, k: nat)
    requires fn.Ok() && k < fn.last && fn.ops[k].Return?
    ensures var j := fn.Position(fn.Emitted(k));
      j < |fn.Code()| && fn.Code()[j] == Imc(ImReturn, Below(fn.Height(k)))
  {
    assert k < |fn.ops|;
    hide Fn.At, Accepts, Translate, Fn.Code, Fn.Position;
    Turn(fn, k);
    ControlTranslates(fn.env, fn.At(k), fn.ops[k]);
    var c := Imc(ImReturn, Below(fn.Height(k)));
    ControlEmits(fn, k, c);
    ControlCode(fn, k, c);
  }

  // ---- runs ----

  ghost predicate Inside(fn: Fn, m: Machine) {
    |m.slots| == fn.Slots() && m.pc < |fn.Code()| && HeapOk(fn.env, m.heap)
  }

  lemma ArmSafe(env: Env, p: Plain, s: nat, m: Machine)
    requires EarlyError(env, p).None? && s + TouchPlain(p) <= |m.slots| && HeapOk(env, m.heap)
    ensures match Arm(env, p, s, m)
      case Running(m') => m'.pc == m.pc + 1 && |m'.slots| == |m.slots| && HeapOk(env, m'.heap)
      case Trapped(_, _) => true
      case _ => false
  {
    hide Arm, Exec, EarlyError;
    ArmIsExec(env, p, s, m);
    ExecDefined(env, p, m.slots[s..s + Pops(p)], m.heap);
  }

  predicate IsPlain(m: Mnemonic) { m.Simple? || m.LocalGet32? || m.LocalSet32? || m.LocalTee32? }

  function PlainOf(m: Mnemonic): Plain
    requires IsPlain(m)
  {
    match m
    case Simple(p) => p
    case LocalGet32(i) => LocalGet(i)
    case LocalSet32(i) => LocalSet(i)
    case LocalTee32(i) => LocalTee(i)
  }

  /** One step with every index in range: no undefined access, and control stays in the code. */
  lemma StepSafe(env: Env, code: seq<Imc>, m: Machine, slots: nat)
    requires m.pc < |code| && |m.slots| == slots && HeapOk(env, m.heap) && Contained(env, code[m.pc], slots)
    ensures match StepSlots(env, code, m)
      case Running(m') =>
        && |m'.slots| == slots && HeapOk(env, m'.heap) && !code[m.pc].mnemonic.ImReturn?
        && (m'.pc == m.pc + 1 || m'.pc in TargetsOf(code[m.pc].mnemonic))
      case Wrong => false
      case _ => true
  {
    var c := code[m.pc];
    hide Arm, EvalCompare, FusedArith32, FusedArith64, EarlyError;
    if IsPlain(c.mnemonic) {
      LocalEarly(env, c.mnemonic);
      ArmSafe(env, PlainOf(c.mnemonic), c.level, m);
    }
  }

  lemma LocalEarly(env: Env, m: Mnemonic)
    requires IsPlain(m) && LocalsIn(env, m)
    ensures EarlyError(env, PlainOf(m)).None? && TouchPlain(PlainOf(m)) == Touch(m)
  {
  }

  lemma InsideStep(fn: Fn, m: Machine)
    requires fn.Ok() && ReturnsHaveValues(fn) && Inside(fn, m)
    ensures match StepSlots(fn.env, fn.Code(), m)
      case Running(m') => Inside(fn, m')
      case Wrong => false
      case _ => true
  {
    hide Fn.At, Accepts, StepSlots, Contained, HeapOk, Fn.Code;
    CodeIsSafe(fn, m.pc);
    StepSafe(fn.env, fn.Code(), m, fn.Slots());
  }

  /** Every run of an accepted function stays in range, however its pairs were fused and
      whatever its branches do. */
  lemma {:induction false} InterpreterStaysInside(fn: Fn, heap: Heap, n: nat)
    requires fn.Ok() && ReturnsHaveValues(fn) && HeapOk(fn.env, heap)
    ensures match RunSlots(fn.env, fn.Code(), fn.Slots(), heap, n)
      case Running(m) => Inside(fn, m)
      case Wrong => false
      case _ => true
  {
    hide Fn.At, Accepts, StepSlots, Fn.Code;
    if n == 0 {
      FinalReturn(fn);
    } else {
      InterpreterStaysInside(fn, heap, n - 1);
      var o := RunSlots(fn.env, fn.Code(), fn.Slots(), heap, n - 1);
      if o.Running? { InsideStep(fn, o.state); }
    }
  }

  // ---- a return without a value ----

  /** Reaching such a return reads the slot before the first one. */
  lemma BareReturnIsWrong(fn: Fn, k: nat, m: Machine)
    requires fn.Ok() && k < fn.last && fn.ops[k].Return? && fn.env.results != [] && fn.Height(k) == 0
    requires fn.Slots() < TWO64 && |m.slots| == fn.Slots() && m.pc == fn.Position(fn.Emitted(k))
    ensures StepSlots(fn.env, fn.Code(), m).Wrong?
  {
    WildReturn(fn, k);
    hide Fn.At, Accepts, Fn.Code, Fn.Position;
  }

  const BARE_ENV: Env := Env([], [], [I32], false, 0)

  const BARE_OPS: seq<Op> := [Return, Instr(Const32(1)), End]

  const BARE_FN: Fn := Fn(BARE_ENV, BARE_OPS, 2)

  lemma BareTranslated()
    ensures After(BARE_ENV, BARE_OPS, 2) ==
      Going(Gen([I32], [], [], [Imc(ImReturn, TWO64 - 1), Imc(Simple(Const32(1)), 0)], 0))
  {
    hide TranslatePlain, Targets, Open, PopCondition;
    assert After(BARE_ENV, BARE_OPS, 0) == Going(FRESH);
    var g := FRESH.(codes := [Imc(ImReturn, TWO64 - 1)]);
    assert FRESH.codes + [Imc(ImReturn, TWO64 - 1)] == g.codes;
    assert After(BARE_ENV, BARE_OPS, 1) == Going(g);
    BareConst(g);
  }

  lemma BareConst(g: Gen)
    requires g == FRESH.(codes := [Imc(ImReturn, TWO64 - 1)])
    ensures TranslatePlain(BARE_ENV, Raise(g), Const32(1))
         == Going(Gen([I32], [], [], [Imc(ImReturn, TWO64 - 1), Imc(Simple(Const32(1)), 0)], 0))
  {
    assert g.codes + [Imc(Simple(Const32(1)), 0)] == [Imc(ImReturn, TWO64 - 1), Imc(Simple(Const32(1)), 0)];
  }

  lemma BareFnIs()
    ensures BARE_FN.Ok() && BARE_FN.Slots() == 1 && BARE_FN.Height(0) == 0 && BARE_FN.Emitted(0) == 0
  {
    BareTranslated();
    hide TranslatePlain, Targets, Open, PopCondition;
  }

  /** An accepted body whose first step leaves the value stack, in every heap. */
  lemma BareReturnGoesWrong(heap: Heap)
    ensures BARE_FN.Ok() && !ReturnsHaveValues(BARE_FN)
    ensures RunSlots(BARE_ENV, BARE_FN.Code(), BARE_FN.Slots(), heap, 1).Wrong?
  {
    BareFnIs();
    hide Accepts, Fn.At, Fn.Code, StepSlots;
    assert BARE_FN.Position(0) == 0;
    var boot := Machine(0, seq(1, _ => 0), heap);
    assert RunSlots(BARE_ENV, BARE_FN.Code(), 1, heap, 0) == Running(boot);
    BareReturnIsWrong(BARE_FN, 0, boot);
  }
}
