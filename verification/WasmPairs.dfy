/** Fused pairs: the first half is owed by the interpreter, the second half pays. */
module WasmPairs {
  import opened WasmInstr
  import opened WasmSource
  import opened WasmSlots
  import opened T = WasmTranslate
  import opened WasmOptimize
  import opened WasmStatic
  import opened WasmFunction
  import opened WasmSimulation
  import opened WasmCorrect
  import B = Bits

  // ---- the first half ----

  /** A plain instruction that opens a pair, and the value it pushes. */
  function Produces(p: Plain, slots: seq<Word>, s: nat): Word
    requires s + TouchPlain(p) <= |slots|
  {
    match p
    case Const32(v) => v
    case Const64(v) => v
    case Unary(op) => EvalUn(op, slots[s])
    case Binary(op) => if IsCompare(op) then OfBool(EvalCompare(op, slots[s], slots[s + 1])) else 0
    case _ => 0
  }

  predicate Producer(p: Plain) {
    p.Const32? || p.Const64? || (p.Unary? && (p.un.I32Eqz? || p.un.I64Eqz?)) || (p.Binary? && Branching(p.bin))
  }

  lemma OpenerProduces(env: Env, p: Plain, b: Mnemonic)
    requires Pair(PlainMnemonic(env, p), b).Some?
    ensures PlainMnemonic(env, p) == Simple(p) && Producer(p)
  {
  }

  lemma ProducerExec(env: Env, p: Plain, slots: seq<Word>, s: nat, h: Heap)
    requires Producer(p) && s + TouchPlain(p) <= |slots|
    ensures Exec(env, p, slots[s..s + Pops(p)], h) == Pushed([Produces(p, slots, s)], h)
    ensures Owed(Imc(Simple(p), s), slots) == slots[..s] + [Produces(p, slots, s)]
    ensures Pushes(p) == 1
  {
    var args := slots[s..s + Pops(p)];
    assert Pops(p) > 0 ==> args[0] == slots[s];
    assert Pops(p) > 1 ==> args[1] == slots[s + 1];
    hide EvalUn, EvalCompare, EvalArith;
  }

  lemma FusedOpener(u: seq<Imc>, i: nat)
    requires Opens(u, i)
    ensures !Kept(Fused(u)[i].mnemonic) && !Closes(u, i)
  {
    if Closes(u, i) { PairsAreDisjoint(u[i - 1].mnemonic, u[i].mnemonic, u[i + 1].mnemonic); }
  }

  lemma OpenPairSim(fn: Fn, f: Frame, m: Machine, p: Plain)
    requires fn.Ok() && Related(fn, f, m) && f.pc < fn.last && fn.ops[f.pc] == Instr(p)
    requires Opens(fn.Unfused(), fn.Emitted(f.pc))
    ensures Matches(fn, WasmSource.Step(fn.env, fn.ops, f), Running(m))
  {
    hide Fn.At, Accepts, HeapOk, LabelsOk, Fn.Position, Exec, Owed, Fused;
    var i := fn.Emitted(f.pc);
    FusedOpener(fn.Unfused(), i);
    StackIsSlots(fn, f, m);
    PlainEmitted(fn, f.pc, p);
    OpenerProduces(fn.env, p, fn.Unfused()[i + 1].mnemonic);
    var s := |f.stack| - Pops(p);
    OpenerFits(fn, f, m, p);
    ProducerExec(fn.env, p, m.slots, s, f.heap);
    assert f.stack[s..] == m.slots[s..s + Pops(p)];
    OpenPairMoves(fn, f, m, p, s);
  }

  lemma OpenerFits(fn: Fn, f: Frame, m: Machine, p: Plain)
    requires fn.Ok() && Poised(fn, f, m) && |f.stack| == fn.Height(f.pc) && fn.ops[f.pc] == Instr(p)
    ensures Pops(p) <= |f.stack| && |f.stack| - Pops(p) + TouchPlain(p) <= |m.slots|
  {
    hide Fn.At, Accepts, HeapOk, LabelsOk, Fn.Position;
    PlainEmitted(fn, f.pc, p);
    PlainTouch(fn.env, p);
    SlotsFit(fn, fn.Emitted(f.pc));
  }

  lemma OpenPairMoves(fn: Fn, f: Frame, m: Machine, p: Plain, s: nat)
    requires Poised(fn, f, m) && fn.ops[f.pc] == Instr(p) && Opens(fn.Unfused(), fn.Emitted(f.pc))
    requires |f.stack| == s + Pops(p) && s + TouchPlain(p) <= |m.slots| && Producer(p)
    requires Emits(fn, f.pc, Imc(Simple(p), s)) && fn.Height(f.pc + 1) == s + 1
    ensures Related(fn, f.(pc := f.pc + 1, stack := f.stack[..s] + [Produces(p, m.slots, s)]), m)
  {
    hide Fn.At, HeapOk, LabelsOk, Exec, Fused;
    ProducerExec(fn.env, p, m.slots, s, f.heap);
    FusedOpener(fn.Unfused(), fn.Emitted(f.pc));
    PositionNext(fn, fn.Emitted(f.pc));
    LabelsStay(fn, f.pc, f.labels);
    assert f.stack[..s] == m.slots[..s];
    hide Owed, Fn.Position;
  }

  // ---- the second half ----

  /** In front of the second half: what the first half pushed is on top of the stack, above
      what the slots hold. */
  ghost predicate Owing(fn: Fn, f: Frame, m: Machine, a: Imc) {
    && fn.Ok() && f.pc < fn.last < |fn.ops| && LabelsOk(fn, f.pc, f.labels)
    && f.heap == m.heap && HeapOk(fn.env, f.heap)
    && |m.slots| == fn.Slots() && m.pc == fn.Position(fn.Emitted(f.pc)) && |f.stack| == fn.Height(f.pc)
    && Closes(fn.Unfused(), fn.Emitted(f.pc)) && fn.Emitted(f.pc) < |fn.Unfused()|
    && a == fn.Unfused()[fn.Emitted(f.pc) - 1] && a.mnemonic.Simple? && Producer(a.mnemonic.plain)
    && Pair(a.mnemonic, fn.Unfused()[fn.Emitted(f.pc)].mnemonic).Some?
    && a.level + TouchPlain(a.mnemonic.plain) <= |m.slots|
    && |f.stack| <= a.level + 1
    && f.stack == (m.slots[..a.level] + [Produces(a.mnemonic.plain, m.slots, a.level)])[..|f.stack|]
  }

  lemma StackOwes(fn: Fn, f: Frame, m: Machine) returns (a: Imc)
    requires fn.Ok() && Related(fn, f, m) && f.pc < fn.last && Closes(fn.Unfused(), fn.Emitted(f.pc))
    ensures Owing(fn, f, m, a)
  {
    hide Fn.At, Accepts, HeapOk, LabelsOk, Fn.Position;
    var i := fn.Emitted(f.pc);
    a := fn.Unfused()[i - 1];
    PairStarts(a.mnemonic, fn.Unfused()[i].mnemonic);
    SlotsFit(fn, i - 1);
    HeightBound(fn, f.pc);
    ProducerExec(fn.env, a.mnemonic.plain, m.slots, a.level, f.heap);
    hide Owed;
  }

  lemma PairStarts(a: Mnemonic, b: Mnemonic)
    requires Pair(a, b).Some?
    ensures a.Simple? && Producer(a.plain) && Touch(a) == TouchPlain(a.plain) && Pushes(a.plain) == 1
  {
  }

  /** Only drops lie between the halves, so the height is at most what the first left. */
  lemma HeightBound(fn: Fn, k: nat)
    requires fn.Ok() && k <= fn.last && 0 < fn.Emitted(k) <= |fn.Unfused()|
    requires var a := fn.Unfused()[fn.Emitted(k) - 1]; a.mnemonic.Simple? && Pushes(a.mnemonic.plain) == 1
    ensures fn.Height(k) <= fn.Unfused()[fn.Emitted(k) - 1].level + 1
  {
    hide Fn.At, Accepts, Structured;
    Sound(fn, k);
    Grows(fn, k, fn.last + 1);
    var i := fn.Emitted(k);
    assert fn.At(k).codes[i - 1] == fn.Unfused()[i - 1];
  }

  lemma FusedCloser(fn: Fn, i: nat)
    requires fn.Ok() && i < |fn.Unfused()| && Closes(fn.Unfused(), i)
    ensures var u := fn.Unfused(); var mn := Pair(u[i - 1].mnemonic, u[i].mnemonic).value;
      && fn.FusedCode()[i].mnemonic == mn && Kept(mn) && !Opens(u, i)
      && fn.Position(i) < |fn.Code()| && fn.Code()[fn.Position(i)].level == u[i].level
      && Placed(fn, mn, fn.Code()[fn.Position(i)].mnemonic)
  {
    hide Fn.At, Accepts, Fn.Code, Fn.Position, Placed;
    var u := fn.Unfused();
    if Opens(u, i) { PairsAreDisjoint(u[i - 1].mnemonic, u[i].mnemonic, u[i + 1].mnemonic); }
    CodeAt(fn, i);
  }

  /** The fused immediate forms compute what the two instructions would. */
  lemma Immediate32Agrees(op: BinOp, lhs: Word, v: U32)
    requires Immediate32(op)
    ensures EvalBin(op, lhs, v) == Value(FusedArith32(op, GetI32(lhs), v))
  {
    hide B.BitAnd, B.BitOr, B.Pow2, Xor, Signed32;
    assert GetI32(v) == v;
  }

  lemma Immediate64Agrees(op: BinOp, lhs: Word, v: Word)
    requires Immediate64(op)
    ensures EvalBin(op, lhs, v) == Value(FusedArith64(op, lhs, v))
  {
  }

  /** `const; local.set` becomes one store to the local. */
  lemma SetConstSim(fn: Fn, f: Frame, m: Machine, a: Imc, l: nat)
    requires Owing(fn, f, m, a) && fn.ops[f.pc] == Instr(LocalSet(l))
    requires Aligned(a, fn.Unfused()[fn.Emitted(f.pc)])
    ensures Matches(fn, WasmSource.Step(fn.env, fn.ops, f), StepSlots(fn.env, fn.Code(), m))
  {
    hide Fn.At, Accepts, LabelsOk, Fn.Position, Fn.Code, Opens, TouchPlain;
    PlainEmitted(fn, f.pc, LocalSet(l));
    FusedCloser(fn, fn.Emitted(f.pc));
    var s := a.level;
    var w := Produces(a.mnemonic.plain, m.slots, s);
    assert f.stack == m.slots[..s] + [w];
    ExecDefined(fn.env, LocalSet(l), [w], f.heap);
    assert f.stack[s..] == [w] && f.stack[..s] + [] == m.slots[..s];
    LabelsStay(fn, f.pc, f.labels);
    var h := f.heap.(locals := f.heap.locals[l := w]);
    Arrive(fn, f.pc, f.(pc := f.pc + 1, stack := m.slots[..s], heap := h), m.(pc := m.pc + 1, heap := h));
    hide Related, HeapOk;
  }

  /** `const; op` becomes one operation with an immediate. */
  lemma ImmediateSim(fn: Fn, f: Frame, m: Machine, a: Imc, op: BinOp)
    requires Owing(fn, f, m, a) && fn.ops[f.pc] == Instr(Binary(op))
    requires Aligned(a, fn.Unfused()[fn.Emitted(f.pc)])
    ensures Matches(fn, WasmSource.Step(fn.env, fn.ops, f), StepSlots(fn.env, fn.Code(), m))
  {
    hide Fn.At, Accepts, LabelsOk, HeapOk, Fn.Position, Fn.Code, Opens, EvalBin, FusedArith32, FusedArith64, TouchPlain,
      WasmSource.Step, StepSlots, Related, Exec;
    PlainEmitted(fn, f.pc, Binary(op));
    FusedCloser(fn, fn.Emitted(f.pc));
    var s := |f.stack| - 2;
    var v := Produces(a.mnemonic.plain, m.slots, a.level);
    assert f.stack == m.slots[..s + 1] + [v];
    if a.mnemonic.plain.Const32? {
      Immediate32Agrees(op, m.slots[s], v);
    } else {
      Immediate64Agrees(op, m.slots[s], v);
    }
    ImmediateSteps(fn.env, fn.ops, fn.Code(), f, m, op, s, v);
    var w := EvalBin(op, m.slots[s], v).w;
    var m' := m.(pc := m.pc + 1, slots := m.slots[s := w]);
    assert m'.slots[..s + 1] == m.slots[..s] + [w];
    LabelsStay(fn, f.pc, f.labels);
    Arrive(fn, f.pc, f.(pc := f.pc + 1, stack := m.slots[..s] + [w]), m');
  }

  lemma ImmediateSteps(env: Env, ops: seq<Op>, code: seq<Imc>, f: Frame, m: Machine, op: BinOp, s: nat, v: Word)
    requires f.pc < |ops| && ops[f.pc] == Instr(Binary(op)) && s < |m.slots| && f.stack == m.slots[..s + 1] + [v]
    requires m.pc < |code| && code[m.pc].level == s
    requires EvalBin(op, m.slots[s], v).Value?
    requires
      || (code[m.pc].mnemonic.FusedImm32? && v == code[m.pc].mnemonic.imm32
          && EvalBin(op, m.slots[s], v) == Value(FusedArith32(code[m.pc].mnemonic.op, GetI32(m.slots[s]), v)))
      || (code[m.pc].mnemonic.FusedImm64? && v == code[m.pc].mnemonic.imm64
          && EvalBin(op, m.slots[s], v) == Value(FusedArith64(code[m.pc].mnemonic.op, m.slots[s], v)))
    ensures var w := EvalBin(op, m.slots[s], v).w;
      && WasmSource.Step(env, ops, f) == Running(f.(pc := f.pc + 1, stack := m.slots[..s] + [w]))
      && StepSlots(env, code, m) == Running(m.(pc := m.pc + 1, slots := m.slots[s := w]))
  {
    assert f.stack[s..] == [m.slots[s], v] && f.stack[..s] == m.slots[..s];
    hide EvalBin, FusedArith32, FusedArith64;
  }

  /** `compare; br_if` becomes one conditional branch. */
  lemma BranchPairSim(fn: Fn, f: Frame, m: Machine, a: Imc, d: nat)
    requires Owing(fn, f, m, a) && fn.ops[f.pc] == BrIf(d)
    requires Aligned(a, fn.Unfused()[fn.Emitted(f.pc)]) && Disciplined(fn.env, fn.At(f.pc), fn.ops[f.pc])
    ensures Matches(fn, WasmSource.Step(fn.env, fn.ops, f), StepSlots(fn.env, fn.Code(), m))
  {
    hide Fn.At, Accepts, LabelsOk, HeapOk, Fn.Position, Fn.Code, Opens, WasmSource.Step, StepSlots, Related, Branch,
      EvalCompare, Fn.Place;
    var s := a.level;
    BranchPairCode(fn, f, m, a, d);
    assert f.stack == m.slots[..s] + [Produces(a.mnemonic.plain, m.slots, s)];
    BranchPairSteps(fn.env, fn.ops, fn.Code(), f, m, a, d, fn.Place(Target(fn.At(f.pc), d).value));
    var g := f.(stack := m.slots[..s]);
    BranchSim(fn, g, m, d);
    LabelsStay(fn, f.pc, f.labels);
    Arrive(fn, f.pc, g.(pc := f.pc + 1), m.(pc := m.pc + 1));
  }

  /** The fused branch that the comparison `a` and a branch to `t` make. */
  function FusedBranch(a: Plain, t: nat): Mnemonic
    requires Producer(a)
  {
    match a
    case Unary(op) => if op.I32Eqz? then FusedBrZ32(t) else FusedBrZ64(t)
    case Binary(op) => FusedBrCompare(op, t)
    case _ => ImNop
  }

  lemma BranchPairCode(fn: Fn, f: Frame, m: Machine, a: Imc, d: nat)
    requires Owing(fn, f, m, a) && fn.ops[f.pc] == BrIf(d) && Aligned(a, fn.Unfused()[fn.Emitted(f.pc)])
    ensures Target(fn.At(f.pc), d).Some? && m.pc < |fn.Code()|
    ensures !a.mnemonic.plain.Const32? && !a.mnemonic.plain.Const64?
    ensures fn.Code()[m.pc] == Imc(FusedBranch(a.mnemonic.plain, fn.Place(Target(fn.At(f.pc), d).value)), a.level)
    ensures |f.stack| == a.level + 1 && fn.Height(f.pc + 1) == a.level
    ensures Emits(fn, f.pc, Imc(ImBrIf(Target(fn.At(f.pc), d).value), a.level))
    ensures !Opens(fn.Unfused(), fn.Emitted(f.pc)) && Kept(fn.FusedCode()[fn.Emitted(f.pc)].mnemonic)
  {
    hide Fn.At, Accepts, Translate, LabelsOk, HeapOk, Fn.Position, Fn.Code, Opens, Fn.Place, Produces;
    Turn(fn, f.pc);
    ControlTranslates(fn.env, fn.At(f.pc), fn.ops[f.pc]);
    ControlEmits(fn, f.pc, Imc(ImBrIf(Target(fn.At(f.pc), d).value), |f.stack| - 1));
    FusedCloser(fn, fn.Emitted(f.pc));
  }

  lemma BranchPairSteps(env: Env, ops: seq<Op>, code: seq<Imc>, f: Frame, m: Machine, a: Imc, d: nat, t: nat)
    requires f.pc < |ops| && ops[f.pc] == BrIf(d) && a.mnemonic.Simple? && Producer(a.mnemonic.plain)
    requires !a.mnemonic.plain.Const32? && !a.mnemonic.plain.Const64?
    requires a.level + TouchPlain(a.mnemonic.plain) <= |m.slots|
    requires f.stack == m.slots[..a.level] + [Produces(a.mnemonic.plain, m.slots, a.level)]
    requires m.pc < |code| && code[m.pc] == Imc(FusedBranch(a.mnemonic.plain, t), a.level)
    ensures var c := GetI32(Produces(a.mnemonic.plain, m.slots, a.level)) != 0;
      var g := f.(stack := m.slots[..a.level]);
      && WasmSource.Step(env, ops, f) == (if c then Branch(ops, g, d) else Running(g.(pc := f.pc + 1)))
      && StepSlots(env, code, m) == Running(m.(pc := if c then t else m.pc + 1))
  {
    hide EvalCompare, Branch;
    assert f.stack[..a.level] == m.slots[..a.level];
  }

  /** The second half of a fused pair is one interpreter step. */
  lemma ClosePairSim(fn: Fn, f: Frame, m: Machine)
    requires fn.Ok() && Related(fn, f, m) && f.pc < fn.last && Closes(fn.Unfused(), fn.Emitted(f.pc))
    requires !Silent(fn.ops[f.pc]) && !fn.ops[f.pc].Block? && !fn.ops[f.pc].Loop? && !fn.ops[f.pc].End?
    requires Aligned(fn.Unfused()[fn.Emitted(f.pc) - 1], fn.Unfused()[fn.Emitted(f.pc)])
    requires Disciplined(fn.env, fn.At(f.pc), fn.ops[f.pc])
    ensures Matches(fn, WasmSource.Step(fn.env, fn.ops, f), StepSlots(fn.env, fn.Code(), m))
  {
    hide Fn.At, Accepts, Related, WasmSource.Step, StepSlots, Fn.Code, Opens, Disciplined;
    var a := StackOwes(fn, f, m);
    CloserKind(fn, f.pc);
    hide Owing, Matches;
    match fn.ops[f.pc]
    case BrIf(d) => BranchPairSim(fn, f, m, a, d);
    case Instr(LocalSet(l)) => SetConstSim(fn, f, m, a, l);
    case Instr(Binary(op)) => ImmediateSim(fn, f, m, a, op);
    case _ =>
  }

  lemma CloserKind(fn: Fn, k: nat)
    requires fn.Ok() && k < fn.last && Closes(fn.Unfused(), fn.Emitted(k)) && !Silent(fn.ops[k])
    ensures fn.ops[k].Block? || fn.ops[k].Loop? || fn.ops[k].End? || fn.ops[k].BrIf?
      || (fn.ops[k].Instr? && (fn.ops[k].plain.LocalSet? || fn.ops[k].plain.Binary?))
  {
    hide Accepts, Structured, Stacked;
    Turn(fn, k);
    EmittedAt(fn, k);
  }
}
