/** The step-by-step simulation of the stack machine by the compiled code. */
module WasmCorrect {
  import opened Wrappers
  import opened WasmInstr
  import opened WasmSource
  import opened WasmSlots
  import opened T = WasmTranslate
  import opened WasmOptimize
  import opened WasmStatic
  import opened WasmFunction
  import opened WasmSimulation
  import M = WasmMemory

  // ---- what is emitted for an operation ----

  lemma EmittedIs(fn: Fn, k: nat, c: Imc)
    requires fn.Ok() && k <= fn.last && !Silent(fn.ops[k])
    requires var o := Translate(fn.env, Raise(fn.At(k)), fn.ops[k]); !o.Failed? && o.gen.codes == fn.At(k).codes + [c]
    ensures fn.Emitted(k) < |fn.Unfused()| && fn.Unfused()[fn.Emitted(k)] == c
    ensures fn.Emitted(k + 1) == fn.Emitted(k) + 1
  {
    assert fn.last < |fn.ops|;
    hide Fn.At, Accepts, Translate;
    Turn(fn, k);
    EmittedAt(fn, k);
  }

  /** Instruction `k` emits `c`, moves on to the next one and leaves the blocks alone. */
  ghost predicate Emits(fn: Fn, k: nat, c: Imc) {
    && k < fn.last < |fn.ops| && fn.Emitted(k) < |fn.Unfused()| && fn.Unfused()[fn.Emitted(k)] == c
    && fn.Emitted(k + 1) == fn.Emitted(k) + 1
    && fn.At(k + 1).blockStack == fn.At(k).blockStack
  }

  lemma PlainEmitted(fn: Fn, k: nat, p: Plain)
    requires fn.Ok() && k < fn.last && fn.ops[k] == Instr(p)
    ensures Pops(p) <= fn.Height(k) && fn.Height(k + 1) == fn.Height(k) - Pops(p) + Pushes(p)
    ensures EarlyError(fn.env, p).None?
    ensures Emits(fn, k, Imc(PlainMnemonic(fn.env, p), fn.Height(k) - Pops(p)))
  {
    assert fn.last < |fn.ops|;
    hide Fn.At, Accepts, Translate, PlainMnemonic;
    Turn(fn, k);
    PlainTranslates(fn.env, fn.At(k), p);
    EmittedIs(fn, k, Imc(PlainMnemonic(fn.env, p), fn.Height(k) - Pops(p)));
  }

  lemma PlainTranslates(env: Env, g: Gen, p: Plain)
    requires !Translate(env, Raise(g), Instr(p)).Failed?
    ensures var n, g' := |g.values|, Translate(env, Raise(g), Instr(p)).gen;
      && Pops(p) <= n && |g'.values| == n - Pops(p) + Pushes(p) && EarlyError(env, p).None?
      && g'.codes == g.codes + [Imc(PlainMnemonic(env, p), n - Pops(p))] && g'.blockStack == g.blockStack
  {
  }

  // ---- moving on ----

  /** Labels stay right when the block stack does not move. */
  lemma LabelsStay(fn: Fn, k: nat, labels: seq<Label>)
    requires LabelsOk(fn, k, labels) && fn.At(k + 1).blockStack == fn.At(k).blockStack
    ensures LabelsOk(fn, k + 1, labels)
  {
    hide Fn.At;
    forall j | 0 <= j < |labels| ensures LabelOk(fn, k + 1, labels[j], j) {
      assert LabelOk(fn, k, labels[j], j);
    }
  }

  /** In front of an instruction that closes no pair, the slots show the operand stack. */
  ghost predicate Poised(fn: Fn, f: Frame, m: Machine) {
    && f.pc < fn.last < |fn.ops| && LabelsOk(fn, f.pc, f.labels) && f.heap == m.heap && HeapOk(fn.env, f.heap)
    && |f.stack| <= |m.slots| == fn.Slots() && f.stack == m.slots[..|f.stack|]
    && m.pc == fn.Position(fn.Emitted(f.pc))
  }

  lemma StackIsSlots(fn: Fn, f: Frame, m: Machine)
    requires Related(fn, f, m) && f.pc < fn.last && !Closes(fn.Unfused(), fn.Emitted(f.pc))
    ensures Poised(fn, f, m) && |f.stack| == fn.Height(f.pc)
  {
    hide Fn.At, LabelsOk, HeapOk, Owed, Fn.Position;
  }

  lemma PositionNext(fn: Fn, i: nat)
    requires i < |fn.Unfused()|
    ensures fn.Position(i + 1) == fn.Position(i) + if Kept(fn.FusedCode()[i].mnemonic) then 1 else 0
  {
  }

  /** Arriving behind instruction `p`, which opens no pair. */
  lemma Arrive(fn: Fn, p: nat, f: Frame, m: Machine)
    requires p < fn.last < |fn.ops| && fn.Emitted(p) < |fn.Unfused()| && fn.Emitted(p + 1) == fn.Emitted(p) + 1
    requires !Opens(fn.Unfused(), fn.Emitted(p))
    requires f.pc == p + 1 && |f.stack| == fn.Height(p + 1) <= |m.slots| == fn.Slots()
    requires f.stack == m.slots[..|f.stack|]
    requires LabelsOk(fn, p + 1, f.labels) && f.heap == m.heap && HeapOk(fn.env, f.heap)
    requires m.pc == fn.Position(fn.Emitted(p)) + if Kept(fn.FusedCode()[fn.Emitted(p)].mnemonic) then 1 else 0
    ensures Related(fn, f, m)
  {
    hide Fn.At, LabelsOk, HeapOk, Owed;
    PositionNext(fn, fn.Emitted(p));
  }

  // ---- the plain instructions ----

  /** Each arm of the interpreter computes, in place, what the instruction means. */
  lemma ArmIsExec(env: Env, p: Plain, s: nat, m: Machine)
    requires s + TouchPlain(p) <= |m.slots|
    ensures match Exec(env, p, m.slots[s..s + Pops(p)], m.heap)
      case Pushed(vs, h) =>
        && Arm(env, p, s, m).Running?
        && var m' := Arm(env, p, s, m).state;
           m'.pc == m.pc + 1 && m'.heap == h && |m'.slots| == |m.slots| && m'.slots[..s + |vs|] == m.slots[..s] + vs
      case Traps(t) => Arm(env, p, s, m) == Trapped(t, m.heap)
      case Stuck => Arm(env, p, s, m) == Wrong
  {
    var args := m.slots[s..s + Pops(p)];
    assert Pops(p) > 0 ==> args[0] == m.slots[s];
    assert Pops(p) > 1 ==> args[1] == m.slots[s + 1];
    assert Pops(p) > 2 ==> args[2] == m.slots[s + 2];
    hide EvalBin, EvalUn, Loaded, M.Read, M.Write, M.Grow;
  }

  /** Nothing an accepted instruction does is undefined. */
  lemma ExecDefined(env: Env, p: Plain, args: seq<Word>, h: Heap)
    requires |args| == Pops(p) && EarlyError(env, p).None? && HeapOk(env, h)
    ensures !Exec(env, p, args, h).Stuck?
    ensures Exec(env, p, args, h).Pushed? ==> HeapOk(env, Exec(env, p, args, h).heap)
  {
  }

  lemma PlainTouch(env: Env, p: Plain)
    ensures Touch(PlainMnemonic(env, p)) == TouchPlain(p) && !PlainMnemonic(env, p).ImReturn?
    ensures Kept(PlainMnemonic(env, p)) && TargetsOf(PlainMnemonic(env, p)) == []
  {
  }

  /** A plain instruction outside any fused pair, with its operands in the slots. */
  ghost predicate Lone(fn: Fn, f: Frame, m: Machine, p: Plain) {
    && fn.Ok() && Poised(fn, f, m) && |f.stack| == fn.Height(f.pc) && fn.ops[f.pc] == Instr(p) && Pops(p) <= |f.stack|
    && !Opens(fn.Unfused(), fn.Emitted(f.pc)) && !Closes(fn.Unfused(), fn.Emitted(f.pc))
  }

  /** Stack machine and interpreter arm agree on the effect, and on the slots it leaves. */
  ghost predicate Agree(fn: Fn, f: Frame, m: Machine, p: Plain)
    requires Pops(p) <= |f.stack|
  {
    var s := |f.stack| - Pops(p);
    match Exec(fn.env, p, f.stack[s..], f.heap)
    case Pushed(vs, h) =>
      && Arm(fn.env, p, s, m).Running? && HeapOk(fn.env, h)
      && var m' := Arm(fn.env, p, s, m).state;
         m'.pc == m.pc + 1 && m'.heap == h && |m'.slots| == |m.slots| && s + |vs| <= |m.slots|
         && m'.slots[..s + |vs|] == f.stack[..s] + vs
    case Traps(t) => Arm(fn.env, p, s, m) == Trapped(t, f.heap)
    case Stuck => false
  }

  lemma PlainAgree(fn: Fn, f: Frame, m: Machine, p: Plain)
    requires Lone(fn, f, m, p)
    ensures Agree(fn, f, m, p)
  {
    hide Fn.At, Fn.Position, Accepts, Exec, Arm, LabelsOk, Fused, Opens;
    PlainEmitted(fn, f.pc, p);
    SlotsFit(fn, fn.Emitted(f.pc));
    PlainTouch(fn.env, p);
    var s := |f.stack| - Pops(p);
    assert f.stack[s..] == m.slots[s..s + Pops(p)];
    assert f.stack[..s] == m.slots[..s];
    ArmIsExec(fn.env, p, s, m);
    ExecDefined(fn.env, p, f.stack[s..], f.heap);
  }

  lemma PlainFetch(fn: Fn, f: Frame, m: Machine, p: Plain)
    requires Lone(fn, f, m, p)
    ensures StepSlots(fn.env, fn.Code(), m) == Arm(fn.env, p, |f.stack| - Pops(p), m)
  {
    hide Fn.At, Accepts, Arm, Fn.Code, Fn.Position, LabelsOk, HeapOk;
    PlainEmitted(fn, f.pc, p);
    PlainTouch(fn.env, p);
    CodeAt(fn, fn.Emitted(f.pc));
  }

  lemma PlainMoved(fn: Fn, f: Frame, m: Machine, p: Plain)
    requires Lone(fn, f, m, p) && Agree(fn, f, m, p)
    ensures var s := |f.stack| - Pops(p);
      match Exec(fn.env, p, f.stack[s..], f.heap)
      case Pushed(vs, h) =>
        && Arm(fn.env, p, s, m).Running?
        && Related(fn, f.(pc := f.pc + 1, stack := f.stack[..s] + vs, heap := h), Arm(fn.env, p, s, m).state)
      case _ => true
  {
    hide Fn.At, Accepts, Fn.Position, Exec, Arm, Related, HeapOk;
    PlainEmitted(fn, f.pc, p);
    var s := |f.stack| - Pops(p);
    var e := Exec(fn.env, p, f.stack[s..], f.heap);
    PlainTouch(fn.env, p);
    if e.Pushed? {
      LabelsStay(fn, f.pc, f.labels);
      Arrive(fn, f.pc, f.(pc := f.pc + 1, stack := f.stack[..s] + e.values, heap := e.heap),
        Arm(fn.env, p, s, m).state);
    }
  }

  lemma PlainIsLone(fn: Fn, f: Frame, m: Machine, p: Plain)
    requires fn.Ok() && Related(fn, f, m) && f.pc < fn.last && fn.ops[f.pc] == Instr(p)
    requires !Opens(fn.Unfused(), fn.Emitted(f.pc)) && !Closes(fn.Unfused(), fn.Emitted(f.pc))
    ensures Lone(fn, f, m, p)
  {
    StackIsSlots(fn, f, m);
    PlainEmitted(fn, f.pc, p);
    hide Fn.At, Accepts, Related, Poised, Opens, Closes;
  }

  /** A plain instruction outside any fused pair is one interpreter step. */
  lemma PlainSim(fn: Fn, f: Frame, m: Machine, p: Plain)
    requires fn.Ok() && Related(fn, f, m) && f.pc < fn.last && fn.ops[f.pc] == Instr(p)
    requires !Opens(fn.Unfused(), fn.Emitted(f.pc)) && !Closes(fn.Unfused(), fn.Emitted(f.pc))
    ensures Matches(fn, WasmSource.Step(fn.env, fn.ops, f), StepSlots(fn.env, fn.Code(), m))
  {
    PlainIsLone(fn, f, m, p);
    LoneSim(fn, f, m, p);
  }

  lemma LoneSim(fn: Fn, f: Frame, m: Machine, p: Plain)
    requires Lone(fn, f, m, p)
    ensures Matches(fn, WasmSource.Step(fn.env, fn.ops, f), StepSlots(fn.env, fn.Code(), m))
  {
    hide Fn.At, Accepts, Fn.Code, StepSlots, Exec, Arm, Related, Opens, LabelsOk, HeapOk;
    PlainAgree(fn, f, m, p);
    PlainFetch(fn, f, m, p);
    PlainMoved(fn, f, m, p);
  }

  // ---- branches ----

  lemma LabelsShrink(fn: Fn, k: nat, labels: seq<Label>, q: nat, n: nat)
    requires LabelsOk(fn, k, labels) && n <= |labels| && fn.At(q).blockStack == fn.At(k).blockStack[..n]
    ensures LabelsOk(fn, q, labels[..n])
  {
    hide Fn.At;
    forall j | 0 <= j < n ensures LabelOk(fn, q, labels[..n][j], j) {
      assert LabelOk(fn, k, labels[j], j);
      assert fn.At(q).blockStack[..j + 1] == fn.At(k).blockStack[..j + 1];
    }
  }

  /** Where a branch to an open loop lands, in both worlds. */
  lemma LoopEntered(fn: Fn, k: nat, l: Label, i: nat)
    requires fn.Ok() && LabelOk(fn, k, l, i) && fn.ops[l.pos].Loop?
    ensures Landing(fn, l.pos, fn.At(k).blockStack[..i + 1], l.height, fn.At(k).blockStack[i])
  {
    hide Fn.At, Accepts, Fused, Fn.Place, Fn.Position;
    OpenedBy(fn, l.pos);
    OpenedMark(fn, l.pos);
    StartFound(fn, fn.At(k).blockStack[i], fn.Emitted(l.pos));
  }

  /** Where a branch out of an open block lands. */
  lemma BlockLeft(fn: Fn, k: nat, l: Label, i: nat)
    requires fn.Ok() && LabelOk(fn, k, l, i) && fn.ops[l.pos].Block?
    ensures Landing(fn, MatchEnd(fn.ops, l.pos + 1, 0), fn.At(k).blockStack[..i], l.height, fn.At(k).blockStack[i])
  {
    hide Fn.At, Accepts, Fused, Fn.Place, Fn.Position, MatchEnd;
    var open := fn.At(k).blockStack[..i + 1];
    OpenedBy(fn, l.pos);
    MatchFinds(fn, l.pos + 1, open);
    var e := MatchEnd(fn.ops, l.pos + 1, 0);
    ClosedBy(fn, e);
    ClosedMark(fn, e);
    EndFound(fn, open[i], fn.Emitted(e));
    assert open[..i] == fn.At(k).blockStack[..i];
  }

  /** Behind the marker emitted for instruction `p` the open blocks are `open`, the height is
      `height`, and the branch target of block `b` is its position. */
  ghost predicate Landing(fn: Fn, p: nat, open: seq<nat>, height: nat, b: nat) {
    && p < fn.last < |fn.ops| && fn.Emitted(p) < |fn.Unfused()| && fn.Emitted(p + 1) == fn.Emitted(p) + 1
    && (fn.Unfused()[fn.Emitted(p)].mnemonic.BlockMark? || fn.Unfused()[fn.Emitted(p)].mnemonic.EndMark?)
    && fn.At(p + 1).blockStack == open && fn.Height(p + 1) == height && fn.Place(b) == fn.Position(fn.Emitted(p))
  }

  lemma Land(fn: Fn, f: Frame, m: Machine, p: nat, n: nat, height: nat, b: nat)
    requires Poised(fn, f, m) && n <= |f.labels| && height <= |f.stack|
    requires Landing(fn, p, fn.At(f.pc).blockStack[..n], height, b)
    ensures Related(fn, f.(pc := p + 1, stack := f.stack[..height], labels := f.labels[..n]), m.(pc := fn.Place(b)))
  {
    hide Fn.At, Fn.Position, Fn.Place, LabelsOk, HeapOk, Related, Fused;
    LabelsShrink(fn, f.pc, f.labels, p + 1, n);
    FusedMarks(fn.Unfused(), fn.Emitted(p));
    var f' := f.(pc := p + 1, stack := f.stack[..height], labels := f.labels[..n]);
    Arrive(fn, p, f', m.(pc := fn.Place(b)));
  }

  lemma LabelHeight(fn: Fn, k: nat, l: Label, i: nat)
    requires fn.Ok() && k <= fn.last && LabelOk(fn, k, l, i)
    requires fn.At(k).blockStack[i] < |fn.At(k).blocks|
    ensures fn.At(k).blocks[fn.At(k).blockStack[i]].level == l.height
  {
    hide Fn.At, Accepts;
    OpenedBy(fn, l.pos);
    Grows(fn, k, fn.last + 1);
    assert fn.At(k).blocks[fn.At(k).blockStack[i]] == fn.Blocks()[fn.At(k).blockStack[i]];
  }

  /** A branch taken by both machines. */
  lemma BranchSim(fn: Fn, f: Frame, m: Machine, d: nat)
    requires fn.Ok() && Poised(fn, f, m) && ReachesDown(fn.At(f.pc), d, |f.stack|)
    ensures Target(fn.At(f.pc), d).Some? && Branch(fn.ops, f, d).Running?
    ensures Related(fn, Branch(fn.ops, f, d).state, m.(pc := fn.Place(Target(fn.At(f.pc), d).value)))
  {
    hide Fn.At, Accepts, Fn.Position, Fn.Place, Related, Landing, MatchEnd, HeapOk;
    var i := |f.labels| - 1 - d;
    var l, b := f.labels[i], fn.At(f.pc).blockStack[i];
    assert LabelOk(fn, f.pc, l, i);
    LabelHeight(fn, f.pc, l, i);
    if fn.ops[l.pos].Loop? {
      LoopEntered(fn, f.pc, l, i);
      Land(fn, f, m, l.pos, i + 1, l.height, b);
    } else {
      BlockLeft(fn, f.pc, l, i);
      Land(fn, f, m, MatchEnd(fn.ops, l.pos + 1, 0), i, l.height, b);
    }
  }

  // ---- control instructions outside fused pairs ----

  lemma ControlTranslates(env: Env, g: Gen, op: Op)
    requires !Translate(env, Raise(g), op).Failed?
    requires op.Br? || op.BrIf? || op.BrTable? || op.Return? || op.Unreachable?
    ensures var n, g' := |g.values|, Translate(env, Raise(g), op).gen;
      && g'.blockStack == g.blockStack
      && (op.Br? ==> Target(g, op.depth).Some? && g'.codes == g.codes + [Imc(ImBr(Target(g, op.depth).value), n)])
      && (op.BrIf? ==> (
            Target(g, op.depth).Some? && n > 0 && |g'.values| == n - 1
            && g'.codes == g.codes + [Imc(ImBrIf(Target(g, op.depth).value), n - 1)]))
      && (op.BrTable? ==> (
            Targets(g, op.depths).Some? && n > 0 && op.depths != []
            && g'.codes == g.codes + [Imc(ImBrTable(Targets(g, op.depths).value), n - 1)]))
      && (op.Return? ==> g'.codes == g.codes + [Imc(ImReturn, Below(n))])
      && (op.Unreachable? ==> g'.codes == g.codes + [Imc(ImUnreachable, n)])
  {
    hide Translate;
    match op
    case BrTable(ds) => TableTranslates(env, g, ds);
    case BrIf(d) => BrIfTranslates(env, g, d);
    case _ => PlainControlTranslates(env, g, op);
  }

  lemma PlainControlTranslates(env: Env, g: Gen, op: Op)
    requires !Translate(env, Raise(g), op).Failed? && (op.Br? || op.Return? || op.Unreachable?)
    ensures var n, g' := |g.values|, Translate(env, Raise(g), op).gen;
      && g'.blockStack == g.blockStack
      && (op.Br? ==> Target(g, op.depth).Some? && g'.codes == g.codes + [Imc(ImBr(Target(g, op.depth).value), n)])
      && (op.Return? ==> g'.codes == g.codes + [Imc(ImReturn, Below(n))])
      && (op.Unreachable? ==> g'.codes == g.codes + [Imc(ImUnreachable, n)])
  {
    hide TranslatePlain, Open, Targets;
  }

  lemma BrIfTranslates(env: Env, g: Gen, d: nat)
    requires !Translate(env, Raise(g), BrIf(d)).Failed?
    ensures var n, g' := |g.values|, Translate(env, Raise(g), BrIf(d)).gen;
      && g'.blockStack == g.blockStack && Target(g, d).Some? && n > 0 && |g'.values| == n - 1
      && g'.codes == g.codes + [Imc(ImBrIf(Target(g, d).value), n - 1)]
  {
    hide TranslatePlain, Open, Targets;
  }

  lemma TableTranslates(env: Env, g: Gen, ds: seq<nat>)
    requires !Translate(env, Raise(g), BrTable(ds)).Failed?
    ensures var n, g' := |g.values|, Translate(env, Raise(g), BrTable(ds)).gen;
      && g'.blockStack == g.blockStack && Targets(g, ds).Some? && n > 0 && ds != []
      && g'.codes == g.codes + [Imc(ImBrTable(Targets(g, ds).value), n - 1)]
  {
    TargetsRaise(g, ds);
    hide TranslatePlain, Open, Targets, Target;
  }

  lemma {:induction false} TargetsRaise(g: Gen, ds: seq<nat>)
    ensures Targets(Raise(g), ds) == Targets(g, ds)
    ensures Targets(g, ds).Some? ==>
      |Targets(g, ds).value| == |ds|
      && forall i :: 0 <= i < |ds| ==> Target(g, ds[i]) == Some(Targets(g, ds).value[i])
  {
    if ds != [] {
      TargetsRaise(g, ds[1..]);
      assert forall i :: 1 <= i < |ds| ==> ds[i] == ds[1..][i - 1];
    }
  }

  /** A control instruction outside any fused pair, with the operand stack in the slots. */
  ghost predicate AtControl(fn: Fn, f: Frame, m: Machine) {
    && fn.Ok() && Poised(fn, f, m) && |f.stack| == fn.Height(f.pc) && !Closes(fn.Unfused(), fn.Emitted(f.pc))
    && Disciplined(fn.env, fn.At(f.pc), fn.ops[f.pc])
  }

  /** The emitted control code, as the final code holds it. */
  lemma ControlCode(fn: Fn, k: nat, c: Imc)
    requires fn.Ok() && Emits(fn, k, c) && !Closes(fn.Unfused(), fn.Emitted(k))
    requires Kept(c.mnemonic) && !c.mnemonic.Simple?
    ensures fn.Position(fn.Emitted(k)) < |fn.Code()| && fn.Code()[fn.Position(fn.Emitted(k))].level == c.level
    ensures Placed(fn, c.mnemonic, fn.Code()[fn.Position(fn.Emitted(k))].mnemonic)
    ensures !Opens(fn.Unfused(), fn.Emitted(k)) && Kept(fn.FusedCode()[fn.Emitted(k)].mnemonic)
  {
    hide Fn.At, Accepts, Placed, Fn.Code, Fn.Position;
    CodeAt(fn, fn.Emitted(k));
  }

  lemma ControlEmits(fn: Fn, k: nat, c: Imc)
    requires fn.Ok() && k < fn.last && !Silent(fn.ops[k])
    requires var o := Translate(fn.env, Raise(fn.At(k)), fn.ops[k]);
      !o.Failed? && o.gen.codes == fn.At(k).codes + [c] && o.gen.blockStack == fn.At(k).blockStack
    ensures Emits(fn, k, c)
  {
    assert fn.last < |fn.ops|;
    hide Fn.At, Accepts, Translate;
    Turn(fn, k);
    EmittedIs(fn, k, c);
  }

  lemma BrSim(fn: Fn, f: Frame, m: Machine, d: nat)
    requires AtControl(fn, f, m) && fn.ops[f.pc] == Br(d)
    ensures Matches(fn, WasmSource.Step(fn.env, fn.ops, f), StepSlots(fn.env, fn.Code(), m))
  {
    hide Fn.At, Accepts, Translate, Branch, Related, LabelsOk, HeapOk, Fn.Code, Fn.Position, Fn.Place;
    Turn(fn, f.pc);
    ControlTranslates(fn.env, fn.At(f.pc), fn.ops[f.pc]);
    var t := Target(fn.At(f.pc), d).value;
    ControlEmits(fn, f.pc, Imc(ImBr(t), |f.stack|));
    ControlCode(fn, f.pc, Imc(ImBr(t), |f.stack|));
    BranchSim(fn, f, m, d);
  }

  /** Both machines at a conditional branch, given that they see the same condition. */
  lemma BrIfSteps(env: Env, ops: seq<Op>, code: seq<Imc>, f: Frame, m: Machine, d: nat, t: nat)
    requires f.pc < |ops| && ops[f.pc] == BrIf(d) && f.stack != [] && |f.stack| <= |m.slots|
    requires m.pc < |code| && code[m.pc] == Imc(ImBrIf(t), |f.stack| - 1)
    requires f.stack[|f.stack| - 1] == m.slots[|f.stack| - 1]
    ensures var g, c := f.(stack := f.stack[..|f.stack| - 1]), GetI32(f.stack[|f.stack| - 1]) != 0;
      && WasmSource.Step(env, ops, f) == (if c then Branch(ops, g, d) else Running(g.(pc := f.pc + 1)))
      && StepSlots(env, code, m) == Running(m.(pc := if c then t else m.pc + 1))
  {
  }

  lemma BrIfSim(fn: Fn, f: Frame, m: Machine, d: nat)
    requires AtControl(fn, f, m) && fn.ops[f.pc] == BrIf(d)
    ensures Matches(fn, WasmSource.Step(fn.env, fn.ops, f), StepSlots(fn.env, fn.Code(), m))
  {
    hide Fn.At, Accepts, Translate, Branch, Related, LabelsOk, HeapOk, Fn.Code, Fn.Position, Fn.Place, StepSlots,
      WasmSource.Step, Opens, Closes;
    BrIfHere(fn, f, m, d);
    BrIfSteps(fn.env, fn.ops, fn.Code(), f, m, d, fn.Place(Target(fn.At(f.pc), d).value));
    BrIfBoth(fn, f, m, d);
  }

  lemma BrIfHere(fn: Fn, f: Frame, m: Machine, d: nat)
    requires AtControl(fn, f, m) && fn.ops[f.pc] == BrIf(d)
    ensures f.stack != [] && Target(fn.At(f.pc), d).Some? && m.pc < |fn.Code()|
    ensures fn.Code()[m.pc] == Imc(ImBrIf(fn.Place(Target(fn.At(f.pc), d).value)), |f.stack| - 1)
    ensures fn.Height(f.pc + 1) == |f.stack| - 1
    ensures Emits(fn, f.pc, Imc(ImBrIf(Target(fn.At(f.pc), d).value), |f.stack| - 1))
    ensures !Opens(fn.Unfused(), fn.Emitted(f.pc)) && Kept(fn.FusedCode()[fn.Emitted(f.pc)].mnemonic)
  {
    hide Fn.At, Accepts, Translate, LabelsOk, HeapOk, Fn.Code, Fn.Position, Fn.Place, Opens;
    Turn(fn, f.pc);
    ControlTranslates(fn.env, fn.At(f.pc), fn.ops[f.pc]);
    var c := Imc(ImBrIf(Target(fn.At(f.pc), d).value), |f.stack| - 1);
    ControlEmits(fn, f.pc, c);
    ControlCode(fn, f.pc, c);
  }

  /** Taken or not, the two machines stay related. */
  lemma BrIfBoth(fn: Fn, f: Frame, m: Machine, d: nat)
    requires AtControl(fn, f, m) && fn.ops[f.pc] == BrIf(d) && f.stack != []
    ensures Target(fn.At(f.pc), d).Some?
    ensures var g := f.(stack := f.stack[..|f.stack| - 1]);
      && Branch(fn.ops, g, d).Running?
      && Related(fn, Branch(fn.ops, g, d).state, m.(pc := fn.Place(Target(fn.At(f.pc), d).value)))
      && Related(fn, g.(pc := f.pc + 1), m.(pc := m.pc + 1))
  {
    hide Fn.At, Accepts, Branch, Related, LabelsOk, HeapOk, Fn.Position, Fn.Place, Opens, Fn.Code;
    BrIfHere(fn, f, m, d);
    var g := f.(stack := f.stack[..|f.stack| - 1]);
    assert Poised(fn, g, m);
    BranchSim(fn, g, m, d);
    LabelsStay(fn, f.pc, f.labels);
    Arrive(fn, f.pc, g.(pc := f.pc + 1), m.(pc := m.pc + 1));
  }

  lemma BrTableSteps(env: Env, ops: seq<Op>, code: seq<Imc>, f: Frame, m: Machine, ds: seq<nat>, j: nat)
    requires f.pc < |ops| && ops[f.pc] == BrTable(ds) && ds != [] && f.stack != [] && |f.stack| <= |m.slots|
    requires m.pc < |code| && code[m.pc].mnemonic.ImBrTable? && code[m.pc].level == |f.stack| - 1
    requires |code[m.pc].mnemonic.targets| == |ds|
    requires f.stack[|f.stack| - 1] == m.slots[|f.stack| - 1]
    requires var c := GetI32(f.stack[|f.stack| - 1]); j == if c < |ds| then c else |ds| - 1
    ensures WasmSource.Step(env, ops, f) == Branch(ops, f.(stack := f.stack[..|f.stack| - 1]), ds[j])
    ensures StepSlots(env, code, m) == Running(m.(pc := code[m.pc].mnemonic.targets[j]))
  {
  }

  lemma BrTableHere(fn: Fn, f: Frame, m: Machine, ds: seq<nat>, j: nat)
    requires AtControl(fn, f, m) && fn.ops[f.pc] == BrTable(ds) && j < |ds|
    ensures f.stack != [] && Target(fn.At(f.pc), ds[j]).Some? && m.pc < |fn.Code()|
    ensures fn.Code()[m.pc].level == |f.stack| - 1 && fn.Code()[m.pc].mnemonic.ImBrTable?
    ensures var ts := fn.Code()[m.pc].mnemonic.targets;
      |ts| == |ds| && ts[j] == fn.Place(Target(fn.At(f.pc), ds[j]).value)
  {
    hide Fn.At, Accepts, Translate, LabelsOk, HeapOk, Fn.Code, Fn.Position, Fn.Place, Opens;
    Turn(fn, f.pc);
    ControlTranslates(fn.env, fn.At(f.pc), fn.ops[f.pc]);
    TargetsRaise(fn.At(f.pc), ds);
    var c := Imc(ImBrTable(Targets(fn.At(f.pc), ds).value), |f.stack| - 1);
    ControlEmits(fn, f.pc, c);
    ControlCode(fn, f.pc, c);
  }

  lemma BrTableSim(fn: Fn, f: Frame, m: Machine, ds: seq<nat>)
    requires AtControl(fn, f, m) && fn.ops[f.pc] == BrTable(ds) && ds != [] && f.stack != []
    ensures Matches(fn, WasmSource.Step(fn.env, fn.ops, f), StepSlots(fn.env, fn.Code(), m))
  {
    hide Fn.At, Accepts, Branch, Related, LabelsOk, HeapOk, Fn.Code, Fn.Position, Fn.Place, StepSlots,
      WasmSource.Step, Opens, Closes;
    var c := GetI32(f.stack[|f.stack| - 1]);
    var j := if c < |ds| then c else |ds| - 1;
    BrTableHere(fn, f, m, ds, j);
    BrTableSteps(fn.env, fn.ops, fn.Code(), f, m, ds, j);
    var g := f.(stack := f.stack[..|f.stack| - 1]);
    assert ds[j] in ds && Poised(fn, g, m);
    BranchSim(fn, g, m, ds[j]);
  }

  // ---- leaving, trapping, and instructions without code ----

  /** Both machines leave with the value on top of the stack. */
  lemma LeaveSim(fn: Fn, f: Frame, m: Machine, i: nat)
    requires fn.Ok() && f.heap == m.heap && |f.stack| <= |m.slots| && f.stack == m.slots[..|f.stack|]
    requires fn.env.results != [] ==> f.stack != []
    requires i < |fn.Unfused()| && fn.Unfused()[i] == Imc(ImReturn, Below(|f.stack|)) && m.pc == fn.Position(i)
    ensures Matches(fn, Result(fn.env, f.stack, f.heap), StepSlots(fn.env, fn.Code(), m))
  {
    hide Fn.At, Accepts, Fn.Code, Fn.Position, Related;
    CodeAt(fn, i);
  }

  lemma ReturnSim(fn: Fn, f: Frame, m: Machine)
    requires AtControl(fn, f, m) && fn.ops[f.pc].Return?
    ensures Matches(fn, WasmSource.Step(fn.env, fn.ops, f), StepSlots(fn.env, fn.Code(), m))
  {
    hide Fn.At, Accepts, Translate, LabelsOk, HeapOk, Fn.Code, Fn.Position, Opens, Closes, Related, StepSlots, Result;
    Turn(fn, f.pc);
    ControlTranslates(fn.env, fn.At(f.pc), fn.ops[f.pc]);
    ControlEmits(fn, f.pc, Imc(ImReturn, Below(|f.stack|)));
    LeaveSim(fn, f, m, fn.Emitted(f.pc));
  }

  lemma UnreachableSim(fn: Fn, f: Frame, m: Machine)
    requires AtControl(fn, f, m) && fn.ops[f.pc].Unreachable?
    ensures Matches(fn, WasmSource.Step(fn.env, fn.ops, f), StepSlots(fn.env, fn.Code(), m))
  {
    hide Fn.At, Accepts, Translate, LabelsOk, HeapOk, Fn.Code, Fn.Position, Opens, Closes, Related;
    Turn(fn, f.pc);
    ControlTranslates(fn.env, fn.At(f.pc), fn.ops[f.pc]);
    ControlEmits(fn, f.pc, Imc(ImUnreachable, |f.stack|));
    ControlCode(fn, f.pc, Imc(ImUnreachable, |f.stack|));
  }

  /** The function-level `end`. The checks after the loop put exactly the results on the stack. */
  lemma LastSim(fn: Fn, f: Frame, m: Machine)
    requires fn.Ok() && Related(fn, f, m) && f.pc == fn.last && !Closes(fn.Unfused(), fn.Emitted(f.pc))
    ensures Matches(fn, WasmSource.Step(fn.env, fn.ops, f), StepSlots(fn.env, fn.Code(), m))
  {
    LastOp(fn);
    FinalStack(fn);
    hide Fn.At, Accepts, Fn.Code, Fn.Position, StepSlots, Result, HeapOk, Owed, Opens;
    LeaveSim(fn, f, m, fn.Emitted(f.pc));
  }

  lemma FinalStack(fn: Fn)
    requires fn.Ok()
    ensures fn.env.results != [] ==> fn.Height(fn.last) > 0
  {
  }

  /** The last instruction never closes a pair. */
  lemma LastIsOpen(fn: Fn)
    requires fn.Ok()
    ensures fn.Emitted(fn.last) < |fn.Unfused()| && !Closes(fn.Unfused(), fn.Emitted(fn.last))
  {
    LastOp(fn);
    hide Fn.At, Accepts, Fn.Unfused;
  }

  lemma SilentMoves(fn: Fn, k: nat)
    requires fn.Ok() && k < fn.last && Silent(fn.ops[k])
    ensures fn.Emitted(k + 1) == fn.Emitted(k) && fn.At(k + 1).blockStack == fn.At(k).blockStack
    ensures if fn.ops[k].Drop? then fn.Height(k) > 0 && fn.Height(k + 1) == fn.Height(k) - 1
            else fn.Height(k + 1) == fn.Height(k)
  {
    Turn(fn, k);
  }

  /** `nop` and `drop` emit nothing: the interpreter does not move. */
  lemma SilentSim(fn: Fn, f: Frame, m: Machine)
    requires fn.Ok() && Related(fn, f, m) && f.pc < fn.last && Silent(fn.ops[f.pc])
    ensures Matches(fn, WasmSource.Step(fn.env, fn.ops, f), Running(m))
  {
    hide Fn.At, Accepts, HeapOk, Owed, Opens, Fn.Position, LabelsOk, Fn.Unfused;
    SilentMoves(fn, f.pc);
    LabelsStay(fn, f.pc, f.labels);
    var v := View(fn, f.pc, m.slots);
    assert View(fn, f.pc + 1, m.slots) == v;
    assert |f.stack| > 0 ==> f.stack[..|f.stack| - 1] == v[..|f.stack| - 1];
    hide View;
  }

  /** Entering a block. */
  lemma OpenSim(fn: Fn, f: Frame, m: Machine)
    requires fn.Ok() && Related(fn, f, m) && f.pc < fn.last && (fn.ops[f.pc].Block? || fn.ops[f.pc].Loop?)
    ensures Matches(fn, WasmSource.Step(fn.env, fn.ops, f), Running(m))
  {
    hide Fn.At, Accepts, HeapOk, Owed, Fn.Position, Fused;
    OpenedBy(fn, f.pc);
    OpenedMark(fn, f.pc);
    StackIsSlots(fn, f, m);
    FusedMarks(fn.Unfused(), fn.Emitted(f.pc));
    var labels' := f.labels + [Label(f.pc, |f.stack|)];
    assert LabelsOk(fn, f.pc + 1, labels') by { LabelsGrow(fn, f.pc, f.labels, |f.stack|); }
    hide Related, LabelsOk;
    Arrive(fn, f.pc, f.(pc := f.pc + 1, labels := labels'), m);
  }

  lemma LabelsGrow(fn: Fn, k: nat, labels: seq<Label>, height: nat)
    requires LabelsOk(fn, k, labels) && k < fn.last < |fn.ops| && (fn.ops[k].Block? || fn.ops[k].Loop?)
    requires fn.At(k + 1).blockStack == fn.At(k).blockStack + [|fn.At(k).blocks|] && height == fn.Height(k)
    ensures LabelsOk(fn, k + 1, labels + [Label(k, height)])
  {
    hide Fn.At;
    var ls, s, s' := labels + [Label(k, height)], fn.At(k).blockStack, fn.At(k + 1).blockStack;
    assert s'[..|s| + 1] == s';
    forall j | 0 <= j < |ls| ensures LabelOk(fn, k + 1, ls[j], j) {
      if j < |labels| {
        assert LabelOk(fn, k, labels[j], j);
        assert s'[..j + 1] == s[..j + 1];
      }
    }
  }

  /** Reaching the end of a block from inside. */
  lemma CloseSim(fn: Fn, f: Frame, m: Machine)
    requires fn.Ok() && Related(fn, f, m) && f.pc < fn.last && fn.ops[f.pc].End?
    ensures Matches(fn, WasmSource.Step(fn.env, fn.ops, f), Running(m))
  {
    hide Fn.At, Accepts, HeapOk, Owed, Fn.Position, Fused;
    ClosedBy(fn, f.pc);
    ClosedMark(fn, f.pc);
    StackIsSlots(fn, f, m);
    FusedMarks(fn.Unfused(), fn.Emitted(f.pc));
    var n := |f.labels| - 1;
    assert LabelOk(fn, f.pc, f.labels[n], n);
    LabelHeight(fn, f.pc, f.labels[n], n);
    LabelsShrink(fn, f.pc, f.labels, f.pc + 1, n);
    hide Related, LabelsOk;
    Arrive(fn, f.pc, f.(pc := f.pc + 1, stack := f.stack[..f.labels[n].height], labels := f.labels[..n]), m);
  }
}
