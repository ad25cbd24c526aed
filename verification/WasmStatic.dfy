/** What the translation loop establishes about the code it emits: block ids and markers,
    branch targets, and the slots each instruction touches. */
module WasmStatic {
  import opened Wrappers
  import opened WasmInstr
  import opened WasmSlots
  import opened T = WasmTranslate
  import opened WasmOptimize

  // ---- block structure ----

  ghost predicate Increasing(s: seq<nat>) {
    forall i, j :: 0 <= i < j < |s| ==> s[i] < s[j]
  }

  ghost predicate Structured(g: Gen) {
    && Increasing(g.blockStack)
    && (forall i :: 0 <= i < |g.blockStack| ==> g.blockStack[i] < |g.blocks|)
    && MarksBelow(g.codes, |g.blocks|)
    && TargetsBelow(g.codes, |g.blocks|)
    && (forall i, j, b :: 0 <= i < j < |g.codes| && g.codes[i].mnemonic == BlockMark(b) ==>
          g.codes[j].mnemonic != BlockMark(b))
    && (forall i, j, b :: 0 <= i < j < |g.codes| && g.codes[i].mnemonic == EndMark(b) ==>
          g.codes[j].mnemonic != EndMark(b))
    && (forall i, b :: 0 <= i < |g.codes| && g.codes[i].mnemonic == EndMark(b) ==> b !in g.blockStack)
  }

  lemma EmitStructured(g: Gen, m: Mnemonic, level: nat)
    requires Structured(g) && Kept(m)
    requires forall i :: 0 <= i < |TargetsOf(m)| ==> TargetsOf(m)[i] < |g.blocks|
    ensures Structured(Emit(g, m, level))
  {
  }

  lemma OpenStructured(g: Gen, isLoop: bool)
    requires Structured(g)
    ensures Structured(Open(g, isLoop))
  {
    var g' := Open(g, isLoop);
    var n := |g.blockStack|;
    forall i, j | 0 <= i < j < n + 1 ensures g'.blockStack[i] < g'.blockStack[j] {
      assert g.blockStack[i] < |g.blocks|;
    }
    forall i, b | 0 <= i < |g'.codes| && g'.codes[i].mnemonic == EndMark(b) ensures b !in g'.blockStack {
      assert i < |g.codes| && g.codes[i].mnemonic == EndMark(b);
    }
    OpenMarks(g, isLoop);
  }

  lemma OpenMarks(g: Gen, isLoop: bool)
    requires Structured(g)
    ensures var g' := Open(g, isLoop); MarksBelow(g'.codes, |g'.blocks|) && TargetsBelow(g'.codes, |g'.blocks|)
  {
    var g' := Open(g, isLoop);
    forall i, t | 0 <= i < |g'.codes| && t in TargetsOf(g'.codes[i].mnemonic) ensures t < |g'.blocks| {
      assert i < |g.codes| ==> t in TargetsOf(g.codes[i].mnemonic);
    }
  }

  lemma CloseStructured(g: Gen, level: nat, values: seq<ValType>)
    requires Structured(g) && g.blockStack != []
    ensures Structured(Emit(g, EndMark(g.blockStack[|g.blockStack| - 1]), level).(
                         values := values, blockStack := g.blockStack[..|g.blockStack| - 1]))
  {
    var n := |g.blockStack|;
    var b := g.blockStack[n - 1];
    assert b in g.blockStack;
    assert forall c :: c in g.blockStack[..n - 1] ==> c in g.blockStack && c != b;
  }

  lemma {:induction false} TargetsInRange(g: Gen, depths: seq<nat>)
    requires Structured(g)
    ensures Targets(g, depths).Some? ==>
      var ts := Targets(g, depths).value;
      && |ts| == |depths|
      && (forall i :: 0 <= i < |depths| ==> Target(g, depths[i]) == Some(ts[i]) && ts[i] < |g.blocks|)
  {
    if depths != [] {
      TargetsInRange(g, depths[1..]);
      if Targets(g, depths).Some? {
        var ts := Targets(g, depths).value;
        assert forall i :: 1 <= i < |depths| ==> depths[i] == depths[1..][i - 1] && ts[i] == ts[1..][i - 1];
      }
    }
  }

  lemma TargetInRange(g: Gen, d: nat)
    requires Structured(g)
    ensures Target(g, d).Some? ==> Target(g, d).value < |g.blocks|
  {
  }

  /** Block structure is about blocks and code, not types. */
  lemma SameCode(g: Gen, g': Gen)
    requires Structured(g) && g'.codes == g.codes && g'.blocks == g.blocks && g'.blockStack == g.blockStack
    ensures Structured(g')
  {
  }

  lemma PopStructured(g: Gen)
    requires Structured(g) && PopCondition(g).Going?
    ensures Structured(PopCondition(g).gen) && PopCondition(g).gen.blocks == g.blocks
  {
    SameCode(g, PopCondition(g).gen);
    hide Structured;
  }

  lemma PlainUntargeted(env: Env, p: Plain)
    ensures Kept(PlainMnemonic(env, p)) && TargetsOf(PlainMnemonic(env, p)) == []
  {
  }

  lemma TranslateStructured(env: Env, g: Gen, op: Op)
    requires Structured(g) && !Translate(env, g, op).Failed?
    ensures Structured(Translate(env, g, op).gen)
  {
    hide Structured, OperandsOk, ResultType;
    match op
    case Block => OpenStructured(g, false);
    case Loop => OpenStructured(g, true);
    case End =>
      if g.blockStack == [] { EmitStructured(g, ImReturn, Below(|g.values|)); }
      else {
        var level := g.blocks[g.blockStack[|g.blockStack| - 1]].level;
        CloseStructured(g, level, g.values[..level]);
      }
    case Br(d) => TargetInRange(g, d); EmitStructured(g, ImBr(Target(g, d).value), |g.values|);
    case BrIf(d) =>
      TargetInRange(g, d);
      PopStructured(g);
      EmitStructured(PopCondition(g).gen, ImBrIf(Target(g, d).value), |g.values| - 1);
    case BrTable(ds) =>
      TargetsInRange(g, ds);
      PopStructured(g);
      EmitStructured(PopCondition(g).gen, ImBrTable(Targets(g, ds).value), |g.values| - 1);
    case Return => EmitStructured(g, ImReturn, Below(|g.values|));
    case Unreachable => EmitStructured(g, ImUnreachable, |g.values|);
    case Instr(p) =>
      PlainUntargeted(env, p);
      EmitStructured(g, PlainMnemonic(env, p), |g.values| - Pops(p));
      SameCode(Emit(g, PlainMnemonic(env, p), |g.values| - Pops(p)), Translate(env, g, op).gen);
    case Nop =>
    case Drop => SameCode(g, Translate(env, g, op).gen);
  }

  // ---- slots ----

  /** How many slots, from the base level up, the interpreter may touch. The slot read by a
      return is accounted for separately. */
  function Touch(m: Mnemonic): nat {
    match m
    case Simple(p) => TouchPlain(p)
    case LocalGet32(_) => 1
    case LocalSet32(_) => 1
    case LocalTee32(_) => 1
    case ImBrIf(_) => 1
    case ImBrTable(_) => 1
    case FusedImm32(_, _) => 1
    case FusedImm64(_, _) => 1
    case FusedBrZ32(_) => 1
    case FusedBrZ64(_) => 1
    case FusedBrCompare(_, _) => 2
    case _ => 0
  }

  function TouchPlain(p: Plain): nat { Max(Pops(p), Pushes(p)) }

  ghost predicate Fits(codes: seq<Imc>, slots: nat) {
    forall i :: 0 <= i < |codes| ==> codes[i].level + Touch(codes[i].mnemonic) <= slots || codes[i].mnemonic.ImReturn?
  }

  /** Operand-stack height right after a plain instruction; only drops can follow it before
      the next instruction is emitted. */
  function HeightAfter(c: Imc): nat
    requires c.mnemonic.Simple?
  {
    c.level + Pushes(c.mnemonic.plain)
  }

  ghost predicate Stacked(g: Gen) {
    && Fits(g.codes, Max(g.maxStack, |g.values|))
    && (g.codes != [] && g.codes[|g.codes| - 1].mnemonic.Simple? ==>
          |g.values| <= HeightAfter(g.codes[|g.codes| - 1]))
    && (forall i :: 0 <= i < |g.codes| - 1 ==> StepsDown(g.codes[i], g.codes[i + 1]))
  }

  ghost predicate StepsDown(a: Imc, b: Imc) {
    a.mnemonic.Simple? && b.mnemonic.ImBrIf? ==> b.level + 1 <= HeightAfter(a)
  }

  lemma EmitStacked(g: Gen, g': Gen, c: Imc)
    requires Stacked(g) && g'.codes == g.codes + [c] && g'.maxStack == Max(g.maxStack, |g.values|)
    requires c.level + Touch(c.mnemonic) <= Max(|g.values|, |g'.values|) || c.mnemonic.ImReturn?
    requires c.mnemonic.Simple? ==> |g'.values| <= HeightAfter(c)
    requires c.mnemonic.ImBrIf? ==> c.level + 1 <= |g.values|
    ensures Stacked(g')
  {
  }

  lemma TranslateStacked(env: Env, g: Gen, op: Op)
    requires Stacked(g) && !Translate(env, Raise(g), op).Failed?
    ensures Stacked(Translate(env, Raise(g), op).gen)
  {
    var g' := Translate(env, Raise(g), op).gen;
    if !op.Nop? && !op.Drop? {
      var c := g'.codes[|g.codes|];
      EmitStacked(g, g', c);
    }
  }
}
