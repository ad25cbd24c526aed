/** A function that the translator accepts although a branch in it reaches below its block. */
module WasmExamples {
  import opened WasmInstr
  import opened WasmSource
  import opened WasmSlots
  import opened T = WasmTranslate
  import opened WasmOptimize
  import opened WasmFunction
  import opened WasmSimulation
  import opened WasmFusion

  /** The block drops the operand from below it, and is left by a branch. */
  const LOW_OPS: seq<Op> := [Instr(Const32(1)), Block, Drop, Br(0), Instr(Const32(2)), End, End]

  const LOW_FN: Fn := Fn(DROP_ENV, LOW_OPS, 6)

  const LOW_UNFUSED: seq<Imc> := [
    Imc(Simple(Const32(1)), 0), Imc(BlockMark(0), 1), Imc(ImBr(0), 0), Imc(Simple(Const32(2)), 0), Imc(EndMark(0), 1),
    Imc(ImReturn, 0)]

  const LOW_BLOCKS: seq<BlockContext> := [BlockContext(false, 1)]

  const LOW_CODE: seq<Imc> := [
    Imc(Simple(Const32(1)), 0), Imc(ImBr(3), 0), Imc(Simple(Const32(2)), 0), Imc(ImReturn, 0)]

  /** The translator's state in front of each instruction. */
  function LowGen(k: nat): Gen {
    var u := LOW_UNFUSED;
    match k
    case 0 => FRESH
    case 1 => Gen([I32], [], [], u[..1], 0)
    case 2 => Gen([I32], [0], LOW_BLOCKS, u[..2], 1)
    case 3 => Gen([], [0], LOW_BLOCKS, u[..2], 1)
    case 4 => Gen([], [0], LOW_BLOCKS, u[..3], 1)
    case 5 => Gen([I32], [0], LOW_BLOCKS, u[..4], 1)
    case 6 => Gen([I32], [], LOW_BLOCKS, u[..5], 1)
    case _ => Gen([I32], [], LOW_BLOCKS, u, 1)
  }

  lemma LowConst(k: nat)
    requires k == 0 || k == 4
    ensures Translate(DROP_ENV, Raise(LowGen(k)), LOW_OPS[k]) == Going(LowGen(k + 1))
  {
    ConstTranslates(DROP_ENV, LowGen(k), if k == 0 then 1 else 2);
    hide Translate;
    if k == 0 {
      assert LOW_UNFUSED[..1] == [] + [LOW_UNFUSED[0]];
    } else {
      assert LOW_UNFUSED[..4] == LOW_UNFUSED[..3] + [LOW_UNFUSED[3]];
    }
  }

  lemma LowBlock()
    ensures Translate(DROP_ENV, Raise(LowGen(1)), LOW_OPS[1]) == Going(LowGen(2))
  {
    hide TranslatePlain, Targets, PopCondition;
    assert LOW_UNFUSED[..2] == LOW_UNFUSED[..1] + [LOW_UNFUSED[1]];
  }

  lemma LowDropAndBranch()
    ensures Translate(DROP_ENV, Raise(LowGen(2)), LOW_OPS[2]) == Going(LowGen(3))
    ensures Translate(DROP_ENV, Raise(LowGen(3)), LOW_OPS[3]) == Going(LowGen(4))
  {
    hide TranslatePlain, Targets, PopCondition, Open;
    assert LowGen(2).values[..0] == [];
    assert LOW_UNFUSED[..3] == LOW_UNFUSED[..2] + [LOW_UNFUSED[2]];
  }

  lemma LowEnds()
    ensures Translate(DROP_ENV, Raise(LowGen(5)), LOW_OPS[5]) == Going(LowGen(6))
    ensures Translate(DROP_ENV, Raise(LowGen(6)), LOW_OPS[6]) == Finished(LowGen(7))
  {
    hide TranslatePlain, Targets, PopCondition, Open;
    assert LowGen(5).values[..1] == [I32] && LowGen(5).blockStack[..0] == [];
    assert LOW_UNFUSED[..5] == LOW_UNFUSED[..4] + [LOW_UNFUSED[4]];
    assert LOW_UNFUSED == LOW_UNFUSED[..5] + [LOW_UNFUSED[5]];
  }

  lemma {:induction false} LowTranslated(k: nat)
    requires k <= 6
    ensures After(DROP_ENV, LOW_OPS, k) == Going(LowGen(k))
  {
    hide Translate;
    if k > 0 {
      LowTranslated(k - 1);
      if k == 1 || k == 5 { LowConst(k - 1); }
      else if k == 2 { LowBlock(); }
      else if k == 6 { LowEnds(); }
      else { LowDropAndBranch(); }
      hide LowGen;
    }
  }

  lemma LowFnIs()
    ensures LOW_FN.Ok() && LOW_FN.Unfused() == LOW_UNFUSED && LOW_FN.Slots() == 1 && LOW_FN.Blocks() == LOW_BLOCKS
    ensures LOW_FN.At(3) == LowGen(3)
  {
    hide Translate, LowGen;
    LowTranslated(3);
    LowTranslated(6);
    LowEnds();
    LowLast();
  }

  lemma LowLast()
    ensures LowGen(7) == Gen([I32], [], LOW_BLOCKS, LOW_UNFUSED, 1) && LowGen(6).values == [I32]
  {
  }

  /** Nothing fuses, and the branch goes behind the second constant. */
  lemma LowCode()
    ensures LOW_FN.Code() == LOW_CODE
  {
    hide Fn.Ok, Fn.Unfused, Fn.Places, Fused, Survivors, TargetsBelow;
    LowFnIs();
    SurvivorTargets(LOW_FN);
    LowFused();
    LowKept();
    LowPlaces();
    LowRetargeted([LOW_UNFUSED[0], LOW_UNFUSED[2], LOW_UNFUSED[3], LOW_UNFUSED[5]]);
  }

  lemma LowPlaces()
    ensures LOW_FN.Places() == [3]
  {
    hide Fn.Ok, Fn.Unfused, Fn.Blocks, Fused, EndOf, StartOf;
    LowFnIs();
    LowFused();
    LowEnd();
  }

  lemma LowRetargeted(codes: seq<Imc>)
    requires codes == [LOW_UNFUSED[0], LOW_UNFUSED[2], LOW_UNFUSED[3], LOW_UNFUSED[5]] && TargetsBelow(codes, 1)
    ensures Retargeted(codes, [3]) == LOW_CODE
  {
  }

  lemma LowFused()
    ensures Fused(LOW_UNFUSED) == LOW_UNFUSED
  {
  }

  lemma LowKept()
    ensures Survivors(LOW_UNFUSED) == [LOW_UNFUSED[0], LOW_UNFUSED[2], LOW_UNFUSED[3], LOW_UNFUSED[5]]
  {
    LowKeeps(LOW_UNFUSED);
    hide Survivors;
  }

  lemma LowKeeps(u: seq<Imc>)
    requires |u| == 6 && forall i :: 0 <= i < 6 ==> (Kept(u[i].mnemonic) <==> i != 1 && i != 4)
    ensures Survivors(u) == [u[0], u[2], u[3], u[5]]
  {
    hide Survivors, Kept;
    NoSurvivors(u[..0]);
    SurvivorsStep(u, 0);
    SurvivorsStep(u, 1);
    SurvivorsStep(u, 2);
    SurvivorsStep(u, 3);
    SurvivorsStep(u, 4);
    SurvivorsStep(u, 5);
    assert u[..6] == u;
  }

  lemma LowEnd()
    ensures EndOf(LOW_UNFUSED, 0, |LOW_UNFUSED|) == 3
  {
    var u := LOW_UNFUSED;
    assert Count(u, 0) == 0;
    assert Count(u, 1) == 1;
    assert Count(u, 2) == 1;
    assert Count(u, 3) == 2;
    assert Count(u, 4) == 3;
    assert EndOf(u, 0, 5) == Count(u, 4);
  }

  lemma LowRuns(heap: Heap)
    ensures RunSlots(DROP_ENV, LOW_CODE, 1, heap, 3) == Returned([1], heap)
  {
    var m0 := RunSlots(DROP_ENV, LOW_CODE, 1, heap, 0);
    assert m0.Running? && m0.state.pc == 0 && m0.state.heap == heap && m0.state.slots == [0];
    var m1 := RunSlots(DROP_ENV, LOW_CODE, 1, heap, 1);
    assert m1.Running? && m1.state.pc == 1 && m1.state.heap == heap && m1.state.slots == [1];
    var m2 := RunSlots(DROP_ENV, LOW_CODE, 1, heap, 2);
    assert m2.Running? && m2.state.pc == 3 && m2.state.heap == heap && m2.state.slots == [1];
  }

  /** The stack machine in front of each instruction, up to the branch. */
  function LowFrame(heap: Heap, k: nat): Frame {
    match k
    case 0 => Frame(0, [], [], heap)
    case 1 => Frame(1, [1], [], heap)
    case 2 => Frame(2, [1], [Label(1, 1)], heap)
    case _ => Frame(3, [], [Label(1, 1)], heap)
  }

  lemma LowStep(heap: Heap, k: nat)
    requires k < 3
    ensures WasmSource.Step(DROP_ENV, LOW_OPS, LowFrame(heap, k)) == Running(LowFrame(heap, k + 1))
  {
    hide Branch, Result, EvalBin, EvalUn;
    if k == 0 { assert [] + [1] == LowFrame(heap, 1).stack; }
    if k == 1 { assert [] + [Label(1, 1)] == LowFrame(heap, 2).labels; }
    if k == 2 { assert [1][..0] == LowFrame(heap, 3).stack; }
  }

  lemma {:induction false} LowRun(heap: Heap, k: nat)
    requires k <= 3
    ensures Run(DROP_ENV, LOW_OPS, heap, k) == Running(LowFrame(heap, k))
  {
    hide WasmSource.Step;
    if k > 0 {
      LowRun(heap, k - 1);
      LowStep(heap, k - 1);
    }
  }

  lemma LowMeans(heap: Heap)
    ensures Run(DROP_ENV, LOW_OPS, heap, 4).Wrong?
  {
    LowRun(heap, 3);
    hide Exec;
  }

  /** Accepted, with nothing fused, and yet not well-heighted: the body has no meaning at the
      branch, and its compiled code returns 1. */
  lemma BranchBelowIsAccepted(heap: Heap)
    ensures LOW_FN.Ok() && FusionAligned(LOW_FN) && !WellHeighted(LOW_FN)
    ensures Run(DROP_ENV, LOW_OPS, heap, 4).Wrong?
    ensures RunSlots(DROP_ENV, LOW_FN.Code(), LOW_FN.Slots(), heap, 3) == Returned([1], heap)
  {
    hide Fn.Ok, Fn.At, Fn.Code, Run, RunSlots, Fn.Unfused, Disciplined, Opens;
    LowFnIs();
    LowCode();
    LowRuns(heap);
    LowMeans(heap);
    LowUnpaired();
    LowReaches(LOW_FN.At(3));
    assert LOW_OPS[3] == Br(0);
  }

  lemma LowUnpaired()
    ensures forall i :: 0 <= i < |LOW_UNFUSED| ==> !Opens(LOW_UNFUSED, i)
  {
  }

  lemma LowReaches(g: Gen)
    requires g == LowGen(3)
    ensures !Disciplined(DROP_ENV, g, Br(0))
  {
  }
}
