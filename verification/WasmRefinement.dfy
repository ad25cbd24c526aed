/** Whole runs: the fused, compacted and retargeted code returns and traps exactly as the
    function body does. */
module WasmRefinement {
  import opened WasmInstr
  import opened WasmSource
  import opened WasmSlots
  import opened T = WasmTranslate
  import opened WasmOptimize
  import opened WasmStatic
  import opened WasmFunction
  import opened WasmSimulation
  import opened WasmCorrect
  import opened WasmPairs

  /** Instructions for which the interpreter does nothing: those without code, block
      markers, and the first halves of fused pairs. */
  ghost predicate Stutters(fn: Fn, k: nat) {
    && k < fn.last < |fn.ops|
    && (Silent(fn.ops[k]) || fn.ops[k].Block? || fn.ops[k].Loop? || fn.ops[k].End?
      || Opens(fn.Unfused(), fn.Emitted(k)))
  }

  lemma OpenerKind(fn: Fn, k: nat)
    requires fn.Ok() && k < fn.last && Opens(fn.Unfused(), fn.Emitted(k)) && !Silent(fn.ops[k])
    ensures fn.ops[k].Instr? || fn.ops[k].Block? || fn.ops[k].Loop? || fn.ops[k].End?
  {
    hide Accepts, Structured, Stacked;
    Turn(fn, k);
    EmittedAt(fn, k);
  }

  lemma StutterSim(fn: Fn, f: Frame, m: Machine)
    requires fn.Ok() && Related(fn, f, m) && Stutters(fn, f.pc)
    ensures Matches(fn, WasmSource.Step(fn.env, fn.ops, f), Running(m))
  {
    hide Fn.At, Accepts, Related, WasmSource.Step, Opens, Matches;
    if Silent(fn.ops[f.pc]) {
      SilentSim(fn, f, m);
    } else if fn.ops[f.pc].Block? || fn.ops[f.pc].Loop? {
      OpenSim(fn, f, m);
    } else if fn.ops[f.pc].End? {
      CloseSim(fn, f, m);
    } else {
      OpenerKind(fn, f.pc);
      OpenPairSim(fn, f, m, fn.ops[f.pc].plain);
    }
  }

  lemma ControlSim(fn: Fn, f: Frame, m: Machine)
    requires AtControl(fn, f, m) && !Stutters(fn, f.pc) && !fn.ops[f.pc].Instr?
    ensures Matches(fn, WasmSource.Step(fn.env, fn.ops, f), StepSlots(fn.env, fn.Code(), m))
  {
    hide Fn.At, Accepts, WasmSource.Step, StepSlots, Fn.Code, Opens, Matches, Closes, LabelsOk, HeapOk;
    match fn.ops[f.pc]
    case Br(d) => BrSim(fn, f, m, d);
    case BrIf(d) => BrIfSim(fn, f, m, d);
    case BrTable(ds) => TableNonempty(fn, f.pc, ds); BrTableSim(fn, f, m, ds);
    case Return => ReturnSim(fn, f, m);
    case Unreachable => UnreachableSim(fn, f, m);
    case _ =>
  }

  lemma TableNonempty(fn: Fn, k: nat, ds: seq<nat>)
    requires fn.Ok() && k < fn.last && fn.ops[k] == BrTable(ds)
    ensures ds != [] && fn.Height(k) > 0
  {
    assert k < |fn.ops|;
    hide Fn.At, Accepts, Translate;
    Turn(fn, k);
    ControlTranslates(fn.env, fn.At(k), fn.ops[k]);
  }

  /** One instruction of the body is at most one step of the interpreter. */
  lemma StepSim(fn: Fn, f: Frame, m: Machine)
    requires fn.Ok() && FusionAligned(fn) && WellHeighted(fn) && Related(fn, f, m)
    ensures Matches(fn, WasmSource.Step(fn.env, fn.ops, f),
                    if Stutters(fn, f.pc) then Running(m) else StepSlots(fn.env, fn.Code(), m))
  {
    if Stutters(fn, f.pc) {
      StutterSim(fn, f, m);
    } else {
      assert f.pc <= fn.last;
      var k, u := f.pc, fn.Unfused();
      hide Fn.At, Accepts, WasmSource.Step, StepSlots, Fn.Code, Opens, Matches, Poised, Related, Disciplined;
      if k == fn.last {
        LastIsOpen(fn);
        LastSim(fn, f, m);
      } else {
        assert Disciplined(fn.env, fn.At(k), fn.ops[k]);
        if Closes(u, fn.Emitted(k)) {
          assert Aligned(u[fn.Emitted(k) - 1], u[fn.Emitted(k)]) by { CloserAligned(fn, fn.Emitted(k)); }
          ClosePairSim(fn, f, m);
        } else if fn.ops[k].Instr? {
          PlainSim(fn, f, m, fn.ops[k].plain);
        } else {
          StackIsSlots(fn, f, m);
          ControlSim(fn, f, m);
        }
      }
    }
  }

  lemma CloserAligned(fn: Fn, i: nat)
    requires FusionAligned(fn) && Closes(fn.Unfused(), i)
    ensures i < |fn.Unfused()| && Aligned(fn.Unfused()[i - 1], fn.Unfused()[i])
  {
    hide Aligned, Pair;
  }

  lemma StutterAdvances(fn: Fn, f: Frame)
    requires fn.Ok() && Stutters(fn, f.pc)
    ensures var o := WasmSource.Step(fn.env, fn.ops, f); o.Running? ==> o.state.pc == f.pc + 1
  {
    if !Silent(fn.ops[f.pc]) && Opens(fn.Unfused(), fn.Emitted(f.pc)) { OpenerKind(fn, f.pc); }
    hide Fn.At, Accepts, Opens, Branch;
  }

  // ---- runs ----

  /** What the theorems ask of a function and of the state it is called in. */
  ghost predicate Callable(fn: Fn, heap: Heap) {
    fn.Ok() && FusionAligned(fn) && WellHeighted(fn) && HeapOk(fn.env, heap)
  }

  ghost function Meaning(fn: Fn, heap: Heap, n: nat): Outcome<Frame> { Run(fn.env, fn.ops, heap, n) }

  ghost function Compiled(fn: Fn, heap: Heap, n: nat): Outcome<Machine> {
    RunSlots(fn.env, fn.Code(), fn.Slots(), heap, n)
  }

  lemma StartSim(fn: Fn, heap: Heap)
    requires fn.Ok() && HeapOk(fn.env, heap)
    ensures Matches(fn, Meaning(fn, heap, 0), Compiled(fn, heap, 0))
  {
    Grows(fn, 0, fn.last + 1);
  }

  lemma NextMeaning(fn: Fn, heap: Heap, n: nat)
    ensures Meaning(fn, heap, n + 1) ==
      match Meaning(fn, heap, n) case Running(f) => WasmSource.Step(fn.env, fn.ops, f) case o => o
  {
  }

  lemma NextCompiled(fn: Fn, heap: Heap, n: nat)
    ensures Compiled(fn, heap, n + 1) ==
      match Compiled(fn, heap, n) case Running(m) => StepSlots(fn.env, fn.Code(), m) case o => o
  {
  }

  /** Every prefix of the body's run is matched by a prefix of the compiled run. */
  lemma {:induction false} Forward(fn: Fn, heap: Heap, n: nat) returns (k: nat)
    requires Callable(fn, heap)
    ensures k <= n && Matches(fn, Meaning(fn, heap, n), Compiled(fn, heap, k))
  {
    hide Fn.At, Accepts, Related, WasmSource.Step, StepSlots, Meaning, Compiled, FusionAligned, WellHeighted, Stutters;
    if n == 0 {
      StartSim(fn, heap);
      k := 0;
    } else {
      k := Forward(fn, heap, n - 1);
      NextMeaning(fn, heap, n - 1);
      NextCompiled(fn, heap, k);
      var o := Meaning(fn, heap, n - 1);
      if o.Running? {
        StepSim(fn, o.state, Compiled(fn, heap, k).state);
        if !Stutters(fn, o.state.pc) { k := k + 1; }
      }
    }
  }

  /** From matching prefixes, the body catches up with one more step of the compiled code:
      instructions without a step only move forward, so they run out. */
  lemma {:induction false} CatchUp(fn: Fn, heap: Heap, n: nat, k: nat) returns (n': nat)
    requires Callable(fn, heap) && Matches(fn, Meaning(fn, heap, n), Compiled(fn, heap, k))
    ensures n <= n' && Matches(fn, Meaning(fn, heap, n'), Compiled(fn, heap, k + 1))
    decreases match Meaning(fn, heap, n) case Running(f) => fn.last - f.pc case _ => 0
  {
    hide Fn.At, Accepts, Related, WasmSource.Step, StepSlots, Meaning, Compiled, FusionAligned, WellHeighted, Stutters;
    NextMeaning(fn, heap, n);
    NextCompiled(fn, heap, k);
    var o := Meaning(fn, heap, n);
    if o.Running? {
      StepSim(fn, o.state, Compiled(fn, heap, k).state);
      if Stutters(fn, o.state.pc) {
        StutterBelow(fn, o.state);
        n' := CatchUp(fn, heap, n + 1, k);
      } else {
        n' := n + 1;
      }
    } else {
      n' := n;
    }
  }

  lemma StutterBelow(fn: Fn, f: Frame)
    requires fn.Ok() && Stutters(fn, f.pc)
    ensures f.pc < fn.last
    ensures var o := WasmSource.Step(fn.env, fn.ops, f); o.Running? ==> o.state.pc == f.pc + 1
  {
    StutterAdvances(fn, f);
  }

  /** Every prefix of the compiled run is matched by a prefix of the body's run. */
  lemma {:induction false} Backward(fn: Fn, heap: Heap, k: nat) returns (n: nat)
    requires Callable(fn, heap)
    ensures Matches(fn, Meaning(fn, heap, n), Compiled(fn, heap, k))
  {
    if k == 0 {
      StartSim(fn, heap);
      n := 0;
    } else {
      n := Backward(fn, heap, k - 1);
      n := CatchUp(fn, heap, n, k - 1);
    }
  }

  /** Compilation preserves meaning: the same results, the same traps, with the same locals,
      globals and memory; neither run ever goes wrong, and one is still running only if the
      other is. */
  lemma CompilationPreservesMeaning(fn: Fn, heap: Heap)
    requires Callable(fn, heap)
    ensures forall r, h :: (exists n :: Meaning(fn, heap, n) == Returned(r, h)) <==>
                           (exists k :: Compiled(fn, heap, k) == Returned(r, h))
    ensures forall t, h :: (exists n :: Meaning(fn, heap, n) == Trapped(t, h)) <==>
                           (exists k :: Compiled(fn, heap, k) == Trapped(t, h))
    ensures forall n :: !Meaning(fn, heap, n).Wrong?
    ensures forall k :: !Compiled(fn, heap, k).Wrong?
    ensures (forall n :: Meaning(fn, heap, n).Running?) <==> (forall k :: Compiled(fn, heap, k).Running?)
  {
    hide Meaning, Compiled, Callable, Related;
    forall n ensures exists k :: Matches(fn, Meaning(fn, heap, n), Compiled(fn, heap, k)) {
      var k := Forward(fn, heap, n);
    }
    forall k ensures exists n :: Matches(fn, Meaning(fn, heap, n), Compiled(fn, heap, k)) {
      var n := Backward(fn, heap, k);
    }
  }
}
