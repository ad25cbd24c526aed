/** The translator accepts exactly the well-typed bodies, and rejects every other one with the first
    fault in it. */
module WasmValidation {
  import opened Wrappers
  import opened WasmInstr
  import opened WasmSlots
  import opened T = WasmTranslate
  import opened WasmStatic
  import opened WasmTyping

  // ---- plain instructions ----

  /** What the translator's tables say of a plain instruction is its signature. */
  lemma PlainTypes(env: Env, p: Plain, s: Signature)
    ensures HasType(env, p, s) ==> EarlyError(env, p).None? && |s.takes| == Pops(p)
    ensures EarlyError(env, p).None? && |s.takes| == Pops(p) ==>
      (HasType(env, p, s) <==>
        OperandsOk(env, p, s.takes) && s.gives == if Pushes(p) == 0 then [] else [ResultType(env, p, s.takes)])
  {
    if p.Binary? {
      BinaryTypes(p.bin);
    } else if p.Unary? {
      UnaryTypes(p.un);
    }
    hide BinarySignature, OperandType, IsCompare, UnarySignature, UnaryOperand;
  }

  lemma BinaryTypes(op: BinOp)
    ensures BinarySignature(op)
         == Signature([OperandType(op), OperandType(op)], [if IsCompare(op) then I32 else OperandType(op)])
  {
  }

  lemma UnaryTypes(op: UnOp)
    ensures UnarySignature(op)
         == Signature([UnaryOperand(op)], [if op.I64ExtendI32S? || op.I64ExtendI32U? then I64 else I32])
  {
  }

  /** A list of operands of this many is one the instruction takes, or none of them is. */
  lemma PlainTypable(env: Env, p: Plain)
    ensures Typable(env, p) <==> EarlyError(env, p).None?
    ensures EarlyError(env, p).Some? ==> forall e :: BadImmediate(env, p, e) <==> e == EarlyError(env, p).value
  {
    if EarlyError(env, p).None? {
      var s := SomeType(env, p);
      assert HasType(env, p, s);
    }
    forall s | HasType(env, p, s) ensures EarlyError(env, p).None? { PlainTypes(env, p, s); }
  }

  lemma SomeType(env: Env, p: Plain) returns (s: Signature)
    requires EarlyError(env, p).None?
    ensures HasType(env, p, s)
  {
    s := match p
      case Const32(_) => Signature([], [I32])
      case Const64(_) => Signature([], [I64])
      case LocalGet(x) => Signature([], [env.locals[x]])
      case LocalSet(x) => Signature([env.locals[x]], [])
      case LocalTee(x) => Signature([env.locals[x]], [env.locals[x]])
      case GlobalGet(_) => Signature([], [I32])
      case GlobalSet(_) => Signature([I32], [])
      case Unary(op) => UnarySignature(op)
      case Binary(op) => BinarySignature(op)
      case Select => Signature([I32, I32, I32], [I32])
      case Load(op, _) => Signature([I32], [LoadGives(op)])
      case Store(_, _) => Signature([I32, I32], [])
      case MemorySize => Signature([], [I32])
      case MemoryGrow => Signature([I32], [I32]);
  }

  /** Where the translator goes on, it goes along a signature. */
  lemma PlainGoes(env: Env, p: Plain, g: Gen) returns (s: Signature)
    requires TranslatePlain(env, g, p).Going?
    ensures Pops(p) <= |g.values|
    ensures Applies(env, p, s, g.values[..|g.values| - Pops(p)], g.values, TranslatePlain(env, g, p).gen.values)
  {
    hide HasType, OperandsOk, ResultType;
    var n, k := |g.values|, Pops(p);
    var args := g.values[n - k..];
    s := Signature(args, if Pushes(p) == 0 then [] else [ResultType(env, p, args)]);
    PlainTypes(env, p, s);
    assert g.values == g.values[..n - k] + args;
  }

  /** Where a signature fits, the translator goes on along it. */
  lemma PlainFits(env: Env, p: Plain, g: Gen, s: Signature, base: seq<ValType>, after: seq<ValType>)
    requires Applies(env, p, s, base, g.values, after)
    ensures TranslatePlain(env, g, p).Going? && TranslatePlain(env, g, p).gen.values == after
  {
    hide HasType, OperandsOk, ResultType, EarlyError;
    PlainTypes(env, p, s);
    var n, k := |g.values|, Pops(p);
    assert g.values[n - k..] == s.takes && g.values[..n - k] == base;
  }

  /** It fails exactly with the fault there is. */
  lemma PlainFails(env: Env, p: Plain, g: Gen, c: Context, e: Error)
    requires c.stack == g.values
    ensures TranslatePlain(env, g, p) == Failed(e) <==> Fault(env, Instr(p), c, e)
  {
    hide HasType, OperandsOk, ResultType, EarlyError, BadImmediate;
    PlainTypable(env, p);
    if EarlyError(env, p).None? {
      var some := SomeType(env, p);
      PlainTypes(env, p, some);
      forall s | HasType(env, p, s) ensures |s.takes| == Pops(p) { PlainTypes(env, p, s); }
      hide Typable;
      NoneFits(env, p, g);
    }
  }

  lemma NoneFits(env: Env, p: Plain, g: Gen)
    ensures TranslatePlain(env, g, p).Going? <==> exists s, base, after :: Applies(env, p, s, base, g.values, after)
  {
    hide Applies, TranslatePlain;
    if TranslatePlain(env, g, p).Going? {
      var s := PlainGoes(env, p, g);
    }
    forall s, base, after | Applies(env, p, s, base, g.values, after) ensures TranslatePlain(env, g, p).Going? {
      PlainFits(env, p, g, s, base, after);
    }
  }

  // ---- one instruction ----

  /** The translator's open blocks, as the heights they were entered with. */
  ghost predicate Inside(g: Gen) { forall i :: 0 <= i < |g.blockStack| ==> g.blockStack[i] < |g.blocks| }

  function ContextOf(g: Gen): Context
    requires Inside(g)
  {
    var n := |g.blockStack|;
    Context(g.values, seq(n, i requires 0 <= i < n && Inside(g) => g.blocks[g.blockStack[i]].level))
  }

  lemma {:induction false} TargetsEnclosed(g: Gen, depths: seq<nat>)
    requires Inside(g)
    ensures Targets(g, depths).Some? <==> Enclosed(ContextOf(g), depths)
    ensures Targets(g, depths).Some? ==> (Targets(g, depths).value == [] <==> depths == [])
  {
    if depths != [] {
      TargetsEnclosed(g, depths[1..]);
      hide ContextOf;
      var n := |ContextOf(g).labels|;
      assert Enclosed(ContextOf(g), depths) <==> depths[0] < n && Enclosed(ContextOf(g), depths[1..]) by {
        assert forall i :: 1 <= i < |depths| ==> depths[i] == depths[1..][i - 1];
        assert forall i :: 0 <= i < |depths| - 1 ==> depths[1..][i] == depths[i + 1];
      }
      assert n == |g.blockStack| by { LabelCount(g); }
    }
  }

  lemma LabelCount(g: Gen)
    requires Inside(g)
    ensures |ContextOf(g).labels| == |g.blockStack| && ContextOf(g).stack == g.values
  {
  }

  /** Same blocks, same labels. */
  lemma SameLabels(g: Gen, g': Gen)
    requires Inside(g) && g'.blockStack == g.blockStack && g'.blocks == g.blocks
    ensures Inside(g') && ContextOf(g') == Context(g'.values, ContextOf(g).labels)
  {
  }

  lemma OpenContext(g: Gen, isLoop: bool)
    requires Inside(g)
    ensures Inside(Open(g, isLoop))
    ensures ContextOf(Open(g, isLoop)) == Context(g.values, ContextOf(g).labels + [|g.values|])
  {
    assert ContextOf(Open(g, isLoop)).labels == ContextOf(g).labels + [|g.values|];
  }

  lemma CloseContext(g: Gen, g': Gen)
    requires Inside(g) && g.blockStack != []
    requires g'.blocks == g.blocks && g'.blockStack == g.blockStack[..|g.blockStack| - 1]
    ensures Inside(g')
    ensures var labels := ContextOf(g).labels;
      && labels != [] && labels[|labels| - 1] == g.blocks[g.blockStack[|g.blockStack| - 1]].level
      && ContextOf(g') == Context(g'.values, labels[..|labels| - 1])
  {
    var labels := ContextOf(g).labels;
    assert ContextOf(g').labels == labels[..|labels| - 1];
  }

  /** Where the translator goes on, it follows a rule. */
  lemma StepGoes(env: Env, g: Gen, op: Op)
    requires Inside(g) && Translate(env, g, op).Going?
    ensures Inside(Translate(env, g, op).gen)
    ensures Rule(env, op, ContextOf(g), ContextOf(Translate(env, g, op).gen))
  {
    hide ContextOf, TranslatePlain, OperandsOk, Applies, Enclosed;
    LabelCount(g);
    var g' := Translate(env, g, op).gen;
    match op
    case Block => OpenContext(g, false);
    case Loop => OpenContext(g, true);
    case End =>
      CloseContext(g, g');
      var labels := ContextOf(g).labels;
      assert labels == labels[..|labels| - 1] + [labels[|labels| - 1]];
    case Drop =>
      SameLabels(g, g');
      assert g.values == g'.values + [g.values[|g.values| - 1]];
    case BrIf(d) =>
      SameLabels(g, g');
      assert g.values == g'.values + [I32];
    case BrTable(ds) =>
      TargetsEnclosed(g, ds);
      SameLabels(g, g');
      assert g.values == g'.values + [I32];
    case Instr(p) =>
      PlainBlocks(env, g, p);
      SameLabels(g, g');
      var s := PlainGoes(env, p, g);
    case _ => SameLabels(g, g');
  }

  lemma PlainBlocks(env: Env, g: Gen, p: Plain)
    requires TranslatePlain(env, g, p).Going?
    ensures var g' := TranslatePlain(env, g, p).gen; g'.blockStack == g.blockStack && g'.blocks == g.blocks
  {
  }

  /** A rule leads to one context. */
  lemma RuleIsFunctional(env: Env, op: Op, b: Context, c: Context, c': Context)
    requires Rule(env, op, b, c) && Rule(env, op, b, c')
    ensures c == c'
  {
    hide HasType;
    match op
    case Drop => assert c.stack == b.stack[..|b.stack| - 1] == c'.stack;
    case End =>
      assert c.labels == b.labels[..|b.labels| - 1] == c'.labels;
      assert c.stack == b.stack[..b.labels[|b.labels| - 1]] == c'.stack;
    case BrIf(_) => assert c.stack == b.stack[..|b.stack| - 1] == c'.stack;
    case BrTable(_) => assert c.stack == b.stack[..|b.stack| - 1] == c'.stack;
    case Instr(p) =>
      var s, base :| Applies(env, p, s, base, b.stack, c.stack);
      var s', base' :| Applies(env, p, s', base', b.stack, c'.stack);
      hide Applies;
      PlainFits(env, p, FRESH.(values := b.stack), s, base, c.stack);
      PlainFits(env, p, FRESH.(values := b.stack), s', base', c'.stack);
    case _ =>
  }

  /** Where a rule applies, the translator goes on. */
  lemma StepFollows(env: Env, g: Gen, op: Op, c: Context)
    requires Inside(g) && Rule(env, op, ContextOf(g), c)
    ensures Translate(env, g, op).Going?
  {
    LabelCount(g);
    hide ContextOf, TranslatePlain, OperandsOk, Applies, Enclosed;
    match op
    case Instr(p) =>
      var s, base :| Applies(env, p, s, base, g.values, c.stack);
      PlainFits(env, p, g, s, base, c.stack);
    case End => CloseContext(g, g.(blockStack := g.blockStack[..|g.blockStack| - 1]));
    case BrTable(ds) => TargetsEnclosed(g, ds);
    case _ =>
  }

  lemma StepFits(env: Env, g: Gen, op: Op, c: Context)
    requires Inside(g) && Rule(env, op, ContextOf(g), c)
    ensures Translate(env, g, op).Going? && Inside(Translate(env, g, op).gen)
    ensures ContextOf(Translate(env, g, op).gen) == c
  {
    hide Rule, ContextOf, Translate;
    StepFollows(env, g, op, c);
    StepGoes(env, g, op);
    RuleIsFunctional(env, op, ContextOf(g), ContextOf(Translate(env, g, op).gen), c);
  }

  /** It fails exactly with the fault there is, and finishes exactly at the function-level `end`. */
  lemma StepFails(env: Env, g: Gen, op: Op, e: Error)
    requires Inside(g)
    ensures Translate(env, g, op) == Failed(e) <==> Fault(env, op, ContextOf(g), e)
    ensures Translate(env, g, op).Finished? <==> FunctionEnd(op, ContextOf(g))
  {
    LabelCount(g);
    hide ContextOf, TranslatePlain, OperandsOk, Applies, Enclosed, HasType;
    match op
    case Instr(p) =>
      PlainFails(env, p, g, ContextOf(g), e);
      NeverFinishes(env, p, g);
      hide Fault;
    case End => if g.blockStack != [] { CloseContext(g, g.(blockStack := g.blockStack[..|g.blockStack| - 1])); }
    case BrTable(ds) => TargetsEnclosed(g, ds);
    case _ =>
  }

  lemma NeverFinishes(env: Env, p: Plain, g: Gen)
    ensures !TranslatePlain(env, g, p).Finished?
  {
  }

  // ---- whole bodies ----

  lemma RaisedContext(g: Gen)
    requires Inside(g)
    ensures Inside(Raise(g)) && ContextOf(Raise(g)) == ContextOf(g)
  {
  }

  /** The contexts the translator has been through. */
  lemma {:induction false} Derived(env: Env, ops: seq<Op>, k: nat) returns (cs: seq<Context>)
    requires k <= |ops| && After(env, ops, k).Going?
    ensures Derivation(env, ops, k, cs) && |cs| == k + 1 && Inside(After(env, ops, k).gen)
    ensures cs[k] == ContextOf(After(env, ops, k).gen)
  {
    hide Rule, Translate;
    if k == 0 {
      cs := [Context([], [])];
      assert ContextOf(FRESH) == cs[0];
    } else {
      var before := Derived(env, ops, k - 1);
      var g := After(env, ops, k - 1).gen;
      RaisedContext(g);
      StepGoes(env, Raise(g), ops[k - 1]);
      cs := before + [ContextOf(After(env, ops, k).gen)];
      hide ContextOf;
      forall i | 0 <= i < k ensures Rule(env, ops[i], cs[i], cs[i + 1]) {
        if i < k - 1 { assert Rule(env, ops[i], before[i], before[i + 1]); }
      }
    }
  }

  /** The translator goes through any contexts that there are. */
  lemma {:induction false} GoesThrough(env: Env, ops: seq<Op>, n: nat, cs: seq<Context>)
    requires Derivation(env, ops, n, cs)
    ensures After(env, ops, n).Going? && Inside(After(env, ops, n).gen)
    ensures cs[n] == ContextOf(After(env, ops, n).gen)
  {
    hide Rule, Translate;
    if n == 0 {
      assert ContextOf(FRESH) == cs[0];
    } else {
      assert Derivation(env, ops, n - 1, cs[..n]);
      GoesThrough(env, ops, n - 1, cs[..n]);
      hide ContextOf;
      var g := After(env, ops, n - 1).gen;
      assert Rule(env, ops[n - 1], cs[n - 1], cs[n]);
      RaisedContext(g);
      StepFits(env, Raise(g), ops[n - 1], cs[n]);
    }
  }

  lemma FinalChecks(env: Env, values: seq<ValType>)
    ensures FinalCheck(env, values).None? <==> Results(env, values)
    ensures forall e :: FinalCheck(env, values) == Some(e) <==> ResultFault(env, values, e)
  {
    if |env.results| == |values| {
      assert forall i :: 0 <= i < |values| ==>
        (env.results[i] == values[|values| - 1 - i] <==> values[|values| - 1 - i] == env.results[i]);
    }
  }

  /** What the translator does at the instruction behind a derivation. */
  lemma AtInstruction(env: Env, ops: seq<Op>, n: nat, c: Context, e: Error)
    requires n < |ops| && After(env, ops, n).Going? && Inside(After(env, ops, n).gen)
    requires c == ContextOf(After(env, ops, n).gen)
    ensures After(env, ops, n + 1) == Failed(e) <==> Fault(env, ops[n], c, e)
    ensures After(env, ops, n + 1).Finished? <==> FunctionEnd(ops[n], c)
    ensures c.stack == After(env, ops, n).gen.values
  {
    hide Fault, Translate;
    var g := After(env, ops, n).gen;
    RaisedContext(g);
    StepFails(env, Raise(g), ops[n], e);
  }

  /** A body is accepted if and only if it is well typed. */
  lemma AcceptedIffTyped(env: Env, ops: seq<Op>)
    ensures (exists k :: Accepts(env, ops, k)) <==> WellTyped(env, ops)
  {
    hide After, Derivation, ContextOf, FinalCheck, Results;
    forall k: nat | Accepts(env, ops, k) ensures WellTyped(env, ops) {
      var cs := Derived(env, ops, k);
      AtInstruction(env, ops, k, cs[k], UnexpectedEof);
      FinalChecks(env, cs[k].stack);
      assert Types(env, ops, k, cs);
    }
    forall n: nat, cs: seq<Context> | Types(env, ops, n, cs) ensures exists k :: Accepts(env, ops, k) {
      Reached(env, ops, n, cs);
      AtInstruction(env, ops, n, cs[n], UnexpectedEof);
      FinalChecks(env, cs[n].stack);
      assert Accepts(env, ops, n);
    }
  }

  /** The instruction at which the translator stopped. */
  lemma {:induction false} StoppedAt(env: Env, ops: seq<Op>, k: nat) returns (n: nat)
    requires k <= |ops| && !After(env, ops, k).Going?
    ensures n < k && After(env, ops, n).Going? && After(env, ops, n + 1) == After(env, ops, k)
  {
    hide Translate;
    n := k - 1;
    if !After(env, ops, k - 1).Going? { n := StoppedAt(env, ops, k - 1); }
  }

  /** A body is rejected with an error if and only if that is its first fault. */
  lemma RejectedForTheFault(env: Env, ops: seq<Op>, e: Error)
    ensures Rejects(env, ops, e) <==> IllTyped(env, ops, e)
  {
    hide After, Derivation, ContextOf, FinalCheck, ResultFault, Fault;
    if Rejects(env, ops, e) { HasFault(env, ops, e); }
    forall n: nat, cs: seq<Context> | FaultAt(env, ops, n, cs, e) ensures Rejects(env, ops, e) {
      FaultRejects(env, ops, n, cs, e);
    }
  }

  lemma HasFault(env: Env, ops: seq<Op>, e: Error)
    requires Rejects(env, ops, e)
    ensures IllTyped(env, ops, e)
  {
    hide After, Derivation, ContextOf, FinalCheck, ResultFault, Fault;
    var n := |ops|;
    match After(env, ops, |ops|)
    case Going(_) =>
      var cs := Derived(env, ops, n);
      assert FaultAt(env, ops, n, cs, e);
    case Failed(_) =>
      n := StoppedAt(env, ops, |ops|);
      var cs := Derived(env, ops, n);
      AtInstruction(env, ops, n, cs[n], e);
      assert FaultAt(env, ops, n, cs, e);
    case Finished(_) =>
      var k: nat :| Stops(env, ops, k) && FinalCheck(env, After(env, ops, k).gen.values) == Some(e);
      var cs := Derived(env, ops, k);
      AtInstruction(env, ops, k, cs[k], e);
      FinalChecks(env, cs[k].stack);
      assert FaultAt(env, ops, k, cs, e);
  }

  lemma FaultRejects(env: Env, ops: seq<Op>, n: nat, cs: seq<Context>, e: Error)
    requires FaultAt(env, ops, n, cs, e)
    ensures Rejects(env, ops, e)
  {
    hide After, Derivation, ContextOf, FinalCheck, ResultFault, Fault;
    Reached(env, ops, n, cs);
    if n < |ops| {
      AtInstruction(env, ops, n, cs[n], e);
      FinalChecks(env, cs[n].stack);
      Settled(env, ops, n + 1);
      assert FunctionEnd(ops[n], cs[n]) ==> Stops(env, ops, n);
    }
  }

  lemma Reached(env: Env, ops: seq<Op>, n: nat, cs: seq<Context>)
    requires Derivation(env, ops, n, cs)
    ensures n <= |ops| && |cs| == n + 1 && After(env, ops, n).Going? && Inside(After(env, ops, n).gen)
    ensures cs[n] == ContextOf(After(env, ops, n).gen)
  {
    GoesThrough(env, ops, n, cs);
    hide ContextOf, After;
  }

  /** Every body is well typed or has one first fault, and never both. */
  lemma TypedOrOneFault(env: Env, ops: seq<Op>)
    ensures WellTyped(env, ops) <==> !exists e :: IllTyped(env, ops, e)
    ensures forall e, e' :: IllTyped(env, ops, e) && IllTyped(env, ops, e') ==> e == e'
  {
    hide After, FinalCheck, WellTyped, IllTyped;
    AcceptedIffTyped(env, ops);
    forall e ensures IllTyped(env, ops, e) <==> Rejects(env, ops, e) { RejectedForTheFault(env, ops, e); }
    forall k: nat, l: nat | Stops(env, ops, k) && Stops(env, ops, l) ensures k == l { OneStop(env, ops, k, l); }
    forall k: nat, e | Accepts(env, ops, k) ensures !Rejects(env, ops, e) {
      Settled(env, ops, k + 1);
      assert Stops(env, ops, k);
    }
    if !exists k :: Accepts(env, ops, k) { var e := SomeError(env, ops); }
  }

  lemma OneStop(env: Env, ops: seq<Op>, k: nat, l: nat)
    requires Stops(env, ops, k) && Stops(env, ops, l)
    ensures k == l
  {
    StillGoing(env, ops, k);
    StillGoing(env, ops, l);
    hide After;
  }

  lemma SomeError(env: Env, ops: seq<Op>) returns (e: Error)
    requires !exists k :: Accepts(env, ops, k)
    ensures Rejects(env, ops, e)
  {
    hide After, FinalCheck;
    match After(env, ops, |ops|)
    case Going(_) => e := UnexpectedEof;
    case Failed(e') => e := e';
    case Finished(_) =>
      var k := StoppedAt(env, ops, |ops|);
      assert Stops(env, ops, k) && !Accepts(env, ops, k);
      e := FinalCheck(env, After(env, ops, k).gen.values).value;
  }
}
