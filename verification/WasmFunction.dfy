/** A function body together with everything `generate` derives from it, and the static
    facts about block markers that the branch targets depend on. */
module WasmFunction {
  import opened WasmInstr
  import opened WasmSource
  import opened WasmSlots
  import opened T = WasmTranslate
  import opened WasmOptimize
  import opened WasmStatic

  /** An accepted body; `last` is the index of its function-level `end`. */
  datatype Fn = Fn(env: Env, ops: seq<Op>, last: nat) {

    ghost predicate Ok() { Accepts(env, ops, last) }

    /** The translator's state in front of instruction `k`. */
    ghost function At(k: nat): Gen {
      if k <= |ops| then match After(env, ops, k) case Failed(_) => FRESH case o => o.gen else FRESH
    }

    ghost function Height(k: nat): nat { |At(k).values| }

    /** How many instructions were emitted for the first `k` operations. */
    ghost function Emitted(k: nat): nat { |At(k).codes| }

    ghost function Unfused(): seq<Imc> { At(last + 1).codes }

    ghost function FusedCode(): seq<Imc> { Fused(Unfused()) }

    ghost function Blocks(): seq<BlockContext> { At(last + 1).blocks }

    ghost function Slots(): nat { At(last + 1).maxStack }

    ghost function Places(): (p: seq<nat>)
      ensures |p| == |Blocks()|
    { seq(|Blocks()|, b requires 0 <= b < |Blocks()| => Preferred(Blocks(), FusedCode(), b)) }

    ghost function Place(b: nat): nat { if b < |Places()| then Places()[b] else 0 }

    /** Code position in front of unfused instruction `i`. */
    ghost function Position(i: nat): nat { if i <= |FusedCode()| then Count(FusedCode(), i) else 0 }

    /** The code that `generate` returns. */
    ghost function Code(): seq<Imc> {
      if TargetsBelow(Survivors(FusedCode()), |Places()|) then Retargeted(Survivors(FusedCode()), Places()) else []
    }
  }

  // ---- the translation loop, seen from the finished function ----

  lemma Going(fn: Fn, k: nat)
    requires fn.Ok() && k <= fn.last
    ensures After(fn.env, fn.ops, k) == Progress.Going(fn.At(k))
  {
    StillGoing(fn.env, fn.ops, fn.last);
  }

  /** One turn of the loop, for every instruction up to the last. */
  lemma Turn(fn: Fn, k: nat)
    requires fn.Ok() && k <= fn.last
    ensures var o := Translate(fn.env, Raise(fn.At(k)), fn.ops[k]);
      !o.Failed? && fn.At(k + 1) == o.gen && (o.Finished? <==> k == fn.last)
  {
    hide Translate, FinalCheck;
    Going(fn, k);
    if k < fn.last { Going(fn, k + 1); }
  }

  ghost predicate SoundAt(fn: Fn, k: nat)
    requires k <= |fn.ops|
  {
    Structured(fn.At(k)) && Stacked(fn.At(k))
  }

  lemma {:induction false} Sound(fn: Fn, k: nat)
    requires fn.Ok() && k <= fn.last + 1
    ensures SoundAt(fn, k)
    decreases k
  {
    assert fn.last < |fn.ops|;
    hide *;
    if k == 0 {
      SoundFirst(fn);
    } else {
      Sound(fn, k - 1);
      SoundNext(fn, k - 1);
    }
  }

  lemma SoundFirst(fn: Fn)
    ensures SoundAt(fn, 0)
  {
    FreshIsSound();
  }

  lemma SoundNext(fn: Fn, k: nat)
    requires fn.Ok() && k <= fn.last && SoundAt(fn, k)
    ensures SoundAt(fn, k + 1)
  {
    Turn(fn, k);
    hide Structured, Stacked, Translate, Accepts, After;
    SoundStep(fn.env, fn.At(k), fn.ops[k]);
  }

  lemma FreshIsSound()
    ensures Structured(FRESH) && Stacked(FRESH)
  {
  }

  lemma SoundStep(env: Env, g: Gen, op: Op)
    requires Structured(g) && Stacked(g) && !Translate(env, Raise(g), op).Failed?
    ensures var g' := Translate(env, Raise(g), op).gen; Structured(g') && Stacked(g')
  {
    hide Structured, Stacked, Translate;
    RaiseStructured(g);
    TranslateStructured(env, Raise(g), op);
    TranslateStacked(env, g, op);
  }

  lemma RaiseStructured(g: Gen)
    requires Structured(g)
    ensures Structured(Raise(g))
  {
  }

  /** What one instruction does to the translator's state, types aside. */
  predicate StepShape(g: Gen, op: Op, g': Gen) {
    && (if Silent(op) then g'.codes == g.codes else |g'.codes| == |g.codes| + 1 && g'.codes[..|g.codes|] == g.codes)
    && g'.maxStack == Max(g.maxStack, |g.values|)
    && (if op.Block? || op.Loop? then
          && g'.blockStack == g.blockStack + [|g.blocks|]
          && g'.blocks == g.blocks + [BlockContext(op.Loop?, |g.values|)] && |g'.values| == |g.values|
          && |g'.codes| > |g.codes| && g'.codes[|g.codes|].mnemonic == BlockMark(|g.blocks|)
        else if op.End? && g.blockStack != [] then
          var b := g.blockStack[|g.blockStack| - 1];
          && g'.blockStack == g.blockStack[..|g.blockStack| - 1] && g'.blocks == g.blocks && b < |g.blocks|
          && g.blocks[b].level == |g'.values| <= |g.values|
          && |g'.codes| > |g.codes| && g'.codes[|g.codes|].mnemonic == EndMark(b)
        else g'.blockStack == g.blockStack && g'.blocks == g.blocks)
  }

  lemma Effects(env: Env, g: Gen, op: Op)
    requires !Translate(env, Raise(g), op).Failed?
    ensures StepShape(g, op, Translate(env, Raise(g), op).gen)
    ensures op.End? ==> (Translate(env, Raise(g), op).Finished? <==> g.blockStack == [])
  {
    hide OperandsOk, ResultType, Targets;
  }

  lemma StepOf(fn: Fn, k: nat)
    requires fn.Ok() && k <= fn.last
    ensures k < |fn.ops| && StepShape(fn.At(k), fn.ops[k], fn.At(k + 1))
    ensures fn.ops[k].End? && k < fn.last ==> fn.At(k).blockStack != []
  {
    assert k < |fn.ops|;
    hide Fn.At, Translate, Accepts, FinalCheck, StepShape;
    Turn(fn, k);
    Effects(fn.env, fn.At(k), fn.ops[k]);
  }

  /** The body ends at a function-level `end`, which emits the final return. */
  lemma LastOp(fn: Fn)
    requires fn.Ok()
    ensures fn.ops[fn.last] == End && fn.At(fn.last).blockStack == []
    ensures fn.Unfused() == fn.At(fn.last).codes + [Imc(ImReturn, Below(fn.Height(fn.last)))]
    ensures fn.Blocks() == fn.At(fn.last).blocks
  {
    Turn(fn, fn.last);
  }

  predicate Silent(op: Op) { op.Nop? || op.Drop? }

  /** What one instruction appends. */
  lemma Appends(fn: Fn, k: nat)
    requires fn.Ok() && k <= fn.last
    ensures fn.Emitted(k + 1) == fn.Emitted(k) + if Silent(fn.ops[k]) then 0 else 1
    ensures fn.At(k).codes == fn.At(k + 1).codes[..fn.Emitted(k)]
    ensures |fn.At(k).blocks| <= |fn.At(k + 1).blocks|
    ensures fn.At(k).blocks == fn.At(k + 1).blocks[..|fn.At(k).blocks|]
    ensures fn.At(k).maxStack <= fn.At(k + 1).maxStack && fn.Height(k) <= fn.At(k + 1).maxStack
  {
    hide Fn.At, Accepts;
    StepOf(fn, k);
  }

  lemma {:induction false} Grows(fn: Fn, k: nat, j: nat)
    requires fn.Ok() && k <= j <= fn.last + 1
    ensures fn.Emitted(k) <= fn.Emitted(j) && fn.At(k).codes == fn.At(j).codes[..fn.Emitted(k)]
    ensures |fn.At(k).blocks| <= |fn.At(j).blocks|
    ensures fn.At(k).blocks == fn.At(j).blocks[..|fn.At(k).blocks|]
    ensures fn.At(k).maxStack <= fn.At(j).maxStack && (k < j ==> fn.Height(k) <= fn.At(j).maxStack)
    decreases j - k
  {
    assert fn.last < |fn.ops|;
    hide Fn.At, Accepts;
    if k < j {
      Appends(fn, k);
      Grows(fn, k + 1, j);
    }
  }

  lemma {:induction false} HighestSoFar(fn: Fn, k: nat) returns (j: nat)
    requires fn.Ok() && 0 < k <= fn.last + 1
    ensures j < k && fn.Height(j) == fn.At(k).maxStack
    decreases k
  {
    hide Fn.At, Accepts;
    StepOf(fn, k - 1);
    j := k - 1;
    if k > 1 {
      var i := HighestSoFar(fn, k - 1);
      if fn.Height(j) < fn.Height(i) { j := i; }
    } else {
      NothingYet(fn);
    }
  }

  lemma NothingYet(fn: Fn)
    ensures fn.At(0).maxStack == 0
  {
  }

  /** The value stack is as large as the operand stack ever gets, and no larger. */
  lemma SlotsAreTheMaximum(fn: Fn)
    requires fn.Ok()
    ensures forall k: nat :: k <= fn.last ==> fn.Height(k) <= fn.Slots()
    ensures exists k: nat :: k <= fn.last && fn.Height(k) == fn.Slots()
  {
    hide Fn.At, Accepts;
    forall k: nat | k <= fn.last ensures fn.Height(k) <= fn.Slots() { Grows(fn, k, fn.last + 1); }
    var j := HighestSoFar(fn, fn.last + 1);
  }

  /** The instruction emitted for operation `k` sits at `Emitted(k)` of the unfused code. */
  lemma EmittedAt(fn: Fn, k: nat)
    requires fn.Ok() && k <= fn.last && !Silent(fn.ops[k])
    ensures fn.Emitted(k) < |fn.Unfused()| && fn.Emitted(k + 1) == fn.Emitted(k) + 1
    ensures fn.Unfused()[fn.Emitted(k)] == fn.At(k + 1).codes[fn.Emitted(k)]
  {
    hide Translate;
    Appends(fn, k);
    Grows(fn, k + 1, fn.last + 1);
  }

  // ---- markers ----

  lemma FusedMarks(u: seq<Imc>, i: nat)
    requires i < |u|
    ensures !Kept(u[i].mnemonic) ==> Fused(u)[i] == u[i]
    ensures forall b :: Fused(u)[i].mnemonic == BlockMark(b) <==> u[i].mnemonic == BlockMark(b)
    ensures forall b :: Fused(u)[i].mnemonic == EndMark(b) <==> u[i].mnemonic == EndMark(b)
  {
  }

  lemma FusedTargets(u: seq<Imc>, i: nat)
    requires i < |u|
    ensures TargetsOf(Fused(u)[i].mnemonic) == TargetsOf(u[i].mnemonic) || TargetsOf(Fused(u)[i].mnemonic) == []
  {
  }

  lemma {:induction false} SurvivorIn(f: seq<Imc>, i: nat)
    requires i < |Survivors(f)|
    ensures Survivors(f)[i] in f
  {
    if f != [] {
      var g := f[..|f| - 1];
      if i < |Survivors(g)| {
        SurvivorIn(g, i);
        assert Survivors(f)[i] in g;
      }
    }
  }

  lemma SurvivorTargets(fn: Fn)
    requires fn.Ok()
    ensures TargetsBelow(Survivors(fn.FusedCode()), |fn.Blocks()|)
    ensures MarksBelow(fn.FusedCode(), |fn.Blocks()|)
  {
    hide Fn.At, Accepts, Stacked, Fused, Survivors;
    Sound(fn, fn.last + 1);
    var u, f := fn.Unfused(), fn.FusedCode();
    forall i, t | 0 <= i < |Survivors(f)| && t in TargetsOf(Survivors(f)[i].mnemonic) ensures t < |fn.Blocks()| {
      SurvivorIn(f, i);
      var j :| 0 <= j < |f| && f[j] == Survivors(f)[i];
      FusedTargets(u, j);
      assert t in TargetsOf(u[j].mnemonic);
    }
    forall i | 0 <= i < |f|
      ensures match f[i].mnemonic
        case BlockMark(b) => b < |fn.Blocks()|
        case EndMark(b) => b < |fn.Blocks()|
        case _ => true
    {
      FusedMarks(u, i);
    }
  }

  lemma {:induction false} UniqueStart(f: seq<Imc>, b: nat, i: nat, n: nat)
    requires i < n <= |f| && f[i].mnemonic == BlockMark(b)
    requires forall j :: 0 <= j < |f| && f[j].mnemonic == BlockMark(b) ==> j == i
    ensures StartOf(f, b, n) == Count(f, i)
  {
    if n - 1 != i { UniqueStart(f, b, i, n - 1); }
  }

  lemma {:induction false} UniqueEnd(f: seq<Imc>, b: nat, i: nat, n: nat)
    requires i < n <= |f| && f[i].mnemonic == EndMark(b)
    requires forall j :: 0 <= j < |f| && f[j].mnemonic == EndMark(b) ==> j == i
    ensures EndOf(f, b, n) == Count(f, i)
  {
    if n - 1 != i { UniqueEnd(f, b, i, n - 1); }
  }

  /** The block opened by operation `p`. */
  lemma OpenedBy(fn: Fn, p: nat)
    requires fn.Ok() && p < fn.last && (fn.ops[p].Block? || fn.ops[p].Loop?)
    ensures var b := |fn.At(p).blocks|;
      && b < |fn.Blocks()| && fn.Blocks()[b] == BlockContext(fn.ops[p].Loop?, fn.Height(p))
      && fn.At(p + 1).blockStack == fn.At(p).blockStack + [b] && fn.Height(p + 1) == fn.Height(p)
  {
    hide Fn.At, Accepts;
    StepOf(fn, p);
    Grows(fn, p + 1, fn.last + 1);
    assert fn.At(p + 1).blocks[|fn.At(p).blocks|] == fn.Blocks()[|fn.At(p).blocks|];
  }

  lemma OpenedMark(fn: Fn, p: nat)
    requires fn.Ok() && p < fn.last && (fn.ops[p].Block? || fn.ops[p].Loop?)
    ensures fn.Emitted(p + 1) == fn.Emitted(p) + 1 && fn.Emitted(p) < |fn.Unfused()|
    ensures fn.Unfused()[fn.Emitted(p)].mnemonic == BlockMark(|fn.At(p).blocks|)
  {
    hide Fn.At, Accepts;
    StepOf(fn, p);
    EmittedAt(fn, p);
  }

  lemma UniqueMarks(u: seq<Imc>, b: nat, i: nat)
    requires i < |u|
    ensures u[i].mnemonic == BlockMark(b) && (forall j :: 0 <= j < |u| && u[j].mnemonic == BlockMark(b) ==> j == i)
      ==> StartOf(Fused(u), b, |u|) == Count(Fused(u), i)
    ensures u[i].mnemonic == EndMark(b) && (forall j :: 0 <= j < |u| && u[j].mnemonic == EndMark(b) ==> j == i)
      ==> EndOf(Fused(u), b, |u|) == Count(Fused(u), i)
  {
    var f := Fused(u);
    forall j | 0 <= j < |u|
      ensures f[j].mnemonic == BlockMark(b) <==> u[j].mnemonic == BlockMark(b)
      ensures f[j].mnemonic == EndMark(b) <==> u[j].mnemonic == EndMark(b)
    {
      FusedMarks(u, j);
    }
    hide Fused;
    if u[i].mnemonic == BlockMark(b) && (forall j :: 0 <= j < |u| && u[j].mnemonic == BlockMark(b) ==> j == i) {
      UniqueStart(f, b, i, |u|);
    }
    if u[i].mnemonic == EndMark(b) && (forall j :: 0 <= j < |u| && u[j].mnemonic == EndMark(b) ==> j == i) {
      UniqueEnd(f, b, i, |u|);
    }
  }

  /** The place of a loop is the position of its block marker. */
  lemma StartFound(fn: Fn, b: nat, i: nat)
    requires fn.Ok() && i < |fn.Unfused()| && fn.Unfused()[i].mnemonic == BlockMark(b)
    ensures b < |fn.Blocks()| && fn.Blocks()[b].isLoop ==> fn.Place(b) == fn.Position(i)
  {
    hide Fn.At, Accepts, Stacked, Fused, StartOf, Count;
    Sound(fn, fn.last + 1);
    UniqueMarks(fn.Unfused(), b, i);
  }

  /** The place of any other block is the position of its end marker. */
  lemma EndFound(fn: Fn, b: nat, i: nat)
    requires fn.Ok() && i < |fn.Unfused()| && fn.Unfused()[i].mnemonic == EndMark(b)
    ensures b < |fn.Blocks()| && !fn.Blocks()[b].isLoop ==> fn.Place(b) == fn.Position(i)
  {
    hide Fn.At, Accepts, Stacked, Fused, EndOf, Count;
    Sound(fn, fn.last + 1);
    UniqueMarks(fn.Unfused(), b, i);
  }

  /** The `end` at `e` closes the innermost open block. */
  lemma ClosedBy(fn: Fn, e: nat)
    requires fn.Ok() && e < fn.last && fn.ops[e].End?
    ensures fn.At(e).blockStack != []
    ensures var s := fn.At(e).blockStack; var b := s[|s| - 1];
      && b < |fn.At(e).blocks| <= |fn.Blocks()| && fn.At(e).blocks[b] == fn.Blocks()[b]
      && fn.At(e + 1).blockStack == s[..|s| - 1]
      && fn.Blocks()[b].level <= fn.Height(e) && fn.Height(e + 1) == fn.Blocks()[b].level
  {
    hide Fn.At, Accepts;
    StepOf(fn, e);
    var s := fn.At(e).blockStack;
    Grows(fn, e, fn.last + 1);
    assert fn.At(e).blocks[s[|s| - 1]] == fn.Blocks()[s[|s| - 1]];
  }

  lemma ClosedMark(fn: Fn, e: nat)
    requires fn.Ok() && e < fn.last && fn.ops[e].End? && fn.At(e).blockStack != []
    ensures fn.Emitted(e + 1) == fn.Emitted(e) + 1 && fn.Emitted(e) < |fn.Unfused()|
    ensures fn.Unfused()[fn.Emitted(e)].mnemonic == EndMark(fn.At(e).blockStack[|fn.At(e).blockStack| - 1])
  {
    hide Fn.At, Accepts;
    StepOf(fn, e);
    EmittedAt(fn, e);
  }

  /** How one instruction moves the stack of open blocks. */
  ghost predicate Moves(op: Op, s: seq<nat>, s': seq<nat>) {
    if op.Block? || op.Loop? then |s'| == |s| + 1 && s <= s'
    else if op.End? then s != [] && s' == s[..|s| - 1]
    else s' == s
  }

  ghost predicate Walks(ops: seq<Op>, stacks: seq<seq<nat>>) {
    && 0 < |stacks| <= |ops| && stacks[|stacks| - 1] == []
    && forall i :: 0 <= i < |stacks| - 1 ==> Moves(ops[i], stacks[i], stacks[i + 1])
  }

  /** If the stack of open blocks moves like this and ends empty, then scanning for the `end`
      of an open block finds the operation that has exactly that block on top. */
  lemma {:induction false} ScanFinds(ops: seq<Op>, stacks: seq<seq<nat>>, p: nat, open: seq<nat>)
    requires Walks(ops, stacks) && p < |stacks| && open != [] && open <= stacks[p]
    ensures var e := MatchEnd(ops, p, |stacks[p]| - |open|);
      p <= e < |stacks| - 1 && ops[e].End? && stacks[e] == open
    decreases |stacks| - p
  {
    if p + 1 < |stacks| {
      assert Moves(ops[p], stacks[p], stacks[p + 1]);
      if !(ops[p].End? && |stacks[p]| == |open|) {
        ScanFinds(ops, stacks, p + 1, open);
      }
    }
  }

  lemma StackMoves(fn: Fn, p: nat)
    requires fn.Ok() && p < fn.last
    ensures Moves(fn.ops[p], fn.At(p).blockStack, fn.At(p + 1).blockStack)
  {
    hide Fn.At, Accepts;
    StepOf(fn, p);
  }

  /** Instruction `e` is the `end` of the innermost of the open blocks. */
  ghost predicate ClosesLast(fn: Fn, e: nat, open: seq<nat>) {
    e < fn.last < |fn.ops| && fn.ops[e].End? && fn.At(e).blockStack == open
  }

  /** The open blocks in front of every instruction. */
  ghost function OpenStacks(fn: Fn): (stacks: seq<seq<nat>>)
    ensures |stacks| == fn.last + 1 && forall k :: 0 <= k <= fn.last ==> stacks[k] == fn.At(k).blockStack
  {
    seq(fn.last + 1, k requires 0 <= k <= fn.last => fn.At(k).blockStack)
  }

  lemma StacksMove(fn: Fn)
    requires fn.Ok()
    ensures fn.last < |fn.ops| && Walks(fn.ops, OpenStacks(fn))
  {
    LastOp(fn);
    hide Fn.At, Moves, OpenStacks;
    forall i | 0 <= i < fn.last ensures Moves(fn.ops[i], OpenStacks(fn)[i], OpenStacks(fn)[i + 1]) {
      StackMoves(fn, i);
    }
  }

  lemma MatchFinds(fn: Fn, p: nat, open: seq<nat>)
    requires fn.Ok() && p <= fn.last && open != [] && open <= fn.At(p).blockStack
    ensures var e := MatchEnd(fn.ops, p, |fn.At(p).blockStack| - |open|); p <= e && ClosesLast(fn, e, open)
  {
    hide Fn.At, Fn.Ok, MatchEnd, Walks, OpenStacks;
    StacksMove(fn);
    ScanFinds(fn.ops, OpenStacks(fn), p, open);
  }
}
