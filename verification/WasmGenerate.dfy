/** `WasmCodeBlock::generate` as a whole, and what compaction makes of the branch targets. */
module WasmGenerate {
  import opened WasmInstr
  import opened WasmSource
  import opened WasmSlots
  import opened T = WasmTranslate
  import opened WasmOptimize
  import opened WasmFunction
  import opened WasmSimulation
  import opened WasmCorrect
  import opened WasmSafety
  import opened WasmTyping
  import opened WasmValidation

  datatype Output = CodeBlock(code: seq<Imc>, maxValueStack: nat) | Rejected(error: Error)

  /** Translate, fuse, compact and retarget. A body is compiled exactly if it is well typed, and
      otherwise rejected for its first fault. */
  method Generate(env: Env, ops: seq<Op>) returns (r: Output, ghost fn: Fn)
    ensures r.CodeBlock? <==> WellTyped(env, ops)
    ensures r.Rejected? ==> IllTyped(env, ops, r.error)
    ensures r.CodeBlock? ==>
      fn == Fn(env, ops, fn.last) && fn.Ok() && r.code == fn.Code() && r.maxValueStack == fn.Slots()
  {
    hide WellTyped, IllTyped, Rejects;
    fn := Fn(env, ops, 0);
    var t, last := TranslateBody(env, ops);
    AcceptedIffTyped(env, ops);
    if t.Failed? {
      RejectedForTheFault(env, ops, t.error);
      return Rejected(t.error), fn;
    }
    assert WellTyped(env, ops);
    fn := Fn(env, ops, last);
    var gen := t.gen;
    assert gen == fn.At(last + 1);
    SurvivorTargets(fn);
    hide Fn.At, Accepts, Survivors, Fused;
    var codes := new Imc[|gen.codes|](i requires 0 <= i < |gen.codes| => gen.codes[i]);
    assert codes[..] == gen.codes;
    Fuse(codes);
    var starts := new nat[|gen.blocks|](_ => 0);
    var ends := new nat[|gen.blocks|](_ => 0);
    var len := Compact(codes, starts, ends);
    var place := PreferredTargets(gen.blocks, starts, ends);
    assert place == fn.Places();
    FixBranches(codes, len, place);
    r := CodeBlock(codes[..len], gen.maxStack);
  }

  /** `preferred_target` of every block. */
  method PreferredTargets(blocks: seq<BlockContext>, starts: array<nat>, ends: array<nat>) returns (place: seq<nat>)
    requires |blocks| == starts.Length == ends.Length
    ensures |place| == |blocks|
    ensures forall b :: 0 <= b < |blocks| ==> place[b] == if blocks[b].isLoop then starts[b] else ends[b]
  {
    place := [];
    for b := 0 to |blocks|
      invariant |place| == b
      invariant forall c :: 0 <= c < b ==> place[c] == if blocks[c].isLoop then starts[c] else ends[c]
    {
      place := place + [if blocks[b].isLoop then starts[b] else ends[b]];
    }
  }

  // ---- branch targets count the instructions in front of their marker ----

  ghost predicate OpensBlock(fn: Fn, p: nat, b: nat) {
    p < |fn.ops| && (fn.ops[p].Block? || fn.ops[p].Loop?) && |fn.At(p).blocks| == b
  }

  lemma NoBlocksYet(fn: Fn)
    ensures fn.At(0).blocks == []
  {
  }

  /** The operation that opened block `b`. */
  lemma {:induction false} BlockOrigin(fn: Fn, b: nat, j: nat) returns (p: nat)
    requires fn.Ok() && j <= fn.last && b < |fn.At(j).blocks|
    ensures p < j && OpensBlock(fn, p, b)
    decreases j
  {
    hide Fn.At, Accepts;
    NoBlocksYet(fn);
    if j > 0 {
      StepOf(fn, j - 1);
      if b < |fn.At(j - 1).blocks| { p := BlockOrigin(fn, b, j - 1); } else { p := j - 1; }
    }
  }

  /** The marker a branch to block `b` goes to. */
  function Marker(blocks: seq<BlockContext>, b: nat): Mnemonic
    requires b < |blocks|
  {
    if blocks[b].isLoop then BlockMark(b) else EndMark(b)
  }

  /** Every block has its marker in the unfused code, and a branch to the block lands on the
      number of instructions kept in front of it, which is inside the code. */
  lemma TargetsCountTheKept(fn: Fn, b: nat) returns (i: nat)
    requires fn.Ok() && b < |fn.Blocks()|
    ensures i < |fn.Unfused()| && fn.Unfused()[i].mnemonic == Marker(fn.Blocks(), b)
    ensures fn.Place(b) == Count(fn.FusedCode(), i) < |fn.Code()|
    ensures forall i' :: 0 <= i' < |fn.Unfused()| && fn.Unfused()[i'].mnemonic == Marker(fn.Blocks(), b) ==> i' == i
  {
    hide Fn.At, Accepts, Fused, Translate;
    LastOp(fn);
    var p := BlockOrigin(fn, b, fn.last);
    OpenedBy(fn, p);
    PlaceInside(fn, b);
    if fn.ops[p].Loop? {
      OpenedMark(fn, p);
      i := fn.Emitted(p);
      StartFound(fn, b, i);
    } else {
      var open := fn.At(p).blockStack + [b];
      MatchFinds(fn, p + 1, open);
      var e := MatchEnd(fn.ops, p + 1, 0);
      ClosedMark(fn, e);
      i := fn.Emitted(e);
      EndFound(fn, b, i);
    }
    Sound(fn, fn.last + 1);
  }

  // ---- which functions fusion is right for ----

  /** No `drop` stands between the halves of a fused pair. */
  ghost predicate NoDropInPair(fn: Fn) {
    forall k :: 0 <= k < fn.last && k < |fn.ops| && fn.ops[k].Drop? ==> !Closes(fn.Unfused(), fn.Emitted(k))
  }

  /** Between two points that emit nothing only drops change the height. */
  lemma {:induction false} HeightBetween(fn: Fn, a: nat, b: nat)
    requires fn.Ok() && a <= b <= fn.last < |fn.ops| && fn.Emitted(a) == fn.Emitted(b)
    ensures forall k :: a <= k < b ==> fn.Emitted(k) == fn.Emitted(a) && Silent(fn.ops[k])
    ensures fn.Height(b) <= fn.Height(a)
    ensures fn.Height(b) == fn.Height(a) <==> forall k :: a <= k < b ==> !fn.ops[k].Drop?
    decreases b
  {
    hide Fn.At, Accepts;
    if a < b {
      Grows(fn, a, b - 1);
      Grows(fn, b - 1, b);
      Appends(fn, b - 1);
      HeightBetween(fn, a, b - 1);
      SilentMoves(fn, b - 1);
    }
  }

  ghost predicate PairFrom(fn: Fn, i: nat, a: nat, b: nat) {
    && a < b < fn.last < |fn.ops| && fn.Emitted(a) == i && fn.Emitted(a + 1) == fn.Emitted(b) == i + 1
    && !Silent(fn.ops[b]) && i + 1 < |fn.Unfused()|
    && (Aligned(fn.Unfused()[i], fn.Unfused()[i + 1]) <==> fn.Height(b) == fn.Height(a + 1))
  }

  /** The operations behind a fused pair, and what alignment says about them. */
  lemma PairOps(fn: Fn, i: nat) returns (a: nat, b: nat)
    requires fn.Ok() && Opens(fn.Unfused(), i)
    ensures PairFrom(fn, i, a, b)
  {
    hide Fn.At, Accepts, Aligned, Opens;
    a, b := PairPlaces(fn, i);
    OpensInside(fn.Unfused(), i);
    PairHeights(fn, i, a, b);
  }

  ghost predicate HalvesAt(fn: Fn, i: nat, a: nat, b: nat) {
    && a < b < fn.last < |fn.ops| && fn.Emitted(a) == i && fn.Emitted(a + 1) == fn.Emitted(b) == i + 1
    && !Silent(fn.ops[a]) && !Silent(fn.ops[b])
  }

  lemma PairPlaces(fn: Fn, i: nat) returns (a: nat, b: nat)
    requires fn.Ok() && Opens(fn.Unfused(), i)
    ensures HalvesAt(fn, i, a, b)
  {
    hide Fn.At, Accepts, Opens, Closes;
    OpensInside(fn.Unfused(), i);
    a := KeptFrom(fn, i);
    b := KeptFrom(fn, i + 1);
    LastIsOpen(fn);
    if b <= a { Grows(fn, b, a); }
    EmittedAt(fn, a);
  }

  /** The operation unfused instruction `i` was emitted for. */
  lemma KeptFrom(fn: Fn, i: nat) returns (k: nat)
    requires fn.Ok() && i < |fn.Unfused()|
    ensures k <= fn.last < |fn.ops| && !Silent(fn.ops[k]) && fn.Emitted(k) == i
  {
    k := Origin(fn, i, fn.last + 1);
    hide Fn.At, Accepts;
  }

  lemma OpensInside(u: seq<Imc>, i: nat)
    requires Opens(u, i)
    ensures i + 1 < |u| && Closes(u, i + 1)
  {
  }

  lemma PairHeights(fn: Fn, i: nat, a: nat, b: nat)
    requires fn.Ok() && Opens(fn.Unfused(), i) && a < b < fn.last < |fn.ops| && !Silent(fn.ops[a]) && !Silent(fn.ops[b])
    requires fn.Emitted(a) == i && fn.Emitted(b) == i + 1
    ensures Aligned(fn.Unfused()[i], fn.Unfused()[i + 1]) <==> fn.Height(b) == fn.Height(a + 1)
  {
    OpenerIs(fn, a);
    CloserIs(fn, b);
    hide Fn.At, Accepts;
  }

  lemma OpenerIs(fn: Fn, k: nat)
    requires fn.Ok() && k < fn.last < |fn.ops| && !Silent(fn.ops[k]) && Opens(fn.Unfused(), fn.Emitted(k))
    ensures fn.Height(k + 1) == fn.Unfused()[fn.Emitted(k)].level + 1
  {
    hide Fn.At, Accepts, Translate;
    Turn(fn, k);
    EmittedAt(fn, k);
    OpenerTranslates(fn.env, fn.At(k), fn.ops[k], fn.Unfused()[fn.Emitted(k) + 1].mnemonic);
  }

  /** What the first half of a pair leaves on the stack. */
  lemma OpenerTranslates(env: Env, g: Gen, op: Op, b: Mnemonic)
    requires !Translate(env, Raise(g), op).Failed? && |Translate(env, Raise(g), op).gen.codes| == |g.codes| + 1
    requires Pair(Translate(env, Raise(g), op).gen.codes[|g.codes|].mnemonic, b).Some?
    ensures var g' := Translate(env, Raise(g), op).gen; |g'.values| == g'.codes[|g.codes|].level + 1
  {
    hide OperandsOk, ResultType, Targets;
  }

  /** What the second half of a pair takes from the stack. */
  lemma CloserTranslates(env: Env, g: Gen, op: Op, a: Mnemonic)
    requires !Translate(env, Raise(g), op).Failed? && |Translate(env, Raise(g), op).gen.codes| == |g.codes| + 1
    requires Pair(a, Translate(env, Raise(g), op).gen.codes[|g.codes|].mnemonic).Some?
    ensures var c := Translate(env, Raise(g), op).gen.codes[|g.codes|];
      |g.values| == c.level + if c.mnemonic.Simple? && c.mnemonic.plain.Binary? then 2 else 1
  {
    hide OperandsOk, ResultType, Targets;
  }

  lemma CloserIs(fn: Fn, k: nat)
    requires fn.Ok() && k < fn.last < |fn.ops| && !Silent(fn.ops[k]) && Closes(fn.Unfused(), fn.Emitted(k))
    ensures var c := fn.Unfused()[fn.Emitted(k)];
      fn.Height(k) == c.level + if c.mnemonic.Simple? && c.mnemonic.plain.Binary? then 2 else 1
  {
    hide Fn.At, Accepts, Translate;
    Turn(fn, k);
    EmittedAt(fn, k);
    CloserTranslates(fn.env, fn.At(k), fn.ops[k], fn.Unfused()[fn.Emitted(k) - 1].mnemonic);
  }

  /** Alignment is a condition on the body: nothing is dropped inside a fused pair. */
  lemma AlignedMeansNoDrop(fn: Fn)
    requires fn.Ok()
    ensures FusionAligned(fn) <==> NoDropInPair(fn)
  {
    assert fn.last < |fn.ops|;
    hide Fn.At, Accepts, Aligned, Pair, Opens;
    if NoDropInPair(fn) { NoDropAligns(fn); }
    if FusionAligned(fn) {
      forall k | 0 <= k < fn.last && k < |fn.ops| && fn.ops[k].Drop? ensures !Closes(fn.Unfused(), fn.Emitted(k)) {
        if Closes(fn.Unfused(), fn.Emitted(k)) { DropUnaligns(fn, k); }
      }
    }
  }

  lemma NoDropAligns(fn: Fn)
    requires fn.Ok() && NoDropInPair(fn)
    ensures FusionAligned(fn)
  {
    hide Fn.At, Accepts, Aligned, Pair;
    forall i | 0 <= i < |fn.Unfused()| && Opens(fn.Unfused(), i)
      ensures Aligned(fn.Unfused()[i], fn.Unfused()[i + 1])
    {
      var a, b := PairOps(fn, i);
      HeightBetween(fn, a + 1, b);
    }
  }

  lemma DropUnaligns(fn: Fn, k: nat)
    requires fn.Ok() && k < fn.last < |fn.ops| && fn.ops[k].Drop? && Closes(fn.Unfused(), fn.Emitted(k))
    ensures !FusionAligned(fn)
  {
    hide Fn.At, Accepts, Aligned;
    var i := fn.Emitted(k) - 1;
    var a, b := PairOps(fn, i);
    if k <= a { Grows(fn, k, a); }
    EmittedAt(fn, b);
    if b < k { Grows(fn, b + 1, k); }
    HeightBetween(fn, a + 1, b);
  }
}
