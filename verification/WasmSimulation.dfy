/** The compiled code does what the function means: every instruction of the stack machine
    is matched by zero or one step of the interpreter on the fused and compacted code. */
module WasmSimulation {
  import opened WasmInstr
  import opened WasmSource
  import opened WasmSlots
  import opened T = WasmTranslate
  import opened WasmOptimize
  import opened WasmStatic
  import opened WasmFunction

  // ---- what a caller must know ----

  /** The second half of a fused pair consumes the slot the first half fills. A `Drop`
      between the two, which emits nothing, is what breaks this. */
  predicate Aligned(a: Imc, b: Imc) {
    if b.mnemonic.Simple? && b.mnemonic.plain.Binary? then a.level == b.level + 1 else a.level == b.level
  }

  ghost predicate FusionAligned(fn: Fn) {
    var u := fn.Unfused();
    forall i :: 0 <= i < |u| && Opens(u, i) ==> Aligned(u[i], u[i + 1])
  }

  /** A branch never reaches below the height at which its block was entered. */
  ghost predicate ReachesDown(g: Gen, depth: nat, height: nat) {
    match Target(g, depth)
    case Some(b) => b < |g.blocks| && g.blocks[b].level <= height
    case None => false
  }

  ghost predicate Disciplined(env: Env, g: Gen, op: Op) {
    match op
    case Br(d) => ReachesDown(g, d, |g.values|)
    case BrIf(d) => |g.values| > 0 && ReachesDown(g, d, |g.values| - 1)
    case BrTable(ds) => |g.values| > 0 && forall d :: d in ds ==> ReachesDown(g, d, |g.values| - 1)
    case Return => env.results != [] ==> g.values != []
    case _ => true
  }

  /** Validation as section 7.3 of the WebAssembly specification does it, where `generate`
      does not: branch heights, and a value on the stack at an explicit `return`. */
  ghost predicate WellHeighted(fn: Fn) {
    forall k :: 0 <= k < fn.last && k < |fn.ops| ==> Disciplined(fn.env, fn.At(k), fn.ops[k])
  }

  /** Locals for every declared type, one cell per global, and at least eight bytes of
      memory (a page has 65536) when there is one. */
  predicate HeapOk(env: Env, h: Heap) {
    |h.locals| >= |env.locals| && |h.globals| == |env.globals| && (env.hasMemory ==> |h.mem| >= 8)
  }

  // ---- the relation ----

  /** The label stack is the translator's block stack. */
  ghost predicate LabelOk(fn: Fn, k: nat, l: Label, j: nat) {
    && j < |fn.At(k).blockStack| && l.pos < fn.last < |fn.ops| && (fn.ops[l.pos].Block? || fn.ops[l.pos].Loop?)
    && |fn.At(l.pos).blocks| == fn.At(k).blockStack[j] && l.height == fn.Height(l.pos)
    && fn.At(l.pos + 1).blockStack == fn.At(k).blockStack[..j + 1]
  }

  ghost predicate LabelsOk(fn: Fn, k: nat, labels: seq<Label>) {
    && |labels| == |fn.At(k).blockStack|
    && forall j :: 0 <= j < |labels| ==> LabelOk(fn, k, labels[j], j)
  }

  /** The operand stack when the first half of a fused pair has been executed by the stack
      machine and is still owed by the interpreter. */
  function Owed(c: Imc, slots: seq<Word>): seq<Word> {
    if c.level + Touch(c.mnemonic) > |slots| then slots
    else
    match c.mnemonic
    case Simple(Const32(v)) => slots[..c.level] + [v]
    case Simple(Const64(v)) => slots[..c.level] + [v]
    case Simple(Unary(op)) => slots[..c.level] + [EvalUn(op, slots[c.level])]
    case Simple(Binary(op)) =>
      if IsCompare(op) then slots[..c.level] + [OfBool(EvalCompare(op, slots[c.level], slots[c.level + 1]))] else slots
    case _ => slots
  }

  ghost function View(fn: Fn, k: nat, slots: seq<Word>): seq<Word> {
    var u, i := fn.Unfused(), fn.Emitted(k);
    if Closes(u, i) then Owed(u[i - 1], slots) else slots
  }

  ghost predicate Related(fn: Fn, f: Frame, m: Machine) {
    && f.pc <= fn.last < |fn.ops|
    && |f.stack| == fn.Height(f.pc) <= |View(fn, f.pc, m.slots)|
    && f.stack == View(fn, f.pc, m.slots)[..|f.stack|]
    && LabelsOk(fn, f.pc, f.labels)
    && f.heap == m.heap && HeapOk(fn.env, f.heap)
    && |m.slots| == fn.Slots()
    && m.pc == fn.Position(fn.Emitted(f.pc))
  }

  /** Equal outcomes: related states, or the same result or trap with the same heap. */
  ghost predicate Matches(fn: Fn, o: Outcome<Frame>, p: Outcome<Machine>) {
    match (o, p)
    case (Running(f), Running(m)) => Related(fn, f, m)
    case (Returned(r, h), Returned(r', h')) => r == r' && h == h'
    case (Trapped(t, h), Trapped(t', h')) => t == t' && h == h'
    case _ => false
  }

  // ---- static facts about the emitted instruction ----

  lemma {:induction false} SurvivorCount(f: seq<Imc>)
    ensures |Survivors(f)| == Count(f, |f|)
  {
    if f != [] {
      var g := f[..|f| - 1];
      SurvivorCount(g);
      CountPrefix(f, g, |g|);
    }
  }

  lemma {:induction false} CountPrefix(f: seq<Imc>, g: seq<Imc>, i: nat)
    requires i <= |g| <= |f| && g == f[..|g|]
    ensures Count(f, i) == Count(g, i)
  {
    if i > 0 { CountPrefix(f, g, i - 1); }
  }

  lemma {:induction false} CountGrows(f: seq<Imc>, i: nat, j: nat)
    requires i <= j <= |f|
    ensures Count(f, i) <= Count(f, j)
    decreases j
  {
    if i < j { CountGrows(f, i, j - 1); }
  }

  lemma {:induction false} SurvivorAt(f: seq<Imc>, i: nat)
    requires i < |f| && Kept(f[i].mnemonic)
    ensures Count(f, i) < |Survivors(f)| && Survivors(f)[Count(f, i)] == f[i]
    decreases |f|
  {
    var g := f[..|f| - 1];
    SurvivorCount(f);
    SurvivorCount(g);
    CountPrefix(f, g, |g|);
    if i < |g| {
      CountPrefix(f, g, i);
      SurvivorAt(g, i);
    }
  }

  /** The final code holds the kept instruction at its position, with places for block ids. */
  lemma CodeAt(fn: Fn, i: nat)
    requires fn.Ok() && i < |fn.Unfused()| && Kept(fn.FusedCode()[i].mnemonic)
    ensures fn.Position(i) < |fn.Code()|
    ensures fn.Code()[fn.Position(i)].level == fn.FusedCode()[i].level
    ensures Placed(fn, fn.FusedCode()[i].mnemonic, fn.Code()[fn.Position(i)].mnemonic)
  {
    SurvivorAt(fn.FusedCode(), i);
    SurvivorTargets(fn);
    var s, c := Survivors(fn.FusedCode()), fn.Position(i);
    assert fn.Code()[c] == s[c].(mnemonic := Retarget(s[c].mnemonic, fn.Places()));
    RetargetPlaces(fn, s[c].mnemonic);
  }

  lemma RetargetPlaces(fn: Fn, m: Mnemonic)
    requires forall t :: t in TargetsOf(m) ==> t < |fn.Places()|
    ensures Placed(fn, m, Retarget(m, fn.Places()))
  {
    var ts := TargetsOf(m);
    assert forall i :: 0 <= i < |ts| ==> ts[i] in ts;
    if !m.ImBrTable? && ts != [] { assert ts[0] < |fn.Places()|; }
  }

  /** The same instruction, its block ids replaced by code positions. */
  ghost predicate Placed(fn: Fn, m: Mnemonic, c: Mnemonic) {
    match m
    case ImBr(t) => t < |fn.Places()| && c == ImBr(fn.Place(t))
    case ImBrIf(t) => t < |fn.Places()| && c == ImBrIf(fn.Place(t))
    case FusedBrZ32(t) => t < |fn.Places()| && c == FusedBrZ32(fn.Place(t))
    case FusedBrZ64(t) => t < |fn.Places()| && c == FusedBrZ64(fn.Place(t))
    case FusedBrCompare(op, t) => t < |fn.Places()| && c == FusedBrCompare(op, fn.Place(t))
    case ImBrTable(ts) =>
      && c.ImBrTable? && |c.targets| == |ts|
      && forall i :: 0 <= i < |ts| ==> ts[i] < |fn.Places()| && c.targets[i] == fn.Place(ts[i])
    case _ => c == m
  }

  /** Slots touched by unfused instruction `i` exist. */
  lemma SlotsFit(fn: Fn, i: nat)
    requires fn.Ok() && i < |fn.Unfused()|
    ensures fn.Unfused()[i].mnemonic.ImReturn? || fn.Unfused()[i].level + Touch(fn.Unfused()[i].mnemonic) <= fn.Slots()
  {
    Sound(fn, fn.last + 1);
    Turn(fn, fn.last);
    FinishedHeight(fn.env, fn.At(fn.last), fn.ops[fn.last]);
    hide Translate;
  }

  lemma FinishedHeight(env: Env, g: Gen, op: Op)
    requires Translate(env, Raise(g), op).Finished?
    ensures var g' := Translate(env, Raise(g), op).gen; |g'.values| <= g'.maxStack
  {
  }
}
