/** The three in-place passes at the end of `WasmCodeBlock::generate`: fusing adjacent
    pairs, compacting away `Nop` and block markers, and turning block ids into code
    positions. Each is a method over an array, proved equal to a pointwise definition. */
module WasmOptimize {
  import opened Wrappers
  import opened WasmInstr
  import opened WasmSlots
  import opened T = WasmTranslate

  // ---- fusion ----

  predicate Immediate32(op: BinOp) {
    op.I32Add? || op.I32Sub? || op.I32And? || op.I32Or? || op.I32Xor? || op.I32Shl? || op.I32ShrS? || op.I32ShrU?
  }

  predicate Immediate64(op: BinOp) { op.I64Add? || op.I64Sub? }

  /** Compare-and-branch forms: every 32-bit comparison, but only two 64-bit ones. */
  predicate Branching(op: BinOp) { IsCompare(op) && !op.I64LtS? && !op.I64LtU? }

  /** What the pair of adjacent mnemonics fuses into. The 32-bit `local.set` is emitted as
      `LocalSet32`, which the table does not list. */
  function Pair(a: Mnemonic, b: Mnemonic): Option<Mnemonic> {
    match (a, b)
    case (Simple(Const32(v)), Simple(LocalSet(i))) => Some(FusedSetConst32(i, v))
    case (Simple(Const32(v)), Simple(Binary(op))) => if Immediate32(op) then Some(FusedImm32(op, v)) else None
    case (Simple(Const64(v)), Simple(LocalSet(i))) => Some(FusedSetConst64(i, v))
    case (Simple(Const64(v)), Simple(Binary(op))) => if Immediate64(op) then Some(FusedImm64(op, v)) else None
    case (Simple(Unary(op)), ImBrIf(t)) =>
      if op.I32Eqz? then Some(FusedBrZ32(t)) else if op.I64Eqz? then Some(FusedBrZ64(t)) else None
    case (Simple(Binary(op)), ImBrIf(t)) => if Branching(op) then Some(FusedBrCompare(op, t)) else None
    case _ => None
  }

  /** Which pairs fuse: a constant with what stores it or takes it as its right operand, and a test
      for zero or a comparison with the branch on it. */
  lemma WhatFuses(a: Mnemonic, b: Mnemonic)
    ensures Pair(a, b).Some? <==>
      || (a.Simple? && a.plain.Const32? && b.Simple?
          && (b.plain.LocalSet?
              || (b.plain.Binary?
                  && b.plain.bin in {I32Add, I32Sub, I32And, I32Or, I32Xor, I32Shl, I32ShrS, I32ShrU})))
      || (a.Simple? && a.plain.Const64? && b.Simple?
          && (b.plain.LocalSet? || (b.plain.Binary? && b.plain.bin in {I64Add, I64Sub})))
      || (b.ImBrIf? && a.Simple? && a.plain.Unary? && a.plain.un in {I32Eqz, I64Eqz})
      || (b.ImBrIf? && a.Simple? && a.plain.Binary?
          && a.plain.bin in {I32Eq, I32Ne, I32LtS, I32LtU, I32GtS, I32GtU, I32LeS, I32LeU, I32GeS, I32GeU,
                             I64Eq, I64Ne})
  {
  }

  /** The instruction at `i` opens, or closes, a fused pair. */
  predicate Opens(u: seq<Imc>, i: nat) {
    |u| > 2 && i + 1 < |u| && Pair(u[i].mnemonic, u[i + 1].mnemonic).Some?
  }

  predicate Closes(u: seq<Imc>, i: nat) { i >= 1 && Opens(u, i - 1) }

  /** The mnemonic at `i` after fusion, as a function of the neighbours before it. */
  function FusedAt(u: seq<Imc>, i: nat): Mnemonic
    requires i < |u|
  {
    if Opens(u, i) then ImNop
    else if Closes(u, i) then Pair(u[i - 1].mnemonic, u[i].mnemonic).value
    else u[i].mnemonic
  }

  function Fused(u: seq<Imc>): (f: seq<Imc>)
    ensures |f| == |u|
  {
    seq(|u|, i requires 0 <= i < |u| => u[i].(mnemonic := FusedAt(u, i)))
  }

  /** A pair is never followed by a pair that starts with its second half, so a left-to-right
      sweep over the changing array and the pointwise definition agree. */
  lemma PairsAreDisjoint(a: Mnemonic, b: Mnemonic, c: Mnemonic)
    requires Pair(a, b).Some?
    ensures Pair(b, c).None? && Pair(Pair(a, b).value, c).None?
  {
  }

  method Fuse(codes: array<Imc>)
    modifies codes
    ensures codes[..] == Fused(old(codes[..]))
  {
    hide Pair;
    ghost var u := codes[..];
    if codes.Length > 2 {
      var limit := codes.Length - 1;
      for i := 0 to limit
        invariant forall j :: 0 <= j < i ==> codes[j] == u[j].(mnemonic := FusedAt(u, j))
        invariant codes[i] == u[i].(mnemonic := if Closes(u, i) then Pair(u[i - 1].mnemonic, u[i].mnemonic).value
                                                 else u[i].mnemonic)
        invariant forall j :: i < j < codes.Length ==> codes[j] == u[j]
      {
        if Closes(u, i) { PairsAreDisjoint(u[i - 1].mnemonic, u[i].mnemonic, u[i + 1].mnemonic); }
        match Pair(codes[i].mnemonic, codes[i + 1].mnemonic) {
          case Some(m) =>
            codes[i + 1] := codes[i + 1].(mnemonic := m);
            codes[i] := codes[i].(mnemonic := ImNop);
          case None =>
        }
      }
    }
  }

  // ---- compaction ----

  predicate Kept(m: Mnemonic) { !m.ImNop? && !m.BlockMark? && !m.EndMark? }

  /** How many of the first `i` instructions survive. */
  function Count(f: seq<Imc>, i: nat): (n: nat)
    requires i <= |f|
    ensures n <= i
  {
    if i == 0 then 0 else Count(f, i - 1) + (if Kept(f[i - 1].mnemonic) then 1 else 0)
  }

  function Survivors(f: seq<Imc>): seq<Imc> {
    if f == [] then []
    else
      var rest := Survivors(f[..|f| - 1]);
      var last := f[|f| - 1];
      if Kept(last.mnemonic) then rest + [last] else rest
  }

  /** The count in front of the last marker of the block, zero if there is none. */
  function StartOf(f: seq<Imc>, b: nat, n: nat): nat
    requires n <= |f|
  {
    if n == 0 then 0 else if f[n - 1].mnemonic == BlockMark(b) then Count(f, n - 1) else StartOf(f, b, n - 1)
  }

  function EndOf(f: seq<Imc>, b: nat, n: nat): nat
    requires n <= |f|
  {
    if n == 0 then 0 else if f[n - 1].mnemonic == EndMark(b) then Count(f, n - 1) else EndOf(f, b, n - 1)
  }

  predicate MarksBelow(f: seq<Imc>, blocks: nat) {
    forall i :: 0 <= i < |f| ==>
      match f[i].mnemonic case BlockMark(b) => b < blocks case EndMark(b) => b < blocks case _ => true
  }

  /** Slides the survivors to the front of the array and notes where each block begins and
      ends. The tail of the array past `len` is what `set_len` cuts off. */
  method Compact(codes: array<Imc>, starts: array<nat>, ends: array<nat>) returns (len: nat)
    requires starts != ends && starts.Length == ends.Length && MarksBelow(codes[..], starts.Length)
    requires forall b :: 0 <= b < starts.Length ==> starts[b] == 0 && ends[b] == 0
    modifies codes, starts, ends
    ensures len <= codes.Length && codes[..len] == Survivors(old(codes[..]))
    ensures forall b :: 0 <= b < starts.Length ==> starts[b] == StartOf(old(codes[..]), b, codes.Length)
    ensures forall b :: 0 <= b < ends.Length ==> ends[b] == EndOf(old(codes[..]), b, codes.Length)
  {
    ghost var f := codes[..];
    ghost var kept: seq<Imc> := [];
    assert Survivors(f[..0]) == [];
    hide Survivors;
    len := 0;
    for index := 0 to codes.Length
      invariant len == Count(f, index) == |kept| && kept == Survivors(f[..index])
      invariant forall j :: 0 <= j < len ==> codes[j] == kept[j]
      invariant forall j :: index <= j < codes.Length ==> codes[j] == f[j]
      invariant forall b :: 0 <= b < starts.Length ==> starts[b] == StartOf(f, b, index)
      invariant forall b :: 0 <= b < ends.Length ==> ends[b] == EndOf(f, b, index)
    {
      SurvivorsStep(f, index);
      match codes[index].mnemonic {
        case ImNop =>
        case BlockMark(b) => starts[b] := len;
        case EndMark(b) => ends[b] := len;
        case _ =>
          codes[len] := codes[index];
          len := len + 1;
          kept := kept + [f[index]];
      }
    }
    assert f[..codes.Length] == f;
    assert codes[..len] == kept;
  }

  lemma SurvivorsStep(f: seq<Imc>, i: nat)
    requires i < |f|
    ensures Survivors(f[..i + 1]) == if Kept(f[i].mnemonic) then Survivors(f[..i]) + [f[i]] else Survivors(f[..i])
  {
    assert f[..i + 1][..i] == f[..i];
  }

  // ---- branch targets ----

  /** `preferred_target`: loops are entered at the start, other blocks are left at the end. */
  function Preferred(blocks: seq<BlockContext>, f: seq<Imc>, b: nat): nat
    requires b < |blocks|
  {
    if blocks[b].isLoop then StartOf(f, b, |f|) else EndOf(f, b, |f|)
  }

  function TargetsOf(m: Mnemonic): seq<nat> {
    match m
    case ImBr(t) => [t]
    case ImBrIf(t) => [t]
    case FusedBrZ32(t) => [t]
    case FusedBrZ64(t) => [t]
    case FusedBrCompare(_, t) => [t]
    case ImBrTable(ts) => ts
    case _ => []
  }

  predicate TargetsBelow(codes: seq<Imc>, blocks: nat) {
    forall i, t :: 0 <= i < |codes| && t in TargetsOf(codes[i].mnemonic) ==> t < blocks
  }

  function Retarget(m: Mnemonic, place: seq<nat>): Mnemonic
    requires forall t :: t in TargetsOf(m) ==> t < |place|
  {
    match m
    case ImBr(t) => assert t in TargetsOf(m); ImBr(place[t])
    case ImBrIf(t) => assert t in TargetsOf(m); ImBrIf(place[t])
    case FusedBrZ32(t) => assert t in TargetsOf(m); FusedBrZ32(place[t])
    case FusedBrZ64(t) => assert t in TargetsOf(m); FusedBrZ64(place[t])
    case FusedBrCompare(op, t) => assert t in TargetsOf(m); FusedBrCompare(op, place[t])
    case ImBrTable(ts) => ImBrTable(seq(|ts|, i requires 0 <= i < |ts| => place[InTable(m, place, i)]))
    case _ => m
  }

  function Retargeted(codes: seq<Imc>, place: seq<nat>): seq<Imc>
    requires TargetsBelow(codes, |place|)
  {
    seq(|codes|, i requires 0 <= i < |codes| => codes[i].(mnemonic := Retarget(codes[i].mnemonic, place)))
  }

  /** The loop that calls `adjust_branch_target` on the compacted code. */
  method FixBranches(codes: array<Imc>, len: nat, place: seq<nat>)
    requires len <= codes.Length && TargetsBelow(codes[..len], |place|)
    modifies codes
    ensures codes[..len] == Retargeted(old(codes[..len]), place)
  {
    ghost var k := codes[..len];
    for i := 0 to len
      invariant forall j :: 0 <= j < i ==> codes[j] == k[j].(mnemonic := Retarget(k[j].mnemonic, place))
      invariant forall j :: i <= j < len ==> codes[j] == k[j]
    {
      assert codes[i] == k[i];
      var m := AdjustBranchTarget(codes[i].mnemonic, place);
      codes[i] := codes[i].(mnemonic := m);
    }
  }

  /** A `BrTable` is rebuilt entry by entry; every other form holds one target or none. */
  method AdjustBranchTarget(m: Mnemonic, place: seq<nat>) returns (r: Mnemonic)
    requires forall t :: t in TargetsOf(m) ==> t < |place|
    ensures r == Retarget(m, place)
  {
    if m.ImBrTable? {
      var table := [];
      for i := 0 to |m.targets|
        invariant |table| == i && forall j :: 0 <= j < i ==> table[j] == place[InTable(m, place, j)]
      {
        table := table + [place[InTable(m, place, i)]];
      }
      assert table == Retarget(m, place).targets;
      return ImBrTable(table);
    } else {
      return Retarget(m, place);
    }
  }

  function InTable(m: Mnemonic, place: seq<nat>, i: nat): (t: nat)
    requires m.ImBrTable? && i < |m.targets| && forall t :: t in TargetsOf(m) ==> t < |place|
    ensures t == m.targets[i] < |place|
  {
    assert m.targets[i] in TargetsOf(m);
    m.targets[i]
  }
}
