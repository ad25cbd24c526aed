/** The translation loop of `WasmCodeBlock::generate`: one pass over the instructions that
    type-checks them against a stack of types and emits intermediate code whose base level
    is the height of that stack. `Nop` and `Drop` emit nothing. */
module WasmTranslate {
  import opened Wrappers
  import opened WasmInstr
  import opened WasmSlots

  datatype Error =
    | UnexpectedEof | OutOfStack | TypeMismatch | OutOfBranch | InvalidLocal | InvalidGlobal
    | OutOfMemory | InvalidStackLevel

  datatype BlockContext = BlockContext(isLoop: bool, level: nat)

  datatype Gen = Gen(
    values: seq<ValType>, blockStack: seq<nat>, blocks: seq<BlockContext>, codes: seq<Imc>, maxStack: nat)

  datatype Progress = Going(gen: Gen) | Finished(gen: Gen) | Failed(error: Error)

  /** `len - 1` on a machine word. */
  function Below(len: nat): nat { if len == 0 then TWO64 - 1 else len - 1 }

  function Emit(g: Gen, m: Mnemonic, level: nat): Gen { g.(codes := g.codes + [Imc(m, level)]) }

  /** The operand types a plain instruction demands, deepest first, or the error that comes
      before any pop. Stores compare less than they might: the source accepts any pair of
      equal types for 32-bit stores, and any i32 address or i64 datum for 64-bit ones. */
  predicate OperandsOk(env: Env, p: Plain, args: seq<ValType>)
    requires |args| == Pops(p)
  {
    match p
    case Const32(_) => true
    case Const64(_) => true
    case LocalGet(_) => true
    case GlobalGet(_) => true
    case MemorySize => true
    case LocalSet(i) => i < |env.locals| && args[0] == env.locals[i]
    case LocalTee(i) => i < |env.locals| && args[0] == env.locals[i]
    case GlobalSet(_) => args[0] == I32
    case Unary(op) => args[0] == UnaryOperand(op)
    case Binary(op) => args[1] == args[0] && args[1] == OperandType(op)
    case Select => args[0] == args[1] && args[2] == I32
    case Load(_, _) => args[0] == I32
    case Store(op, _) =>
      if op.I32Store? || op.I32Store8? || op.I32Store16? then args[0] == args[1] || args[0] == I32
      else args[0] == I32 || args[1] == I64
    case MemoryGrow => args[0] == I32
  }

  function UnaryOperand(op: UnOp): ValType {
    if op.I64Eqz? || op.I32WrapI64? then I64 else I32
  }

  function ResultType(env: Env, p: Plain, args: seq<ValType>): ValType
    requires |args| == Pops(p) && EarlyError(env, p).None?
  {
    match p
    case Const64(_) => I64
    case LocalGet(i) => env.locals[i]
    case LocalTee(i) => env.locals[i]
    case Unary(op) => if op.I64ExtendI32S? || op.I64ExtendI32U? then I64 else I32
    case Binary(op) => if IsCompare(op) then I32 else OperandType(op)
    case Select => args[0]
    case Load(op, _) => LoadType(op)
    case _ => I32
  }

  /** Checks made on the immediates, before the operands are popped. */
  function EarlyError(env: Env, p: Plain): Option<Error> {
    match p
    case LocalGet(i) => if i < |env.locals| then None else Some(InvalidLocal)
    case LocalSet(i) => if i < |env.locals| then None else Some(InvalidLocal)
    case LocalTee(i) => if i < |env.locals| then None else Some(InvalidLocal)
    case GlobalGet(i) => if i < |env.globals| then None else Some(InvalidGlobal)
    case GlobalSet(i) => if i < |env.globals| && env.globals[i] then None else Some(InvalidGlobal)
    case Load(_, _) => if env.hasMemory then None else Some(Error.OutOfMemory)
    case Store(_, _) => if env.hasMemory then None else Some(Error.OutOfMemory)
    case MemorySize => if env.hasMemory then None else Some(Error.OutOfMemory)
    case MemoryGrow => if env.hasMemory then None else Some(Error.OutOfMemory)
    case _ => None
  }

  /** Local access is specialised on the local's type. */
  function PlainMnemonic(env: Env, p: Plain): Mnemonic {
    match p
    case LocalGet(i) => if i < |env.locals| && env.locals[i] == I32 then LocalGet32(i) else Simple(p)
    case LocalSet(i) => if i < |env.locals| && env.locals[i] == I32 then LocalSet32(i) else Simple(p)
    case LocalTee(i) => if i < |env.locals| && env.locals[i] == I32 then LocalTee32(i) else Simple(p)
    case _ => Simple(p)
  }

  function TranslatePlain(env: Env, g: Gen, p: Plain): Progress {
    var n, k := |g.values|, Pops(p);
    if EarlyError(env, p).Some? then Failed(EarlyError(env, p).value)
    else if n < k then Failed(OutOfStack)
    else if !OperandsOk(env, p, g.values[n - k..]) then Failed(TypeMismatch)
    else
      var results := if Pushes(p) == 0 then [] else [ResultType(env, p, g.values[n - k..])];
      Going(Emit(g, PlainMnemonic(env, p), n - k).(values := g.values[..n - k] + results))
  }

  /** `block_stack[len - depth - 1]`; the wrapped subtraction misses when depth >= len. */
  function Target(g: Gen, depth: nat): Option<nat> {
    if depth < |g.blockStack| then Some(g.blockStack[|g.blockStack| - 1 - depth]) else None
  }

  function Targets(g: Gen, depths: seq<nat>): Option<seq<nat>> {
    if depths == [] then Some([])
    else
      match (Target(g, depths[0]), Targets(g, depths[1..]))
      case (Some(t), Some(ts)) => Some([t] + ts)
      case _ => None
  }

  function PopCondition(g: Gen): Progress {
    var n := |g.values|;
    if n == 0 then Failed(OutOfStack)
    else if g.values[n - 1] != I32 then Failed(TypeMismatch)
    else Going(g.(values := g.values[..n - 1]))
  }

  /** One turn of the loop, after `max_stack` has been raised. */
  function Translate(env: Env, g: Gen, op: Op): Progress {
    var n := |g.values|;
    match op
    case Unreachable => Going(Emit(g, ImUnreachable, n))
    case Nop => Going(g)
    case Drop => if n == 0 then Failed(OutOfStack) else Going(g.(values := g.values[..n - 1]))
    case Block => Going(Open(g, false))
    case Loop => Going(Open(g, true))
    case End =>
      if g.blockStack == [] then Finished(Emit(g, ImReturn, Below(n)))
      else
        var b := g.blockStack[|g.blockStack| - 1];
        if b >= |g.blocks| || n < g.blocks[b].level then Failed(OutOfStack)
        else
          var level := g.blocks[b].level;
          Going(Emit(g, EndMark(b), level).(
            values := g.values[..level], blockStack := g.blockStack[..|g.blockStack| - 1]))
    case Br(d) => (
      match Target(g, d)
      case None => Failed(OutOfBranch)
      case Some(b) => Going(Emit(g, ImBr(b), n)))
    case BrIf(d) => (
      match Target(g, d)
      case None => Failed(OutOfBranch)
      case Some(b) =>
        match PopCondition(g)
        case Going(g') => Going(Emit(g', ImBrIf(b), |g'.values|))
        case o => o)
    case BrTable(ds) => (
      match Targets(g, ds)
      case None => Failed(OutOfBranch)
      case Some(bs) =>
        if bs == [] then Failed(UnexpectedEof)  // the encoding always has a default target
        else
          match PopCondition(g)
          case Going(g') => Going(Emit(g', ImBrTable(bs), |g'.values|))
          case o => o)
    case Return => Going(Emit(g, ImReturn, Below(n)))
    case Instr(p) => TranslatePlain(env, g, p)
  }

  function Open(g: Gen, isLoop: bool): Gen {
    var b := |g.blocks|;
    Emit(g, BlockMark(b), |g.values|).(
      blockStack := g.blockStack + [b], blocks := g.blocks + [BlockContext(isLoop, |g.values|)])
  }

  function Max(a: nat, b: nat): nat { if a < b then b else a }

  function Raise(g: Gen): Gen { g.(maxStack := Max(g.maxStack, |g.values|)) }

  const FRESH := Gen([], [], [], [], 0)

  /** The translator's state after `k` instructions. */
  function After(env: Env, ops: seq<Op>, k: nat): Progress
    requires k <= |ops|
  {
    if k == 0 then Going(FRESH)
    else
      match After(env, ops, k - 1)
      case Going(g) => Translate(env, Raise(g), ops[k - 1])
      case o => o
  }

  /** The checks after the loop: as many values as results, and their types, which the
      source compares front to back while popping. */
  function FinalCheck(env: Env, values: seq<ValType>): Option<Error> {
    if env.results == [] then if values == [] then None else Some(InvalidStackLevel)
    else if |env.results| != |values| then Some(TypeMismatch)
    else if exists i :: 0 <= i < |values| && env.results[i] != values[|values| - 1 - i] then Some(TypeMismatch)
    else None
  }

  /** Translation succeeds at the function-level `end` found at index `k`. */
  predicate Accepts(env: Env, ops: seq<Op>, k: nat) {
    k < |ops| && After(env, ops, k + 1).Finished? && After(env, ops, k).Going?
    && FinalCheck(env, After(env, ops, k).gen.values).None?
  }

  /** The error a rejected body is given: the first that the loop meets, or that of the checks
      behind it, or a missing end. */
  ghost predicate Rejects(env: Env, ops: seq<Op>, e: Error) {
    match After(env, ops, |ops|)
    case Failed(e') => e' == e
    case Going(_) => e == UnexpectedEof
    case Finished(_) => exists k :: Stops(env, ops, k) && FinalCheck(env, After(env, ops, k).gen.values) == Some(e)
  }

  /** The function-level `end` is instruction `k`. */
  predicate Stops(env: Env, ops: seq<Op>, k: nat) {
    k < |ops| && After(env, ops, k).Going? && After(env, ops, k + 1).Finished?
  }

  /** The translation loop. */
  method TranslateBody(env: Env, ops: seq<Op>) returns (r: Progress, ghost k: nat)
    ensures r.Finished? ==> Accepts(env, ops, k) && r == After(env, ops, k + 1)
    ensures r.Failed? ==> (forall j :: !Accepts(env, ops, j)) && Rejects(env, ops, r.error)
    ensures !r.Going?
  {
    hide Translate, FinalCheck;
    var g := FRESH;
    var i := 0;
    while i < |ops|
      invariant 0 <= i <= |ops| && After(env, ops, i) == Going(g)
    {
      var before := g;
      match Translate(env, Raise(g), ops[i]) {
        case Failed(e) =>
          Settled(env, ops, i + 1);
          return Failed(e), 0;
        case Finished(done) =>
          Settled(env, ops, i + 1);
          match FinalCheck(env, before.values) {
            case Some(e) =>
              assert Stops(env, ops, i);
              return Failed(e), 0;
            case None => return Finished(done), i;
          }
        case Going(g') => g := g';
      }
      i := i + 1;
    }
    StillGoing(env, ops, |ops|);
    return Failed(UnexpectedEof), 0;
  }

  /** Once the loop has stopped, later prefixes report the same, and earlier ones were going. */
  lemma {:induction false} Settled(env: Env, ops: seq<Op>, k: nat)
    requires 1 <= k <= |ops| && !After(env, ops, k).Going? && After(env, ops, k - 1).Going?
    ensures forall j :: k <= j <= |ops| ==> After(env, ops, j) == After(env, ops, k)
    ensures forall j :: Accepts(env, ops, j) ==> j == k - 1
  {
    hide Translate, FinalCheck;
    var j := k;
    while j < |ops|
      invariant k <= j <= |ops|
      invariant forall i :: k <= i <= j ==> After(env, ops, i) == After(env, ops, k)
    {
      j := j + 1;
    }
    StillGoing(env, ops, k - 1);
  }

  lemma {:induction false} StillGoing(env: Env, ops: seq<Op>, k: nat)
    requires k <= |ops| && After(env, ops, k).Going?
    ensures forall j :: 0 <= j <= k ==> After(env, ops, j).Going?
  {
    hide Translate;
    if k > 0 { StillGoing(env, ops, k - 1); }
  }
}
