/** Which function bodies are well typed: a signature for every instruction, a context of operand
    types and enclosing blocks in front of every instruction, and rules in the manner of section
    3.3 and the algorithm of section 7.3 of the WebAssembly Core Specification 2.0, with what the
    source relaxes: stores compare less, branches and `return` leave the operands as they are,
    and a block may end higher than it began. */
module WasmTyping {
  import opened WasmInstr
  import opened T = WasmTranslate

  /** `[t*] -> [t*]`. */
  datatype Signature = Signature(takes: seq<ValType>, gives: seq<ValType>)

  /** The types of the operands, and for each enclosing block, innermost last, how many there were
      when it was entered. */
  datatype Context = Context(stack: seq<ValType>, labels: seq<nat>)

  function UnarySignature(op: UnOp): Signature {
    match op
    case I32Eqz => Signature([I32], [I32])
    case I64Eqz => Signature([I64], [I32])
    case I32WrapI64 => Signature([I64], [I32])
    case I64ExtendI32S => Signature([I32], [I64])
    case I64ExtendI32U => Signature([I32], [I64])
  }

  function BinarySignature(op: BinOp): Signature {
    match op
    case I64Add => Signature([I64, I64], [I64]) case I64Sub => Signature([I64, I64], [I64])
    case I64Mul => Signature([I64, I64], [I64]) case I64DivU => Signature([I64, I64], [I64])
    case I64And => Signature([I64, I64], [I64]) case I64Or => Signature([I64, I64], [I64])
    case I64Shl => Signature([I64, I64], [I64]) case I64ShrU => Signature([I64, I64], [I64])
    case I64Eq => Signature([I64, I64], [I32]) case I64Ne => Signature([I64, I64], [I32])
    case I64LtS => Signature([I64, I64], [I32]) case I64LtU => Signature([I64, I64], [I32])
    case _ => Signature([I32, I32], [I32])
  }

  function LoadGives(op: LoadOp): ValType {
    match op
    case I64Load => I64 case I64Load8S => I64 case I64Load8U => I64 case I64Load32S => I64 case I64Load32U => I64
    case _ => I32
  }

  /** An address and a datum. The 32-bit stores also accept two operands of one type, the 64-bit
      ones anything in one place if the other is right. */
  predicate StoreTakes(op: StoreOp, address: ValType, datum: ValType) {
    match op
    case I32Store => address == I32 || address == datum
    case I32Store8 => address == I32 || address == datum
    case I32Store16 => address == I32 || address == datum
    case _ => address == I32 || datum == I64
  }

  /** The plain instruction has the signature. */
  predicate HasType(env: Env, p: Plain, s: Signature) {
    match p
    case Const32(_) => s == Signature([], [I32])
    case Const64(_) => s == Signature([], [I64])
    case LocalGet(x) => x < |env.locals| && s == Signature([], [env.locals[x]])
    case LocalSet(x) => x < |env.locals| && s == Signature([env.locals[x]], [])
    case LocalTee(x) => x < |env.locals| && s == Signature([env.locals[x]], [env.locals[x]])
    case GlobalGet(x) => x < |env.globals| && s == Signature([], [I32])
    case GlobalSet(x) => x < |env.globals| && env.globals[x] && s == Signature([I32], [])
    case Unary(op) => s == UnarySignature(op)
    case Binary(op) => s == BinarySignature(op)
    case Select => s == Signature([I32, I32, I32], [I32]) || s == Signature([I64, I64, I32], [I64])
    case Load(op, _) => env.hasMemory && s == Signature([I32], [LoadGives(op)])
    case Store(op, _) => env.hasMemory && |s.takes| == 2 && StoreTakes(op, s.takes[0], s.takes[1]) && s.gives == []
    case MemorySize => env.hasMemory && s == Signature([], [I32])
    case MemoryGrow => env.hasMemory && s == Signature([I32], [I32])
  }

  /** From the types `before` to the types `after`, on top of whatever lies below. */
  ghost predicate Applies(env: Env, p: Plain, s: Signature, base: seq<ValType>, before: seq<ValType>,
                          after: seq<ValType>) {
    HasType(env, p, s) && before == base + s.takes && after == base + s.gives
  }

  predicate Enclosed(c: Context, depths: seq<nat>) { forall i :: 0 <= i < |depths| ==> depths[i] < |c.labels| }

  /** One instruction leads from one context to the next. The `end` of the function is not such an
      instruction. */
  ghost predicate Rule(env: Env, op: Op, c: Context, c': Context) {
    match op
    case Unreachable => c' == c
    case Nop => c' == c
    case Drop => c'.labels == c.labels && exists t :: c.stack == c'.stack + [t]
    case Block => c' == Context(c.stack, c.labels + [|c.stack|])
    case Loop => c' == Context(c.stack, c.labels + [|c.stack|])
    case End => exists h: nat :: h <= |c.stack| && c.labels == c'.labels + [h] && c'.stack == c.stack[..h]
    case Br(d) => c' == c && d < |c.labels|
    case BrIf(d) => c'.labels == c.labels && d < |c.labels| && c.stack == c'.stack + [I32]
    case BrTable(ds) => c'.labels == c.labels && ds != [] && Enclosed(c, ds) && c.stack == c'.stack + [I32]
    case Return => c' == c
    case Instr(p) => c'.labels == c.labels && exists s, base :: Applies(env, p, s, base, c.stack, c'.stack)
  }

  /** Contexts for the first `n` instructions, each from the one before. */
  ghost predicate Derivation(env: Env, ops: seq<Op>, n: nat, cs: seq<Context>) {
    && n <= |ops| && |cs| == n + 1 && cs[0] == Context([], [])
    && forall i :: 0 <= i < n ==> Rule(env, ops[i], cs[i], cs[i + 1])
  }

  /** The operands are the results, the last result deepest. */
  predicate Results(env: Env, stack: seq<ValType>) {
    |stack| == |env.results| && forall i :: 0 <= i < |stack| ==> stack[|stack| - 1 - i] == env.results[i]
  }

  predicate FunctionEnd(op: Op, c: Context) { op == End && c.labels == [] }

  /** The contexts lead to the function-level `end`, where the operands are the results. */
  ghost predicate Types(env: Env, ops: seq<Op>, n: nat, cs: seq<Context>) {
    n < |ops| && Derivation(env, ops, n, cs) && FunctionEnd(ops[n], cs[n]) && Results(env, cs[n].stack)
  }

  ghost predicate WellTyped(env: Env, ops: seq<Op>) { exists n: nat, cs: seq<Context> :: Types(env, ops, n, cs) }

  // ---- what is wrong with a body that is not ----

  ghost predicate Typable(env: Env, p: Plain) { exists s :: HasType(env, p, s) }

  /** The immediate operands of a plain instruction are at fault. */
  predicate BadImmediate(env: Env, p: Plain, e: Error) {
    match e
    case InvalidLocal => (p.LocalGet? || p.LocalSet? || p.LocalTee?) && p.local >= |env.locals|
    case InvalidGlobal =>
      (p.GlobalGet? && p.global >= |env.globals|)
      || (p.GlobalSet? && (p.global >= |env.globals| || !env.globals[p.global]))
    case OutOfMemory => (p.Load? || p.Store? || p.MemorySize? || p.MemoryGrow?) && !env.hasMemory
    case _ => false
  }

  /** The first thing wrong with an instruction in a context: its immediates, then too few
      operands, then operands that no signature takes. */
  ghost predicate Fault(env: Env, op: Op, c: Context, e: Error) {
    match op
    case Unreachable => false
    case Nop => false
    case Block => false
    case Loop => false
    case Return => false
    case Drop => c.stack == [] && e == OutOfStack
    case End => c.labels != [] && |c.stack| < c.labels[|c.labels| - 1] && e == OutOfStack
    case Br(d) => d >= |c.labels| && e == OutOfBranch
    case BrIf(d) =>
      if d >= |c.labels| then e == OutOfBranch
      else if c.stack == [] then e == OutOfStack
      else c.stack[|c.stack| - 1] == I64 && e == TypeMismatch
    case BrTable(ds) =>
      if !Enclosed(c, ds) then e == OutOfBranch
      else if ds == [] then e == UnexpectedEof
      else if c.stack == [] then e == OutOfStack
      else c.stack[|c.stack| - 1] == I64 && e == TypeMismatch
    case Instr(p) =>
      if !Typable(env, p) then BadImmediate(env, p, e)
      else if forall s :: HasType(env, p, s) ==> |s.takes| > |c.stack| then e == OutOfStack
      else (forall s, base, after :: !Applies(env, p, s, base, c.stack, after)) && e == TypeMismatch
  }

  predicate ResultFault(env: Env, stack: seq<ValType>, e: Error) {
    !Results(env, stack) && e == if env.results == [] then InvalidStackLevel else TypeMismatch
  }

  /** The contexts lead to the first fault of the body. */
  ghost predicate FaultAt(env: Env, ops: seq<Op>, n: nat, cs: seq<Context>, e: Error) {
    && Derivation(env, ops, n, cs)
    && if n == |ops| then e == UnexpectedEof
       else Fault(env, ops[n], cs[n], e) || (FunctionEnd(ops[n], cs[n]) && ResultFault(env, cs[n].stack, e))
  }

  ghost predicate IllTyped(env: Env, ops: seq<Op>, e: Error) {
    exists n: nat, cs: seq<Context> :: FaultAt(env, ops, n, cs, e)
  }
}
