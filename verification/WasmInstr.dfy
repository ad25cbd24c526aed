/** Values, decoded instructions and the effect of the plain (non-control) instructions
    of the integer subset. A value-stack cell is one 64-bit word; 32-bit results leave the
    upper half zero (the source's union leaves it unspecified, and no i32 access reads it). */
module WasmInstr {
  import opened Bits
  import M = WasmMemory

  const TWO32: nat := 0x1_0000_0000
  const TWO64: nat := 0x1_0000_0000_0000_0000

  type U32 = x: nat | x < TWO32
  type Word = x: nat | x < TWO64

  datatype ValType = I32 | I64

  datatype Trap = UnreachableTrap | DivideByZero | OutOfBounds

  function Wrap32(x: int): U32 { x % TWO32 }

  function Wrap64(x: int): Word { x % TWO64 }

  function GetI32(w: Word): U32 { w % TWO32 }

  function Signed32(x: U32): int { if x < 0x8000_0000 then x else x - TWO32 }

  function Signed64(x: Word): int { if x < 0x8000_0000_0000_0000 then x else x - TWO64 }

  function OfBool(b: bool): Word { if b then 1 else 0 }

  function GetByType(t: ValType, w: Word): Word {
    match t case I32 => GetI32(w) case I64 => w
  }

  datatype UnOp = I32Eqz | I64Eqz | I32WrapI64 | I64ExtendI32S | I64ExtendI32U

  datatype BinOp =
    | I32Add | I32Sub | I32Mul | I32DivS | I32DivU | I32RemS | I32RemU
    | I32And | I32Or | I32Xor | I32Shl | I32ShrS | I32ShrU
    | I32Eq | I32Ne | I32LtS | I32LtU | I32GtS | I32GtU | I32LeS | I32LeU | I32GeS | I32GeU
    | I64Add | I64Sub | I64Mul | I64DivU | I64And | I64Or | I64Shl | I64ShrU
    | I64Eq | I64Ne | I64LtS | I64LtU

  datatype LoadOp =
    | I32Load | I32Load8S | I32Load8U | I32Load16S | I32Load16U
    | I64Load | I64Load8S | I64Load8U | I64Load32S | I64Load32U

  datatype StoreOp = I32Store | I32Store8 | I32Store16 | I64Store | I64Store8 | I64Store32

  datatype Plain =
    | Const32(imm32: U32)
    | Const64(imm64: Word)
    | LocalGet(local: nat)
    | LocalSet(local: nat)
    | LocalTee(local: nat)
    | GlobalGet(global: nat)
    | GlobalSet(global: nat)
    | Unary(un: UnOp)
    | Binary(bin: BinOp)
    | Select
    | Load(ld: LoadOp, offset: U32)
    | Store(st: StoreOp, offset: U32)
    | MemorySize
    | MemoryGrow

  datatype Op =
    | Unreachable | Nop | Drop
    | Block | Loop | End
    | Br(depth: nat) | BrIf(depth: nat) | BrTable(depths: seq<nat>)
    | Return
    | Instr(plain: Plain)

  /** What a function can change besides its operand stack. */
  datatype Heap = Heap(locals: seq<Word>, globals: seq<U32>, mem: seq<M.Byte>)

  /** Static surroundings of the function being compiled. Locals include the parameters. */
  datatype Env = Env(
    locals: seq<ValType>, globals: seq<bool>, results: seq<ValType>, hasMemory: bool, memCapacity: nat)

  function Xor(a: nat, b: nat): nat
    requires BitAnd(a, b) <= BitOr(a, b)
  {
    BitOr(a, b) - BitAnd(a, b)
  }

  lemma {:induction false} AndBelowOr(a: nat, b: nat)
    ensures BitAnd(a, b) <= BitOr(a, b)
    decreases a + b
  {
    if a + b > 0 { AndBelowOr(a / 2, b / 2); }
  }

  function EvalUn(op: UnOp, w: Word): Word {
    match op
    case I32Eqz => OfBool(GetI32(w) == 0)
    case I64Eqz => OfBool(w == 0)
    case I32WrapI64 => GetI32(w)
    case I64ExtendI32S => Wrap64(Signed32(GetI32(w)))
    case I64ExtendI32U => GetI32(w)
  }

  predicate IsCompare(op: BinOp) {
    op.I32Eq? || op.I32Ne? || op.I32LtS? || op.I32LtU? || op.I32GtS? || op.I32GtU? || op.I32LeS? || op.I32LeU?
    || op.I32GeS? || op.I32GeU? || op.I64Eq? || op.I64Ne? || op.I64LtS? || op.I64LtU?
  }

  function EvalCompare(op: BinOp, a: Word, b: Word): bool
    requires IsCompare(op)
  {
    var x, y := GetI32(a), GetI32(b);
    match op
    case I32Eq => x == y
    case I32Ne => x != y
    case I32LtS => Signed32(x) < Signed32(y)
    case I32LtU => x < y
    case I32GtS => Signed32(x) > Signed32(y)
    case I32GtU => x > y
    case I32LeS => Signed32(x) <= Signed32(y)
    case I32LeU => x <= y
    case I32GeS => Signed32(x) >= Signed32(y)
    case I32GeU => x >= y
    case I64Eq => a == b
    case I64Ne => a != b
    case I64LtS => Signed64(a) < Signed64(b)
    case I64LtU => a < b
  }

  datatype Value = Value(w: Word) | DivZero

  function Abs(u: int): nat { if u < 0 then -u else u }

  /** Division of signed numbers, truncating. */
  function Quot(u: int, v: int): int {
    if v == 0 then 0 else if (u < 0) == (v < 0) then Abs(u) / Abs(v) else -(Abs(u) / Abs(v))
  }

  /** Arithmetic; shift counts are taken modulo the width. */
  function EvalArith(op: BinOp, a: Word, b: Word): Value
    requires !IsCompare(op)
  {
    var x, y := GetI32(a), GetI32(b);
    AndBelowOr(x, y);
    match op
    case I32Add => Value(Wrap32(x + y))
    case I32Sub => Value(Wrap32(x - y))
    case I32Mul => Value(Wrap32(x * y))
    case I32DivS => if y == 0 then DivZero else Value(Wrap32(Quot(Signed32(x), Signed32(y))))
    case I32RemS =>
      if y == 0 then DivZero else Value(Wrap32(Signed32(x) - Quot(Signed32(x), Signed32(y)) * Signed32(y)))
    case I32DivU => if y == 0 then DivZero else Value(Wrap32(x / y))
    case I32RemU => if y == 0 then DivZero else Value(Wrap32(x % y))
    case I32And => Value(Wrap32(BitAnd(x, y)))
    case I32Or => Value(Wrap32(BitOr(x, y)))
    case I32Xor => Value(Wrap32(Xor(x, y)))
    case I32Shl => Value(Wrap32(x * Pow2(y % 32)))
    case I32ShrS => Value(Wrap32(Signed32(x) / Pow2(y % 32)))
    case I32ShrU => Value(Wrap32(x / Pow2(y % 32)))
    case I64Add => Value(Wrap64(a + b))
    case I64Sub => Value(Wrap64(a - b))
    case I64Mul => Value(Wrap64(a * b))
    case I64DivU => if b == 0 then DivZero else Value(Wrap64(a / b))
    case I64And => Value(Wrap64(BitAnd(a, b)))
    case I64Or => Value(Wrap64(BitOr(a, b)))
    case I64Shl => Value(Wrap64(a * Pow2(b % 64)))
    case I64ShrU => Value(Wrap64(a / Pow2(b % 64)))
  }

  function EvalBin(op: BinOp, a: Word, b: Word): Value {
    if IsCompare(op) then Value(OfBool(EvalCompare(op, a, b))) else EvalArith(op, a, b)
  }

  function OperandType(op: BinOp): ValType {
    if op.I64Add? || op.I64Sub? || op.I64Mul? || op.I64DivU? || op.I64And? || op.I64Or? || op.I64Shl?
       || op.I64ShrU? || op.I64Eq? || op.I64Ne? || op.I64LtS? || op.I64LtU? then I64 else I32
  }

  function LoadWidth(op: LoadOp): (n: nat)
    ensures 1 <= n <= 8
  {
    match op
    case I32Load8S => 1 case I32Load8U => 1 case I64Load8S => 1 case I64Load8U => 1
    case I32Load16S => 2 case I32Load16U => 2
    case I32Load => 4 case I64Load32S => 4 case I64Load32U => 4
    case I64Load => 8
  }

  function SignExtend(v: nat, bytes: nat): int {
    if v < Pow2(8 * bytes) / 2 then v else v - Pow2(8 * bytes)
  }

  /** The cell a load leaves, from the bytes it read. */
  function Loaded(op: LoadOp, v: nat): Word {
    match op
    case I32Load => Wrap32(v)
    case I32Load8U => Wrap32(v)
    case I32Load16U => Wrap32(v)
    case I32Load8S => Wrap32(SignExtend(v, 1))
    case I32Load16S => Wrap32(SignExtend(v, 2))
    case I64Load => Wrap64(v)
    case I64Load8U => Wrap64(v)
    case I64Load32U => Wrap64(v)
    case I64Load8S => Wrap64(SignExtend(v, 1))
    case I64Load32S => Wrap64(SignExtend(v, 4))
  }

  function LoadType(op: LoadOp): ValType {
    if op.I64Load? || op.I64Load8S? || op.I64Load8U? || op.I64Load32S? || op.I64Load32U? then I64 else I32
  }

  function StoreWidth(op: StoreOp): (n: nat)
    ensures 1 <= n <= 8
  {
    match op
    case I32Store8 => 1 case I64Store8 => 1
    case I32Store16 => 2
    case I32Store => 4 case I64Store32 => 4
    case I64Store => 8
  }

  // ---- operand-stack effect of the plain instructions ----

  function Pops(p: Plain): nat {
    match p
    case Const32(_) => 0 case Const64(_) => 0 case LocalGet(_) => 0 case GlobalGet(_) => 0 case MemorySize => 0
    case LocalSet(_) => 1 case LocalTee(_) => 1 case GlobalSet(_) => 1 case Unary(_) => 1 case Load(_, _) => 1
    case MemoryGrow => 1
    case Binary(_) => 2 case Store(_, _) => 2
    case Select => 3
  }

  function Pushes(p: Plain): nat {
    match p
    case LocalSet(_) => 0 case GlobalSet(_) => 0 case Store(_, _) => 0
    case _ => 1
  }

  /** Effect of a plain instruction on its operands, oldest first. `Stuck` is behaviour the
      source leaves undefined: an index outside locals or globals, or a wild memory access. */
  datatype Effect = Pushed(values: seq<Word>, heap: Heap) | Traps(trap: Trap) | Stuck

  function Exec(env: Env, p: Plain, args: seq<Word>, h: Heap): (e: Effect)
    requires |args| == Pops(p)
    ensures e.Pushed? ==> |e.values| == Pushes(p) && |e.heap.locals| == |h.locals|
                          && |e.heap.globals| == |h.globals| && |e.heap.mem| >= |h.mem|
  {
    match p
    case Const32(v) => Pushed([v], h)
    case Const64(v) => Pushed([v], h)
    case LocalGet(i) => if i < |h.locals| then Pushed([h.locals[i]], h) else Stuck
    case LocalSet(i) => if i < |h.locals| then Pushed([], h.(locals := h.locals[i := args[0]])) else Stuck
    case LocalTee(i) => if i < |h.locals| then Pushed([args[0]], h.(locals := h.locals[i := args[0]])) else Stuck
    case GlobalGet(i) => if i < |h.globals| then Pushed([h.globals[i]], h) else Stuck
    case GlobalSet(i) => if i < |h.globals| then Pushed([], h.(globals := h.globals[i := GetI32(args[0])])) else Stuck
    case Unary(op) => Pushed([EvalUn(op, args[0])], h)
    case Binary(op) => (
      match EvalBin(op, args[0], args[1])
      case Value(w) => Pushed([w], h)
      case DivZero => Traps(DivideByZero))
    case Select => Pushed([if GetI32(args[2]) != 0 then args[0] else args[1]], h)
    case Load(op, offset) => (
      match M.Read(h.mem, offset, GetI32(args[0]), LoadWidth(op))
      case Ok(v) => Pushed([Loaded(op, v)], h)
      case OutOfBounds => Traps(OutOfBounds)
      case Undefined => Stuck)
    case Store(op, offset) => (
      match M.Write(h.mem, offset, GetI32(args[0]), StoreWidth(op), args[1])
      case Ok(mem) => Pushed([], h.(mem := mem))
      case OutOfBounds => Traps(OutOfBounds)
      case Undefined => Stuck)
    case MemorySize => Pushed([Wrap32(|h.mem| / M.PAGE_SIZE)], h)
    case MemoryGrow =>
      var (mem, pages) := M.Grow(h.mem, Signed32(GetI32(args[0])), env.memCapacity);
      Pushed([Wrap32(pages)], h.(mem := mem))
  }
}
