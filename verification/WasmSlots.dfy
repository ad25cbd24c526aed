/** Intermediate code and its interpreter `_interpret`: a flat code array, a value stack
    addressed by static slot numbers, and unchecked indexing. Every unchecked index is
    checked here, and a failed check is the outcome `Wrong`. */
module WasmSlots {
  import opened WasmInstr
  import opened WasmSource
  import M = WasmMemory
  import B = Bits

  datatype Mnemonic =
    | ImUnreachable
    | ImNop
    | BlockMark(block: nat)
    | EndMark(block: nat)
    | ImBr(target: nat)
    | ImBrIf(target: nat)
    | ImBrTable(targets: seq<nat>)
    | ImReturn
    | LocalGet32(local: nat)
    | LocalSet32(local: nat)
    | LocalTee32(local: nat)
    | Simple(plain: Plain)
    | FusedSetConst32(local: nat, imm32: U32)
    | FusedSetConst64(local: nat, imm64: Word)
    | FusedImm32(op: BinOp, imm32: U32)
    | FusedImm64(op: BinOp, imm64: Word)
    | FusedBrZ32(target: nat)
    | FusedBrZ64(target: nat)
    | FusedBrCompare(op: BinOp, target: nat)

  /** `WasmImc`, without the source position and opcode it keeps for error messages. */
  datatype Imc = Imc(mnemonic: Mnemonic, level: nat)

  datatype Machine = Machine(pc: nat, slots: seq<Word>, heap: Heap)

  function Next(m: Machine): Outcome<Machine> { Running(m.(pc := m.pc + 1)) }

  /** Fall through with slot `s` overwritten. */
  function Put(m: Machine, s: nat, w: Word): Outcome<Machine> {
    if s < |m.slots| then Next(m.(slots := m.slots[s := w])) else Wrong
  }

  function PutLocal(m: Machine, i: nat, w: Word): Outcome<Machine> {
    if i < |m.heap.locals| then Next(m.(heap := m.heap.(locals := m.heap.locals[i := w]))) else Wrong
  }

  function Jump(m: Machine, taken: bool, target: nat): Outcome<Machine> {
    if taken then Running(m.(pc := target)) else Next(m)
  }

  /** The arms of `_interpret` for the plain instructions, at base level `s`. */
  function Arm(env: Env, p: Plain, s: nat, m: Machine): Outcome<Machine> {
    var n := |m.slots|;
    match p
    case Const32(v) => Put(m, s, v)
    case Const64(v) => Put(m, s, v)
    case LocalGet(i) => if i < |m.heap.locals| then Put(m, s, m.heap.locals[i]) else Wrong
    case LocalSet(i) => if s < n then PutLocal(m, i, m.slots[s]) else Wrong
    case LocalTee(i) => if s < n then PutLocal(m, i, m.slots[s]) else Wrong
    case GlobalGet(i) => if i < |m.heap.globals| then Put(m, s, m.heap.globals[i]) else Wrong
    case GlobalSet(i) =>
      if i < |m.heap.globals| && s < n then
        Next(m.(heap := m.heap.(globals := m.heap.globals[i := GetI32(m.slots[s])])))
      else Wrong
    case Unary(op) => if s < n then Put(m, s, EvalUn(op, m.slots[s])) else Wrong
    case Binary(op) =>
      if s + 1 < n then
        var rhs := m.slots[s + 1];
        var lhs := m.slots[s];
        match EvalBin(op, lhs, rhs) {
        case Value(w) => Put(m, s, w)
        case DivZero => Trapped(DivideByZero, m.heap)
        }
      else Wrong
    case Select =>
      if s + 2 < n then
        if GetI32(m.slots[s + 2]) == 0 then Put(m, s, m.slots[s + 1]) else Next(m)
      else Wrong
    case Load(op, offset) =>
      if s < n then
        match M.Read(m.heap.mem, offset, GetI32(m.slots[s]), LoadWidth(op)) {
        case Ok(v) => Put(m, s, Loaded(op, v))
        case OutOfBounds => Trapped(OutOfBounds, m.heap)
        case Undefined => Wrong
        }
      else Wrong
    case Store(op, offset) =>
      if s + 1 < n then
        match M.Write(m.heap.mem, offset, GetI32(m.slots[s]), StoreWidth(op), m.slots[s + 1]) {
        case Ok(mem) => Next(m.(heap := m.heap.(mem := mem)))
        case OutOfBounds => Trapped(OutOfBounds, m.heap)
        case Undefined => Wrong
        }
      else Wrong
    case MemorySize => Put(m, s, Wrap32(|m.heap.mem| / M.PAGE_SIZE))
    case MemoryGrow =>
      if s < n then
        var (mem, pages) := M.Grow(m.heap.mem, Signed32(GetI32(m.slots[s])), env.memCapacity);
        Put(m.(heap := m.heap.(mem := mem)), s, Wrap32(pages))
      else Wrong
  }

  function Leave(env: Env, m: Machine, level: nat): Outcome<Machine> {
    if env.results == [] then Returned([], m.heap)
    else if level < |m.slots| then Returned([GetByType(env.results[0], m.slots[level])], m.heap)
    else Wrong
  }

  /** One turn of the fetch loop. Running off the end leaves with result level zero. */
  function StepSlots(env: Env, code: seq<Imc>, m: Machine): Outcome<Machine> {
    if m.pc >= |code| then Leave(env, m, 0)
    else
      var s, n := code[m.pc].level, |m.slots|;
      match code[m.pc].mnemonic
      case ImUnreachable => Trapped(UnreachableTrap, m.heap)
      case ImNop => Trapped(UnreachableTrap, m.heap)
      case BlockMark(_) => Trapped(UnreachableTrap, m.heap)
      case EndMark(_) => Trapped(UnreachableTrap, m.heap)
      case ImBr(t) => Running(m.(pc := t))
      case ImBrIf(t) => if s < n then Jump(m, GetI32(m.slots[s]) != 0, t) else Wrong
      case ImBrTable(ts) =>
        if s < n && ts != [] then
          var last := |ts| - 1;
          var i := GetI32(m.slots[s]);
          Running(m.(pc := ts[if last < i then last else i]))
        else Wrong
      case ImReturn => Leave(env, m, s)
      case LocalGet32(i) => Arm(env, LocalGet(i), s, m)
      case LocalSet32(i) => Arm(env, LocalSet(i), s, m)
      case LocalTee32(i) => Arm(env, LocalTee(i), s, m)
      case Simple(p) => Arm(env, p, s, m)
      case FusedSetConst32(i, v) => PutLocal(m, i, v)
      case FusedSetConst64(i, v) => PutLocal(m, i, v)
      case FusedImm32(op, v) => if s < n then Put(m, s, FusedArith32(op, GetI32(m.slots[s]), v)) else Wrong
      case FusedImm64(op, v) => if s < n then Put(m, s, FusedArith64(op, m.slots[s], v)) else Wrong
      case FusedBrZ32(t) => if s < n then Jump(m, GetI32(m.slots[s]) == 0, t) else Wrong
      case FusedBrZ64(t) => if s < n then Jump(m, m.slots[s] == 0, t) else Wrong
      case FusedBrCompare(op, t) =>
        if s + 1 < n && IsCompare(op) then Jump(m, EvalCompare(op, m.slots[s], m.slots[s + 1]), t) else Wrong
  }

  /** The fused immediate arms; the eight 32-bit operations that `generate` fuses. */
  function FusedArith32(op: BinOp, lhs: U32, val: U32): Word {
    AndBelowOr(lhs, val);
    match op
    case I32Add => Wrap32(lhs + val)
    case I32Sub => Wrap32(lhs - val)
    case I32And => Wrap32(B.BitAnd(lhs, val))
    case I32Or => Wrap32(B.BitOr(lhs, val))
    case I32Xor => Wrap32(Xor(lhs, val))
    case I32Shl => Wrap32(lhs * B.Pow2(val % 32))
    case I32ShrS => Wrap32(Signed32(lhs) / B.Pow2(val % 32))
    case I32ShrU => Wrap32(lhs / B.Pow2(val % 32))
    case _ => lhs
  }

  function FusedArith64(op: BinOp, lhs: Word, val: Word): Word {
    match op
    case I64Add => Wrap64(lhs + val)
    case I64Sub => Wrap64(lhs - val)
    case _ => lhs
  }

  function Boot(slotCount: nat, heap: Heap): Outcome<Machine> {
    Running(Machine(0, seq(slotCount, _ => 0), heap))
  }

  function RunSlots(env: Env, code: seq<Imc>, slotCount: nat, heap: Heap, n: nat): Outcome<Machine> {
    if n == 0 then Boot(slotCount, heap)
    else
      match RunSlots(env, code, slotCount, heap, n - 1)
      case Running(m) => StepSlots(env, code, m)
      case o => o
  }
}
