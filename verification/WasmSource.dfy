/** The meaning of a function body: a structured stack machine with an operand stack and a
    stack of labels, in the manner of chapter 4 of the WebAssembly Core Specification 2.0.
    It knows nothing of slots, fusion or code positions. */
module WasmSource {
  import opened WasmInstr

  /** An entered block: the index of its opening instruction and the operand-stack height
      it was entered with. */
  datatype Label = Label(pos: nat, height: nat)

  datatype Frame = Frame(pc: nat, stack: seq<Word>, labels: seq<Label>, heap: Heap)

  /** `Wrong` is where the specification gives no meaning (an operand or label is missing)
      or the interpreter would leave its arrays. */
  datatype Outcome<S> =
    | Running(state: S)
    | Returned(result: seq<Word>, heap: Heap)
    | Trapped(trap: Trap, heap: Heap)
    | Wrong

  /** Index of the `end` that closes the innermost block open at `p`, given `depth` further
      blocks opened since; the length of the body if there is none. */
  function MatchEnd(ops: seq<Op>, p: nat, depth: nat): nat
    decreases |ops| - p
  {
    if p >= |ops| then |ops|
    else if ops[p].End? then if depth == 0 then p else MatchEnd(ops, p + 1, depth - 1)
    else if ops[p].Block? || ops[p].Loop? then MatchEnd(ops, p + 1, depth + 1)
    else MatchEnd(ops, p + 1, depth)
  }

  function Result(env: Env, stack: seq<Word>, heap: Heap): Outcome<Frame> {
    if env.results == [] then Returned([], heap)
    else if stack == [] then Wrong
    else Returned([GetByType(env.results[0], stack[|stack| - 1])], heap)
  }

  /** Branch to the label `depth` levels out, dropping the operands above its height. */
  function Branch(ops: seq<Op>, f: Frame, depth: nat): Outcome<Frame> {
    if depth >= |f.labels| then Wrong
    else
      var i := |f.labels| - 1 - depth;
      var l := f.labels[i];
      if |f.stack| < l.height || l.pos >= |ops| then Wrong
      else if ops[l.pos].Loop? then
        Running(f.(pc := l.pos + 1, stack := f.stack[..l.height], labels := f.labels[..i + 1]))
      else
        Running(f.(pc := MatchEnd(ops, l.pos + 1, 0) + 1, stack := f.stack[..l.height], labels := f.labels[..i]))
  }

  function Step(env: Env, ops: seq<Op>, f: Frame): Outcome<Frame> {
    if f.pc >= |ops| then Wrong
    else
      var n := |f.stack|;
      match ops[f.pc]
      case Unreachable => Trapped(UnreachableTrap, f.heap)
      case Nop => Running(f.(pc := f.pc + 1))
      case Drop => if n == 0 then Wrong else Running(f.(pc := f.pc + 1, stack := f.stack[..n - 1]))
      case Block => Running(f.(pc := f.pc + 1, labels := f.labels + [Label(f.pc, n)]))
      case Loop => Running(f.(pc := f.pc + 1, labels := f.labels + [Label(f.pc, n)]))
      case End =>
        if f.labels == [] then Result(env, f.stack, f.heap)
        else
          var l := f.labels[|f.labels| - 1];
          if n < l.height then Wrong
          else Running(f.(pc := f.pc + 1, stack := f.stack[..l.height], labels := f.labels[..|f.labels| - 1]))
      case Br(d) => Branch(ops, f, d)
      case BrIf(d) =>
        if n == 0 then Wrong
        else
          var g := f.(stack := f.stack[..n - 1]);
          if GetI32(f.stack[n - 1]) != 0 then Branch(ops, g, d) else Running(g.(pc := f.pc + 1))
      case BrTable(ds) =>
        if n == 0 || ds == [] then Wrong
        else
          var i := GetI32(f.stack[n - 1]);
          Branch(ops, f.(stack := f.stack[..n - 1]), ds[if i < |ds| then i else |ds| - 1])
      case Return => Result(env, f.stack, f.heap)
      case Instr(p) =>
        if n < Pops(p) then Wrong
        else
          match Exec(env, p, f.stack[n - Pops(p)..], f.heap)
          case Pushed(vs, h) =>
            Running(f.(pc := f.pc + 1, stack := f.stack[..n - Pops(p)] + vs, heap := h))
          case Traps(t) => Trapped(t, f.heap)
          case Stuck => Wrong
  }

  function Start(heap: Heap): Outcome<Frame> { Running(Frame(0, [], [], heap)) }

  /** The outcome after `n` instructions. */
  function Run(env: Env, ops: seq<Op>, heap: Heap, n: nat): Outcome<Frame> {
    if n == 0 then Start(heap)
    else
      match Run(env, ops, heap, n - 1)
      case Running(f) => Step(env, ops, f)
      case o => o
  }
}
