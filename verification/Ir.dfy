/** Straight-line code of one basic block: values, and what running instructions does to registers, memory and the call trace. */
module Ir {
  import opened Words
  import opened Bytes

  /** An operand or instruction with the operands it names; instructions are told apart by id. */
  datatype Value =
    | CallInst(id: nat, callee: string, args: seq<Value>)
    | AllocaInst(id: nat)
    | BitCastInst(id: nat, from: Value)
    | GepInst(id: nat, base: Value, indices: seq<Value>)
    | LoadInst(id: nat, ptr: Value, width: nat)
    | StoreInst(id: nat, val: Value, ptr: Value, width: nat)
    | BinaryInst(id: nat, opcode: nat, lhs: Value, rhs: Value)
    | PhiInst(id: nat)
    | OtherInst(id: nat, opcode: nat, args: seq<Value>)
    | GlobalVar(name: string)
    | BitCastExpr(from: Value)
    | IntToPtrExpr(address: Word)
    | Constant(word: Word)

  predicate IsInst(v: Value) {
    !(v.GlobalVar? || v.BitCastExpr? || v.IntToPtrExpr? || v.Constant?)
  }

  function Operands(v: Value): seq<Value> {
    match v
    case CallInst(_, _, args) => args
    case BitCastInst(_, from) => [from]
    case GepInst(_, base, indices) => [base] + indices
    case LoadInst(_, ptr, _) => [ptr]
    case StoreInst(_, val, ptr, _) => [val, ptr]
    case BinaryInst(_, _, lhs, rhs) => [lhs, rhs]
    case OtherInst(_, _, args) => args
    case BitCastExpr(from) => [from]
    case _ => []
  }

  predicate IsAccess(v: Value) { v.LoadInst? || v.StoreInst? }

  predicate IsMallocCall(v: Value) { v.CallInst? && v.callee == "malloc" }

  predicate IsFreeCall(v: Value) { v.CallInst? && v.callee == "free" }

  predicate IsAllocaByteCall(v: Value) { v.CallInst? && v.callee == "__alloca_bytes__" }

  predicate IsAllocation(v: Value) { IsMallocCall(v) || IsFreeCall(v) || IsAllocaByteCall(v) }

  /** Pointer v is o, or o after casts and address arithmetic. */
  predicate DerivedFrom(v: Value, o: Value) {
    v == o || (v.BitCastInst? && DerivedFrom(v.from, o)) || (v.GepInst? && DerivedFrom(v.base, o))
  }

  /** What is left of a pointer without casts and address arithmetic. */
  function Root(v: Value): Value {
    match v
    case BitCastInst(_, from) => Root(from)
    case GepInst(_, base, _) => Root(base)
    case BitCastExpr(from) => Root(from)
    case _ => v
  }

  /** A global variable, possibly cast by a constant expression. */
  predicate IsGlobalPointer(v: Value) { v.GlobalVar? || (v.BitCastExpr? && IsGlobalPointer(v.from)) }

  predicate IsStackObject(o: Value) { o.AllocaInst? || IsAllocaByteCall(o) }

  /** What the passes know of the memory a value points into, or of the memory an instruction touches. */
  datatype AllocType = Stack | Heap | Unknown | Call | NoEffect

  /** Positions in block order. */
  ghost predicate Increasing(s: seq<nat>) { forall a, b :: 0 <= a < b < |s| ==> s[a] < s[b] }

  // ---- running ----

  type Bytemap = map<nat, Byte>

  datatype Event = Event(callee: string, args: seq<Word>)

  /** Memory bytes, the size of the live block at each address malloc has returned, the stack pointer, the calls so far. */
  datatype World = World(mem: Bytemap, blocks: map<nat, nat>, sp: Word, trace: seq<Event>)

  datatype CallResult = CallResult(value: Word, world: World)

  /** What the instructions whose working does not matter here compute, None being a trap; where malloc puts a block of
      some size beside the live ones; and which bytes belong to stack objects. */
  datatype Meaning = Meaning(
    constant: Value -> Word,
    pure: (Value, seq<Word>) -> Option<Word>,
    call: (Value, seq<Word>, World) -> Option<CallResult>,
    place: (map<nat, nat>, Word) -> Option<Word>,
    stackByte: nat -> bool)

  datatype State = State(regs: map<nat, Word>, world: World)

  /** The word an operand stands for; a register that was never written reads as 0. */
  function ValueOf(m: Meaning, regs: map<nat, Word>, v: Value): Word {
    if !IsInst(v) then m.constant(v) else if v.id in regs then regs[v.id] else 0
  }

  function ValuesOf(m: Meaning, regs: map<nat, Word>, vs: seq<Value>): (ws: seq<Word>)
    ensures |ws| == |vs| && forall i :: 0 <= i < |vs| ==> ws[i] == ValueOf(m, regs, vs[i])
  {
    seq(|vs|, i requires 0 <= i < |vs| => ValueOf(m, regs, vs[i]))
  }

  function Inputs(m: Meaning, regs: map<nat, Word>, v: Value): seq<Word> { ValuesOf(m, regs, Operands(v)) }

  predicate Accessible(mem: Bytemap, addr: nat, n: nat) { forall i :: addr <= i < addr + n ==> i in mem }

  function ReadBytes(mem: Bytemap, addr: nat, n: nat): (bs: seq<Byte>)
    requires Accessible(mem, addr, n)
  {
    seq(n, i requires 0 <= i < n => mem[addr + i])
  }

  function WriteBytes(mem: Bytemap, addr: nat, bs: seq<Byte>): Bytemap {
    map i | i in mem :: if addr <= i < addr + |bs| then bs[i - addr] else mem[i]
  }

  function Span(addr: nat, n: nat): (r: set<nat>)
    ensures forall i :: i in r <==> addr <= i < addr + n
  {
    if n == 0 then {} else Span(addr, n - 1) + {addr + n - 1}
  }

  /** Zero bytes at addr .. addr + n. */
  function WithZeros(mem: Bytemap, addr: nat, n: nat): Bytemap {
    map i | i in mem.Keys + Span(addr, n) :: if addr <= i < addr + n then 0 else mem[i]
  }

  function Without(mem: Bytemap, addr: nat, n: nat): Bytemap {
    map i | i in mem && !(addr <= i < addr + n) :: mem[i]
  }

  /** What an instruction does with its operand values: a result (stores and frees have none) and the new world. */
  datatype Effect = Effect(result: Option<Word>, world: World)

  function MallocPlace(m: Meaning, ws: seq<Word>, blocks: map<nat, nat>): Option<Word> {
    if |ws| == 1 && ws[0] > 0 && ws[0] % 8 == 0 then m.place(blocks, ws[0]) else None
  }

  function MallocEffect(m: Meaning, ws: seq<Word>, w: World): Option<Effect> {
    match MallocPlace(m, ws, w.blocks)
    case None => None
    case Some(a) => Some(Effect(Some(a), w.(mem := WithZeros(w.mem, a, ws[0]), blocks := w.blocks[a := ws[0]])))
  }

  function FreeEffect(ws: seq<Word>, w: World): Option<Effect> {
    if |ws| == 1 && ws[0] in w.blocks
    then Some(Effect(None, w.(mem := Without(w.mem, ws[0], w.blocks[ws[0]]), blocks := w.blocks - {ws[0]})))
    else None
  }

  /** malloc adds a live block of zero bytes where the placement puts it, free takes a live block with its bytes away. */
  lemma BlocksComeAndGo(m: Meaning, ws: seq<Word>, w: World)
    ensures MallocEffect(m, ws, w).Some? ==>
              var a, r := MallocEffect(m, ws, w).value.result, MallocEffect(m, ws, w).value.world;
              && |ws| == 1 && ws[0] != 0 && ws[0] % 8 == 0 && a == m.place(w.blocks, ws[0]) && a.Some?
              && (forall i :: a.value <= i < a.value + ws[0] ==> i in r.mem && r.mem[i] == 0)
              && (forall i :: !(a.value <= i < a.value + ws[0]) ==> (i in r.mem <==> i in w.mem) && (i in r.mem ==> r.mem[i] == w.mem[i]))
              && r.blocks == w.blocks[a.value := ws[0]] && r.sp == w.sp && r.trace == w.trace
    ensures FreeEffect(ws, w).Some? <==> |ws| == 1 && ws[0] in w.blocks
    ensures FreeEffect(ws, w).Some? ==>
              var n, r := w.blocks[ws[0]], FreeEffect(ws, w).value.world;
              && (forall i :: i in r.mem <==> i in w.mem && !(ws[0] <= i < ws[0] + n))
              && (forall i :: i in r.mem ==> r.mem[i] == w.mem[i])
              && r.blocks == w.blocks - {ws[0]} && r.sp == w.sp && r.trace == w.trace
  {
  }

  /** __alloca_bytes__ moves the stack pointer down and returns it. */
  function AllocaBytesEffect(ws: seq<Word>, w: World): Option<Effect> {
    if ws == [] then None
    else
      var sp := Wrap((w.sp as int) - (ws[0] as int));
      Some(Effect(Some(sp), w.(sp := sp)))
  }

  function CallEffect(m: Meaning, v: Value, ws: seq<Word>, w: World): Option<Effect> {
    if IsMallocCall(v) then MallocEffect(m, ws, w)
    else if IsFreeCall(v) then FreeEffect(ws, w)
    else if IsAllocaByteCall(v) then AllocaBytesEffect(ws, w)
    else
      match m.call(v, ws, w)
      case None => None
      case Some(r) => Some(Effect(Some(r.value), r.world))
  }

  function EffectOf(m: Meaning, v: Value, ws: seq<Word>, w: World): Option<Effect>
    requires |ws| == |Operands(v)|
  {
    match v
    case LoadInst(_, _, n) =>
      if Accessible(w.mem, ws[0], n) then Some(Effect(Some(Wrap(Number(ReadBytes(w.mem, ws[0], n)))), w)) else None
    case StoreInst(_, _, _, n) =>
      if Accessible(w.mem, ws[1], n) then Some(Effect(None, w.(mem := WriteBytes(w.mem, ws[1], LowBytes(n, ws[0]))))) else None
    case CallInst(_, _, _) => CallEffect(m, v, ws, w)
    case _ =>
      match m.pure(v, ws)
      case None => None
      case Some(x) => Some(Effect(Some(x), w))
  }

  function SetResult(regs: map<nat, Word>, id: nat, result: Option<Word>): map<nat, Word> {
    if result.Some? then regs[id := result.value] else regs
  }

  function Step(m: Meaning, v: Value, s: State): Option<State>
    requires IsInst(v)
  {
    match EffectOf(m, v, Inputs(m, s.regs, v), s.world)
    case None => None
    case Some(e) => Some(State(SetResult(s.regs, v.id, e.result), e.world))
  }

  predicate AllInsts(vs: seq<Value>) { forall i :: 0 <= i < |vs| ==> IsInst(vs[i]) }

  function Run(m: Meaning, vs: seq<Value>, s: State): Option<State>
    requires AllInsts(vs)
  {
    if vs == [] then Some(s)
    else match Step(m, vs[0], s)
      case None => None
      case Some(s') => Run(m, vs[1..], s')
  }

  /** The address a load or store with these operand values touches. */
  function AddressOf(v: Value, ws: seq<Word>): Word
    requires IsAccess(v) && |ws| == |Operands(v)|
  {
    if v.LoadInst? then ws[0] else ws[1]
  }
}
