/** A small AArch64 machine: the instructions that prologs and epilogs are made of, with the stack
    alignment rules of section 6.4.5 of AAPCS64 as faults. */
module A64Machine {
  import opened A64Frame

  datatype Vector = Vector(lo: int, hi: int)

  /** Registers, the stack pointer, the program counter, and memory by doublewords. */
  datatype State = State(x: seq<int>, v: seq<Vector>, sp: int, pc: int, mem: map<int, int>)
  {
    predicate Valid() { |x| == 31 && |v| == 32 }
  }

  datatype Mode = Fixed | PreIndex | PostIndex

  /** Loads and stores of one or two registers (the second id may be `BAD`) relative to the stack
      pointer, and the other instructions of prologs and epilogs. */
  datatype Inst =
    | Store(group: Group, id0: nat, id1: nat, offset: int, mode: Mode)
    | Load(group: Group, id0: nat, id1: nat, offset: int, mode: Mode)
    | MoveSpToFp
    | SubSp(imm: nat)
    | AddSp(imm: nat)
    | Ret

  datatype Outcome = Running(state: State) | Fault

  function Read(mem: map<int, int>, a: int): int {
    if a in mem then mem[a] else 0
  }

  predicate IsRegister(group: Group, id: nat) {
    if group.Gp? then id < 31 else id < 32
  }

  /** The doubleword that a store takes from a register; of a vector register, the low half. */
  function RegisterWord(s: State, group: Group, id: nat): int
    requires s.Valid() && IsRegister(group, id)
  {
    if group.Gp? then s.x[id] else s.v[id].lo
  }

  /** The effect of loading a doubleword; it clears the high half of a vector register. */
  function SetRegister(s: State, group: Group, id: nat, w: int): (r: State)
    requires s.Valid() && IsRegister(group, id)
  {
    if group.Gp? then s.(x := s.x[id := w]) else s.(v := s.v[id := Vector(w, 0)])
  }

  /** A load or store faults when the stack pointer is misaligned before or after it, when the
      address is misaligned, when it lies below the stack pointer, or for a bad register. */
  predicate AccessOk(s: State, group: Group, id0: nat, id1: nat, offset: int, mode: Mode) {
    && IsRegister(group, id0) && (id1 == BAD || IsRegister(group, id1))
    && s.sp % 16 == 0 && NewSp(s, offset, mode) % 16 == 0
    && Address(s, offset, mode) % 8 == 0
    && Address(s, offset, mode) >= if mode == PreIndex then NewSp(s, offset, mode) else s.sp
  }

  function NewSp(s: State, offset: int, mode: Mode): int {
    if mode == Fixed then s.sp else s.sp + offset
  }

  function Address(s: State, offset: int, mode: Mode): int {
    if mode == PostIndex then s.sp else s.sp + offset
  }

  function Step(s: State, i: Inst): (r: Outcome)
    requires s.Valid()
    ensures r.Running? ==> r.state.Valid()
  {
    match i
    case Store(group, id0, id1, offset, mode) =>
      if !AccessOk(s, group, id0, id1, offset, mode) then Fault
      else
        var a := Address(s, offset, mode);
        var m := s.mem[a := RegisterWord(s, group, id0)];
        var m' := if id1 == BAD then m else m[a + 8 := RegisterWord(s, group, id1)];
        Running(s.(sp := NewSp(s, offset, mode), mem := m'))
    case Load(group, id0, id1, offset, mode) =>
      if !AccessOk(s, group, id0, id1, offset, mode) then Fault
      else
        var a := Address(s, offset, mode);
        var t := SetRegister(s, group, id0, Read(s.mem, a));
        var t' := if id1 == BAD then t else SetRegister(t, group, id1, Read(s.mem, a + 8));
        Running(t'.(sp := NewSp(s, offset, mode)))
    case MoveSpToFp => Running(s.(x := s.x[FP := s.sp]))
    case SubSp(imm) => if (s.sp - imm) % 16 != 0 then Fault else Running(s.(sp := s.sp - imm))
    case AddSp(imm) => if (s.sp + imm) % 16 != 0 then Fault else Running(s.(sp := s.sp + imm))
    case Ret => Running(s.(pc := s.x[LR]))
  }

  function Run(code: seq<Inst>, s: State): (r: Outcome)
    requires s.Valid()
    ensures r.Running? ==> r.state.Valid()
  {
    if code == [] then Running(s)
    else
      var r := Step(s, code[0]);
      if r.Fault? then Fault else Run(code[1..], r.state)
  }

  lemma {:induction false} RunAppend(a: seq<Inst>, b: seq<Inst>, s: State)
    requires s.Valid()
    ensures Run(a + b, s) == (if Run(a, s).Fault? then Fault else Run(b, Run(a, s).state))
  {
    if a == [] {
      assert a + b == b;
    } else {
      assert (a + b)[0] == a[0] && (a + b)[1..] == a[1..] + b;
      if Step(s, a[0]).Running? { RunAppend(a[1..], b, Step(s, a[0]).state); }
    }
  }

  lemma {:induction false} RunOne(i: Inst, s: State)
    requires s.Valid()
    ensures Run([i], s) == Step(s, i)
  {
    assert [i][1..] == [];
  }

  // --- What the assembler can encode ---

  /** The immediates of the instructions: a scaled signed 7-bit offset for pairs, a signed 9-bit
      offset with writeback and a scaled unsigned 12-bit or signed 9-bit one without for single
      registers, and a 12-bit immediate, possibly shifted by 12, for additions. */
  predicate Encodable(i: Inst) {
    match i
    case Store(group, id0, id1, offset, mode) => EncodableAccess(group, id0, id1, offset, mode)
    case Load(group, id0, id1, offset, mode) => EncodableAccess(group, id0, id1, offset, mode)
    case SubSp(imm) => EncodableImmediate(imm)
    case AddSp(imm) => EncodableImmediate(imm)
    case MoveSpToFp => true
    case Ret => true
  }

  predicate EncodableAccess(group: Group, id0: nat, id1: nat, offset: int, mode: Mode) {
    && IsRegister(group, id0)
    && if id1 != BAD then IsRegister(group, id1) && offset % 8 == 0 && -64 <= offset / 8 < 64
       else if mode != Fixed then -256 <= offset < 256
       else (offset % 8 == 0 && 0 <= offset / 8 < 4096) || -256 <= offset < 256
  }

  predicate EncodableImmediate(imm: nat) {
    imm <= 0xFFF || (imm % 0x1000 == 0 && imm <= 0xFFF000)
  }
}
