/**
 The few A32 instructions found in symbol stubs and trampolines, with the meaning given by the Arm
 Architecture Reference Manual (ARM DDI 0406C): LDR (literal) A8.8.64, LDR (immediate) A8.8.63,
 ADD (register) A8.8.7, BX A8.8.27, SVC A8.8.228. Reading PC yields the instruction's address + 8.
 */
module ArmCode {
  import opened BitFields
  import opened GuestMemory

  const IP := 12
  const LR := 14
  const PC := 15

  datatype Instruction =
    | Svc(imm: nat)
    | BranchToLr
    | LoadLiteral(rt: nat, offset: nat)
    | LoadImmediate(rt: nat, rn: nat, offset: nat)
    | AddRegister(rd: nat, rn: nat, rm: nat)
    | Other

  type Registers = r: seq<word> | |r| == 16 witness seq(16, _ => 0)

  function Decode(w: word): (i: Instruction)
    ensures i.LoadLiteral? ==> i.rt < 16
    ensures i.LoadImmediate? ==> i.rt < 16 && i.rn < 15
    ensures i.AddRegister? ==> i.rd < 15 && i.rn < 16 && i.rm < 16
  {
    if w / 0x100_0000 == 0xEF then Svc(w % 0x100_0000)
    else if w == 0xE12F_FF1E then BranchToLr
    else if w / 0x1_0000 == 0xE59F then LoadLiteral(w / 0x1000 % 16, w % 0x1000)
    else if w / 0x10_0000 == 0xE59 then LoadImmediate(w / 0x1000 % 16, w / 0x1_0000 % 16, w % 0x1000)
    else if w / 0x10_0000 == 0xE08 && w / 0x10 % 0x100 == 0 && w / 0x1000 % 16 != PC
    then AddRegister(w / 0x1000 % 16, w / 0x1_0000 % 16, w % 16)
    else Other
  }

  /** Where straight-line execution ends up: a jump, a supervisor call, or neither. */
  datatype Outcome = Jump(target: word) | Trap(svc: nat, pc: nat) | Stopped

  function Operand(regs: Registers, r: nat, pc: nat): word
    requires r < 16
  {
    if r == PC then (pc + 8) % ADDRESS_SPACE else regs[r]
  }

  /** Executes at most `n` instructions from `pc`. */
  function Execute(m: Memory, pc: nat, regs: Registers, n: nat): Outcome
    decreases n
  {
    if n == 0 then Stopped else
      match Decode(m.Read(pc))
      case Svc(imm) => Trap(imm, pc)
      case BranchToLr => Jump(regs[LR])
      case LoadLiteral(rt, offset) =>
        var v := m.Read((pc + 8 + offset) % ADDRESS_SPACE);
        if rt == PC then Jump(v) else Execute(m, pc + 4, regs[rt := v], n - 1)
      case LoadImmediate(rt, rn, offset) =>
        var v := m.Read((regs[rn] + offset) % ADDRESS_SPACE);
        if rt == PC then Jump(v) else Execute(m, pc + 4, regs[rt := v], n - 1)
      case AddRegister(rd, rn, rm) =>
        Execute(m, pc + 4, regs[rd := (Operand(regs, rn, pc) + Operand(regs, rm, pc)) % ADDRESS_SPACE], n - 1)
      case Other => Stopped
  }

  // ---------- Encoding ----------

  /** Or-ing the immediate into the opcode, which `EncodeSvcIsOr` shows to be this sum. */
  function EncodeSvc(imm: nat): word
    requires imm < 0x100_0000
  {
    0xEF00_0000 + imm
  }

  lemma EncodeSvcIsOr(imm: nat)
    requires imm < 0x100_0000
    ensures EncodeSvc(imm) == BitOr(0xEF00_0000, imm)
  {
    PowersUsed();
    BitOrClearField(0xEF, imm, 24);
  }

  const RETURN_WORD: word := 0xE12F_FF1E
  const TRAP_WORD: word := 0xE7FF_DEFE

  /** Decoding undoes encoding, and nothing else decodes to the same supervisor call. */
  lemma SvcRoundTrip(imm: nat, w: word)
    requires imm < 0x100_0000
    ensures Decode(w) == Svc(imm) <==> w == EncodeSvc(imm)
  {
  }
}
