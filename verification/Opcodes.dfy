// Opcodes and instruction fields of simulator/inst.h.
module Opcodes {
  import opened Bits

  const OPC_NOP := 0x00
  const OPC_LD := 0x01
  const OPC_ST := 0x02
  const OPC_LB := 0x03
  const OPC_LBU := 0x04
  const OPC_SB := 0x05
  const OPC_LH := 0x06
  const OPC_LHU := 0x07
  const OPC_SH := 0x08
  const OPC_ADDIU := 0x09
  const OPC_MOVZ := 0x0A
  const OPC_MOVN := 0x0B
  const OPC_ANDI := 0x0C
  const OPC_ORI := 0x0D
  const OPC_XORI := 0x0E
  const OPC_LUI := 0x0F
  const OPC_CMP := 0x10
  const OPC_ADDU := 0x11
  const OPC_SUBU := 0x12
  const OPC_ADD := 0x13
  const OPC_SUB := 0x14
  const OPC_CLZ := 0x15
  const OPC_CLO := 0x16
  const OPC_MUL := 0x17
  const OPC_AND := 0x18
  const OPC_OR := 0x19
  const OPC_XOR := 0x1A
  const OPC_ROLI := 0x1B
  const OPC_RORI := 0x1C
  const OPC_SRA := 0x1D
  const OPC_SHL := 0x1E
  const OPC_SHR := 0x1F
  const OPC_SRAV := 0x20
  const OPC_SHLV := 0x21
  const OPC_SHRV := 0x22
  const OPC_ROL := 0x23
  const OPC_ROR := 0x24
  const OPC_SLTI := 0x26
  const OPC_SLTIU := 0x27
  const OPC_SLT := 0x28
  const OPC_SLTU := 0x29
  const OPC_JEQ := 0x30
  const OPC_JNE := 0x31
  const OPC_JLT := 0x32
  const OPC_JGT := 0x33
  const OPC_JLE := 0x34
  const OPC_JGE := 0x35
  const OPC_JMP := 0x36
  const OPC_BEQ := 0x37
  const OPC_BNE := 0x38
  const OPC_JALR := 0x39
  const OPC_BAL := 0x3A
  const OPC_JSUB := 0x3B
  const OPC_JR_RET := 0x3C
  const OPC_MULT := 0x41
  const OPC_MULTU := 0x42
  const OPC_DIV := 0x43
  const OPC_DIVU := 0x44
  const OPC_MFHI := 0x46
  const OPC_MFLO := 0x47
  const OPC_MTHI := 0x48
  const OPC_MTLO := 0x49
  const OPC_MFC0 := 0x50
  const OPC_MTC0 := 0x51
  const OPC_C0MOV := 0x52
  const OPC_SSC := 0x53

  function Opc(inst: u32): nat { inst / 0x100_0000 }

  function Ra(inst: u32): (i: nat)
    ensures i < 16
  {
    inst / 0x10_0000 % 16
  }

  function Rb(inst: u32): (i: nat)
    ensures i < 16
  {
    inst / 0x1_0000 % 16
  }

  function Rc(inst: u32): (i: nat)
    ensures i < 16
  {
    inst / 0x1000 % 16
  }

  // The constant fields.
  function Cx12(inst: u32): u32 { inst % 0x1000 }

  function Cx16(inst: u32): u32 { inst % 0x1_0000 }

  function Cx24(inst: u32): u32 { inst % 0x100_0000 }

  // The sign-extended constants.
  function C16(inst: u32): int {
    if Cx16(inst) < 0x8000 then Cx16(inst) else Cx16(inst) - 0x1_0000
  }

  function C24(inst: u32): int {
    if Cx24(inst) < 0x80_0000 then Cx24(inst) else Cx24(inst) - 0x100_0000
  }

  // The fields are what the shifts and masks of the macros extract.
  lemma FieldsAreMasks(inst: u32)
    ensures Opc(inst) == Shr(inst, 24)
    ensures Ra(inst) == And(Shr(inst, 20), 0xF)
    ensures Rb(inst) == And(Shr(inst, 16), 0xF)
    ensures Rc(inst) == And(Shr(inst, 12), 0xF)
    ensures Cx12(inst) == And(inst, 0xFFF)
    ensures Cx16(inst) == And(inst, 0xFFFF)
    ensures Cx24(inst) == And(inst, 0xFF_FFFF)
  {
    FieldPowers();
    hide Pow2, And;
    LowMask(Shr(inst, 20), 4);
    LowMask(Shr(inst, 16), 4);
    LowMask(Shr(inst, 12), 4);
    LowMask(inst, 12);
    LowMask(inst, 16);
    LowMask(inst, 24);
  }

  lemma FieldPowers()
    ensures Pow2(4) == 0x10 && Pow2(12) == 0x1000 && Pow2(16) == 0x1_0000
    ensures Pow2(20) == 0x10_0000 && Pow2(24) == 0x100_0000
  {
    assert Pow2(4) == 0x10;
    Pow2Add(4, 4);
    Pow2Add(4, 8);
    Pow2Add(8, 8);
    Pow2Add(4, 16);
    Pow2Add(8, 16);
  }

  // Sign extension: or-ing ones above the field where its top bit is set.
  lemma SignExtension(inst: u32)
    ensures C16(inst) % W32 == if Cx16(inst) >= 0x8000 then OrWord(Cx16(inst), 0xFFFF_0000) else Cx16(inst)
    ensures C24(inst) % W32 == if Cx24(inst) >= 0x80_0000 then OrWord(Cx24(inst), 0xFF00_0000) else Cx24(inst)
  {
    FieldPowers();
    hide Pow2, Or;
    OrCommutes(Cx16(inst), 0xFFFF_0000);
    OrDisjoint(0xFFFF, Cx16(inst), 16);
    OrCommutes(Cx24(inst), 0xFF00_0000);
    OrDisjoint(0xFF, Cx24(inst), 24);
  }
}
