// The switch of run_loop in simulator/cpu.c as a function: what one instruction makes of the
// registers and of VM memory.
module CpuStep {
  import opened Arith
  import opened Options
  import opened Bits
  import opened Bytes
  import opened Shifts
  import opened Opcodes
  import opened Status

  // The sixteen general registers; r13 is SP, r14 is LR, r15 is the status word SW.
  type Core = s: seq<u32> | |s| == 16 witness [0, 0, 0, 0, 0, 0, 0, 0, 0, 0, 0, 0, 0, 0, 0, 0]

  // PC, EPC, HI and LO.
  type Cop = s: seq<u32> | |s| == 4 witness [0, 0, 0, 0]

  datatype State = State(regs: Core, cp: Cop, mem: seq<Byte>)

  // What an instruction takes from outside the machine: the outcome of an operation the language
  // leaves open, the result of an API call, and what the call writes to memory.
  datatype Env = Env(v: u32, hi: u32, lo: u32, mem: seq<Byte>)

  // ---- Memory ----

  // The address a load or store names, as an offset from the start of memory.
  function Operand(inst: u32, r: Core): int { Signed(r[Rb(inst)]) + C16(inst) }

  // How many bytes an instruction loads or stores.
  function Width(op: nat): (w: nat)
    ensures w <= 4
  {
    if op == OPC_LD || op == OPC_ST then 4
    else if op == OPC_LH || op == OPC_LHU || op == OPC_SH then 2
    else if op == OPC_LB || op == OPC_LBU || op == OPC_SB then 1
    else 0
  }

  // A load or store stays inside memory.
  predicate InMemory(s: State, inst: u32) {
    Width(Opc(inst)) > 0 ==> 0 <= Operand(inst, s.regs) && Operand(inst, s.regs) + Width(Opc(inst)) <= |s.mem|
  }

  function WordAt(m: seq<Byte>, a: nat): u32
    requires a + 4 <= |m|
  {
    WordOf(m[a], m[a + 1], m[a + 2], m[a + 3])
  }

  function HalfAt(m: seq<Byte>, a: nat): nat
    requires a + 2 <= |m|
  {
    var l: nat, h: nat := m[a], m[a + 1];
    l + 0x100 * h
  }

  // A value of 8 or 16 bits, sign-extended; m is half its range.
  function SignExtend(x: nat, m: nat): int {
    if x < m then x else x - 2 * m
  }

  function Loaded(op: nat, m: seq<Byte>, a: nat): u32
    requires a + Width(op) <= |m|
  {
    if op == OPC_LD then WordAt(m, a)
    else if op == OPC_LB then Wrap(SignExtend(m[a], 0x80))
    else if op == OPC_LBU then m[a]
    else if op == OPC_LH then Wrap(SignExtend(HalfAt(m, a), 0x8000))
    else if op == OPC_LHU then HalfAt(m, a)
    else 0
  }

  function Stored(op: nat, v: u32): (bs: seq<Byte>)
    ensures op == OPC_ST || op == OPC_SB || op == OPC_SH ==> |bs| == Width(op)
  {
    if op == OPC_ST then BytesOf(v)
    else if op == OPC_SB then BytesOf(v)[..1]
    else if op == OPC_SH then BytesOf(v)[..2]
    else []
  }

  function Overwrite(m: seq<Byte>, a: nat, bs: seq<Byte>): (n: seq<Byte>)
    requires a + |bs| <= |m|
    ensures |n| == |m|
  {
    m[..a] + bs + m[a + |bs|..]
  }

  // An API call may write any bytes of memory: w gives the new contents, as far as it goes.
  function ApiWrites(m: seq<Byte>, w: seq<Byte>): (n: seq<Byte>)
    ensures |n| == |m|
  {
    if |w| <= |m| then Overwrite(m, 0, w) else w[..|m|]
  }

  function MemAfter(s: State, inst: u32, env: Env): (n: seq<Byte>)
    requires InMemory(s, inst)
    ensures |n| == |s.mem|
  {
    var op := Opc(inst);
    if op == OPC_ST || op == OPC_SB || op == OPC_SH then
      Overwrite(s.mem, Operand(inst, s.regs), Stored(op, s.regs[Ra(inst)]))
    else if op == OPC_SSC then ApiWrites(s.mem, env.mem)
    else s.mem
  }

  // ---- The status word ----

  function Flags(inst: u32, r: Core): u32 {
    var op := Opc(inst);
    if op == OPC_CMP then CmpFlags(r[15], r[Ra(inst)], r[Rb(inst)])
    else if op == OPC_ADD then OverflowFlag(r[15], AddWords(r[Rb(inst)], r[Rc(inst)]))
    else if op == OPC_MUL then OverflowFlag(r[15], MulWords(r[Rb(inst)], r[Rc(inst)]))
    else r[15]
  }

  // ---- The value for the register ra, if the instruction writes one ----

  function Truth(b: bool): u32 { if b then 1 else 0 }

  // Shifts by 32 or more and rotates by 0 or 32 or more are open.
  function Shifted(op: nat, x: u32, n: nat, env: Env): u32 {
    if op == OPC_ROLI || op == OPC_ROL then (if 1 <= n <= 31 then Rol(x, n) else env.v)
    else if op == OPC_RORI || op == OPC_ROR then (if 1 <= n <= 31 then Ror(x, n) else env.v)
    else if n > 31 then env.v
    else if op == OPC_SRA || op == OPC_SRAV then Sra(x, n)
    else if op == OPC_SHL || op == OPC_SHLV then Shl(x, n)
    else Shr(x, n)
  }

  function Result(s: State, inst: u32, env: Env): Option<u32>
    requires InMemory(s, inst)
  {
    var r, op, imm := s.regs, Opc(inst), C16(inst);
    var b, c := r[Rb(inst)], r[Rc(inst)];
    if op == OPC_LD || op == OPC_LB || op == OPC_LBU || op == OPC_LH || op == OPC_LHU then
      Some(Loaded(op, s.mem, Operand(inst, r)))
    else if op == OPC_ADDIU then Some(AddWords(b, imm))
    else if op == OPC_MOVZ then (if c == 0 then Some(b) else None)
    else if op == OPC_MOVN then (if c != 0 then Some(b) else None)
    else if op == OPC_ANDI then Some(And(b, Cx16(inst)))
    else if op == OPC_ORI then Some(OrWord(b, Cx16(inst)))
    else if op == OPC_XORI then Some(XorWord(b, Cx16(inst)))
    else if op == OPC_LUI then Some(0x1_0000 * Cx16(inst))
    else if op == OPC_SLTI then Some(Truth(Signed(b) < imm))
    else if op == OPC_SLTIU then Some(Truth(b < Wrap(imm)))
    else if op == OPC_SLT then Some(Truth(Signed(b) < Signed(c)))
    else if op == OPC_SLTU then Some(Truth(b < c))
    else if op == OPC_ADD || op == OPC_ADDU then Some(AddWords(b, c))
    else if op == OPC_SUB || op == OPC_SUBU then Some(AddWords(b, -(c as int)))
    else if op == OPC_CLZ then Some(0)
    else if op == OPC_CLO then Some(b % 2)
    else if op == OPC_MUL then Some(MulWords(b, c))
    else if op == OPC_AND then Some(And(b, c))
    else if op == OPC_OR then Some(OrWord(b, c))
    else if op == OPC_XOR then Some(XorWord(b, c))
    else if OPC_ROLI <= op <= OPC_SHR then Some(Shifted(op, b, Cx12(inst), env))
    else if OPC_SRAV <= op <= OPC_ROR then Some(Shifted(op, b, c, env))
    else if op == OPC_MFHI then Some(s.cp[2])
    else if op == OPC_MFLO then Some(s.cp[3])
    else if op == OPC_MFC0 then Some(if Rb(inst) < 4 then s.cp[Rb(inst)] else env.v)
    else None
  }

  // The register the switch assigns and its value: ra, LR for the calls, r3 for an API call.
  function Dest(s: State, inst: u32, env: Env): Option<(nat, u32)>
    requires InMemory(s, inst)
  {
    var op := Opc(inst);
    if op == OPC_BAL || op == OPC_JALR || op == OPC_JSUB then Some((14, s.cp[0]))
    else if op == OPC_SSC then Some((3, env.v))
    else match Result(s, inst, env)
      case None => None
      case Some(v) => Some((Ra(inst), v))
  }

  function WriteDest(r: Core, d: Option<(nat, u32)>): Core {
    if d.Some? && d.value.0 < 16 then r[d.value.0 := d.value.1] else r
  }

  // ---- The coprocessor registers ----

  // C division, truncating toward zero.
  function TruncDiv(a: int, b: int): int
    requires b != 0
  {
    var q := (if a < 0 then -a else a) / (if b < 0 then -b else b);
    if (a < 0) == (b < 0) then q else -q
  }

  function TruncRem(a: int, b: int): int
    requires b != 0
  {
    a - TruncDiv(a, b) * b
  }

  function WordRem(a: u32, b: u32): u32
    requires b != 0
  {
    a % b
  }

  // The language defines the signed quotient: no division by zero, and it fits.
  predicate Divides(a: u32, b: u32) {
    b != 0 && !(Signed(a) == -0x8000_0000 && Signed(b) == -1)
  }

  function HiLo(s: State, inst: u32, env: Env): Cop {
    var op, a, b, cp := Opc(inst), s.regs[Ra(inst)], s.regs[Rb(inst)], s.cp;
    if op == OPC_MULT then
      var t := MulWords(a, b);
      cp[2 := if Signed(t) < 0 then 0xFFFF_FFFF else 0][3 := t]
    else if op == OPC_MULTU then cp[2 := 0][3 := MulWords(a, b)]
    else if op == OPC_DIV && Divides(a, b) then
      cp[2 := Wrap(TruncRem(Signed(a), Signed(b)))][3 := Wrap(TruncDiv(Signed(a), Signed(b)))]
    else if op == OPC_DIVU && b != 0 then cp[2 := WordRem(a, b)][3 := Quotient(a, b)]
    else if op == OPC_DIV || op == OPC_DIVU then cp[2 := env.hi][3 := env.lo]
    else if op == OPC_MTHI then cp[2 := a]
    else if op == OPC_MTLO then cp[3 := b]
    else if (op == OPC_MTC0 || op == OPC_C0MOV) && Ra(inst) < 4 then cp[Ra(inst) := b]
    else cp
  }

  // The PC after the switch; r1 holds the registers after it.
  function NextPc(s: State, inst: u32, r1: Core): u32 {
    var op, a, b, pc := Opc(inst), s.regs[Ra(inst)], s.regs[Rb(inst)], s.cp[0];
    if op == OPC_BEQ then (if a == b then AddWords(pc, C16(inst)) else pc)
    else if op == OPC_BNE then (if a != b then AddWords(pc, C16(inst)) else pc)
    else if OPC_JEQ <= op <= OPC_JGE then (if Taken(op, s.regs[15]) then AddWords(pc, C24(inst)) else pc)
    else if op == OPC_JMP || op == OPC_BAL || op == OPC_JSUB then AddWords(pc, C24(inst))
    else if op == OPC_JALR then r1[Rb(inst)]
    else if op == OPC_JR_RET then s.regs[14]
    else pc
  }

  // Opcodes of jumps and calls.
  predicate Branches(op: nat) {
    OPC_JEQ <= op <= OPC_JR_RET
  }

  // What the instruction makes of the state after the fetch has moved PC.
  function Switch(s: State, inst: u32, env: Env): (t: State)
    requires InMemory(s, inst)
    ensures |t.mem| == |s.mem|
  {
    var r1 := WriteDest(s.regs[15 := Flags(inst, s.regs)], Dest(s, inst, env));
    State(r1, if Branches(Opc(inst)) then s.cp[0 := NextPc(s, inst, r1)] else HiLo(s, inst, env),
          MemAfter(s, inst, env))
  }

  // ---- What reaches the status word ----

  // The opcodes that assign ra.
  predicate WritesRa(op: nat) {
    || op == OPC_LD || op == OPC_LB || op == OPC_LBU || op == OPC_LH || op == OPC_LHU
    || OPC_ADDIU <= op <= OPC_LUI || OPC_ADDU <= op <= OPC_ROR || OPC_SLTI <= op <= OPC_SLTU
    || op == OPC_MFHI || op == OPC_MFLO || op == OPC_MFC0
  }

  // The instruction names r15 as its destination.
  predicate NamesStatus(inst: u32) {
    WritesRa(Opc(inst)) && Ra(inst) == 15
  }

  predicate SparesStatus(inst: u32) { !NamesStatus(inst) }

  predicate SparesFlags(inst: u32) { !NamesStatus(inst) && Opc(inst) != OPC_CMP }

  // Only the flag macros reach SW from an instruction that does not name it.
  lemma StatusAfter(s: State, inst: u32, env: Env)
    requires InMemory(s, inst) && SparesStatus(inst)
    ensures Switch(s, inst, env).regs[15] == Flags(inst, s.regs)
  {
    hide CmpFlags, OverflowFlag, MemAfter, HiLo, NextPc, Opc, Ra, Shifted, Loaded;
  }

  // Only a compare and an instruction whose destination is r15 can change N or Z.
  lemma OnlyCompareSetsNZ(s: State, inst: u32, env: Env)
    requires InMemory(s, inst) && SparesFlags(inst)
    ensures NZ(Switch(s, inst, env).regs[15]) == NZ(s.regs[15])
  {
    hide Switch, OverflowFlag, NZ, AddWords, MulWords, Opc, Ra, Rb, Rc;
    StatusAfter(s, inst, env);
    OverflowKeepsNZ(s.regs[15], AddWords(s.regs[Rb(inst)], s.regs[Rc(inst)]));
    OverflowKeepsNZ(s.regs[15], MulWords(s.regs[Rb(inst)], s.regs[Rc(inst)]));
  }

  // N and Z are not both set by an instruction that does not name r15.
  lemma StepNotBoth(s: State, inst: u32, env: Env)
    requires InMemory(s, inst) && SparesStatus(inst) && NotBoth(s.regs[15])
    ensures NotBoth(Switch(s, inst, env).regs[15])
  {
    hide Switch, CmpFlags, Opc, Ra, Rb;
    if Opc(inst) == OPC_CMP {
      StatusAfter(s, inst, env);
      CmpBits(s.regs[15], s.regs[Ra(inst)], s.regs[Rb(inst)]);
    } else {
      OnlyCompareSetsNZ(s, inst, env);
    }
  }

  // ---- V ----

  // ADD sets V for negative 32-bit sums and for no others. It so tells an overflow, in a status word
  // with V clear, exactly when the sum of the two registers is not negative.
  lemma AddTellsOverflow(s: State, inst: u32, env: Env)
    requires InMemory(s, inst) && Opc(inst) == OPC_ADD && SparesStatus(inst)
    ensures var b, c, v, v' := s.regs[Rb(inst)], s.regs[Rc(inst)], s.regs[15], Switch(s, inst, env).regs[15];
            && (BitAt(v', V) <==> BitAt(v, V) || Signed(AddWords(b, c)) < 0)
            && ((BitAt(v', V) <==> BitAt(v, V) || !Fits32(Signed(b) + Signed(c)))
                <==> BitAt(v, V) || Signed(b) + Signed(c) >= 0)
  {
    hide Switch, OverflowFlag, Tells, Opc, Rb, Rc;
    var b, c := s.regs[Rb(inst)], s.regs[Rc(inst)];
    StatusAfter(s, inst, env);
    OverflowKeepsNZ(s.regs[15], AddWords(b, c));
    SumTells(b, c);
    VTells(s.regs[15], Signed(b) + Signed(c));
  }

  // MUL likewise, exactly when the product is below 2^31 and not negative, or its quotient by 2^31
  // is odd and not -1.
  lemma MulTellsOverflow(s: State, inst: u32, env: Env)
    requires InMemory(s, inst) && Opc(inst) == OPC_MUL && SparesStatus(inst)
    ensures var b, c, v, v' := s.regs[Rb(inst)], s.regs[Rc(inst)], s.regs[15], Switch(s, inst, env).regs[15];
            && (BitAt(v', V) <==> BitAt(v, V) || Signed(MulWords(b, c)) < 0)
            && ((BitAt(v', V) <==> BitAt(v, V) || !Fits32(Signed(b) * Signed(c)))
                <==> BitAt(v, V) || Tells(Signed(b) * Signed(c)))
  {
    hide Switch, OverflowFlag, Tells, Opc, Rb, Rc;
    var b, c := s.regs[Rb(inst)], s.regs[Rc(inst)];
    StatusAfter(s, inst, env);
    OverflowKeepsNZ(s.regs[15], MulWords(b, c));
    ProductWraps(b, c);
    VTells(s.regs[15], Signed(b) * Signed(c));
  }

  // 0 + -1 sets V; -2^31 + -1 leaves it clear.
  lemma AddMisjudges(s: State, inst: u32, env: Env)
    requires InMemory(s, inst) && Opc(inst) == OPC_ADD && SparesStatus(inst) && !BitAt(s.regs[15], V)
    requires s.regs[Rc(inst)] == 0xFFFF_FFFF
    ensures s.regs[Rb(inst)] == 0 ==> BitAt(Switch(s, inst, env).regs[15], V) && Fits32(0 + -1)
    ensures s.regs[Rb(inst)] == 0x8000_0000
            ==> !BitAt(Switch(s, inst, env).regs[15], V) && !Fits32(-0x8000_0000 + -1)
  {
    hide Switch, Opc, Rb, Rc, BitAt, InMemory;
    AddTellsOverflow(s, inst, env);
  }

  // 1 * -1 sets V; 65536 * 65536 leaves it clear.
  lemma MulMisjudges(s: State, inst: u32, env: Env)
    requires InMemory(s, inst) && Opc(inst) == OPC_MUL && SparesStatus(inst) && !BitAt(s.regs[15], V)
    ensures s.regs[Rb(inst)] == 1 && s.regs[Rc(inst)] == 0xFFFF_FFFF
            ==> BitAt(Switch(s, inst, env).regs[15], V) && Fits32(1 * -1)
    ensures s.regs[Rb(inst)] == s.regs[Rc(inst)] == 0x1_0000
            ==> !BitAt(Switch(s, inst, env).regs[15], V) && !Fits32(0x1_0000 * 0x1_0000)
  {
    hide Switch, Opc, Rb, Rc, BitAt, InMemory;
    MulTellsOverflow(s, inst, env);
  }

  // ---- Loads and stores ----

  // The load that reads back what a store of the same width wrote.
  predicate Matches(store: nat, load: nat) {
    || (store == OPC_ST && load == OPC_LD)
    || (store == OPC_SB && load == OPC_LBU)
    || (store == OPC_SH && load == OPC_LHU)
  }

  lemma OverwriteBytes(m: seq<Byte>, a: nat, bs: seq<Byte>)
    requires a + |bs| <= |m|
    ensures var n := Overwrite(m, a, bs);
            && (forall k :: 0 <= k < |bs| ==> n[a + k] == bs[k])
            && (forall x :: 0 <= x < |m| && !(a <= x < a + |bs|) ==> n[x] == m[x])
  {
  }

  // The matching load of the bytes a store writes is the value, as far as it fits in them.
  lemma StoredLoads(store: nat, load: nat, v: u32, m: seq<Byte>, a: nat)
    requires Matches(store, load) && a + Width(store) <= |m|
    requires forall k :: 0 <= k < Width(store) ==> m[a + k] == Stored(store, v)[k]
    ensures Width(load) == Width(store) && Loaded(load, m, a) == v % Pow2(8 * Width(store))
  {
    ShiftedBytes();
    Pow32();
    BytesOfWord(v);
    WordBytes(v);
    LowHalf(v);
    hide BytesOf, WordOf, Pow2;
    var bs := Stored(store, v);
    assert m[a + 0] == bs[0];
    if store != OPC_SB {
      assert m[a + 1] == bs[1];
    }
    if store == OPC_ST {
      assert m[a + 2] == bs[2] && m[a + 3] == bs[3];
    }
  }

  lemma StoreSwitch(s: State, inst: u32, env: Env)
    requires InMemory(s, inst) && Opc(inst) in {OPC_ST, OPC_SB, OPC_SH}
    ensures Switch(s, inst, env).mem == Overwrite(s.mem, Operand(inst, s.regs), Stored(Opc(inst), s.regs[Ra(inst)]))
    ensures Switch(s, inst, env).regs == s.regs && Switch(s, inst, env).cp == s.cp
  {
    hide Opc, Ra, Rb, C16, Stored, Overwrite;
  }

  // A store changes no byte beside its own, and the matching load reads the value back, as far as
  // it fits in the bytes stored.
  lemma StoreThenLoad(s: State, inst: u32, env: Env, load: nat)
    requires InMemory(s, inst) && Matches(Opc(inst), load)
    ensures var m, a, w := Switch(s, inst, env).mem, Operand(inst, s.regs), Width(Opc(inst));
            && (forall x :: 0 <= x < |m| && !(a <= x < a + w) ==> m[x] == s.mem[x])
            && Width(load) == w && Loaded(load, m, a) == s.regs[Ra(inst)] % Pow2(8 * w)
    ensures Switch(s, inst, env).regs == s.regs && Switch(s, inst, env).cp == s.cp
  {
    hide Opc, Ra, Operand, Switch, Overwrite, Stored, Loaded, Pow2;
    var v, a := s.regs[Ra(inst)], Operand(inst, s.regs);
    StoreSwitch(s, inst, env);
    OverwriteBytes(s.mem, a, Stored(Opc(inst), v));
    StoredLoads(Opc(inst), load, v, Switch(s, inst, env).mem, a);
  }

  lemma LowHalf(v: u32)
    ensures v % 0x100 + 0x100 * (v / 0x100 % 0x100) == v % 0x1_0000
  {
    var q: nat := v / 0x100;
    var h: nat := q / 0x100;
    assert v == 0x100 * q + v % 0x100 && q == 0x100 * h + q % 0x100;
    DivModUnique(v, 0x1_0000, h);
  }
}
