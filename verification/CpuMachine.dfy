// The interpreter itself: run_loop of simulator/cpu.c on its register files and VM memory in place.
module CpuMachine {
  import opened Arith
  import opened Bits
  import opened Bytes
  import opened Shifts
  import opened Opcodes
  import opened Status
  import opened CpuStep
  import opened CpuLaws
  import opened CpuLoop

  // Opcodes that move values into a register and the flags only.
  predicate Transfers(op: nat) {
    || op in {OPC_LD, OPC_LB, OPC_LBU, OPC_LH, OPC_LHU} || OPC_ADDIU <= op <= OPC_ROR
    || OPC_SLTI <= op <= OPC_SLTU || op in {OPC_MFHI, OPC_MFLO, OPC_MFC0}
  }

  predicate Stores(op: nat) { op in {OPC_ST, OPC_SB, OPC_SH} }

  // Opcodes that write coprocessor registers only.
  predicate SetsCop(op: nat) {
    OPC_MULT <= op <= OPC_DIVU || op in {OPC_MTHI, OPC_MTLO, OPC_MTC0, OPC_C0MOV}
  }

  class Machine {
    const regs: array<u32>
    const cp: array<u32> // PC, EPC, HI, LO
    const mem: array<Byte>

    ghost predicate Valid() {
      regs.Length == 16 && cp.Length == 4 && regs != cp
    }

    ghost function Now(): State
      requires Valid()
      reads regs, cp, mem
    {
      State(regs[..], cp[..], mem[..])
    }

    // vm_init: all registers 0 and the memory given.
    constructor (memory: array<Byte>)
      ensures Valid() && fresh(regs) && fresh(cp) && mem == memory
      ensures NotBoth(regs[15])
    {
      regs := new u32[16](_ => 0);
      cp := new u32[4](_ => 0);
      mem := memory;
    }

    // OPC_CMP, flag macro by flag macro.
    method CompareFlags(a: u32, b: u32)
      requires Valid()
      modifies regs
      ensures regs[..] == old(regs[..])[15 := CmpFlags(old(regs[15]), a, b)]
      ensures var t := Signed(Wrap(Signed(a) - Signed(b))); NZ(regs[15]) == (t < 0, t == 0)
      ensures forall k :: k >= 2 ==> (BitAt(regs[15], k) <==> BitAt(old(regs[15]), k))
    {
      hide SetBit, ClearBit, BitAt;
      CmpMacros(regs[15]);
      CmpBits(regs[15], a, b);
      var t := Signed(Wrap(Signed(a) - Signed(b)));
      if t > 0 {
        regs[15] := ClearBit(regs[15], N);
        regs[15] := ClearBit(regs[15], Z);
      }
      if t == 0 {
        regs[15] := ClearBit(regs[15], N);
        regs[15] := SetBit(regs[15], Z);
      }
      if t < 0 {
        regs[15] := SetBit(regs[15], N);
        regs[15] := ClearBit(regs[15], Z);
      }
    }

    // LD, LB, LBU, LH, LHU
    method Load(inst: u32, env: Env)
      requires Valid() && InMemory(Now(), inst)
      requires Opc(inst) in {OPC_LD, OPC_LB, OPC_LBU, OPC_LH, OPC_LHU}
      modifies regs
      ensures regs[..] == Switch(old(Now()), inst, env).regs
    {
      hide Opc, Ra, Rb, C16, WordOf, MemAfter, HiLo;
      var op, ra := Opc(inst), Ra(inst);
      var a: nat := Signed(regs[Rb(inst)]) + C16(inst);
      if op == OPC_LD {
        regs[ra] := WordOf(mem[a], mem[a + 1], mem[a + 2], mem[a + 3]);
      } else if op == OPC_LB {
        regs[ra] := Wrap(SignExtend(mem[a], 0x80));
      } else if op == OPC_LBU {
        regs[ra] := mem[a];
      } else if op == OPC_LH {
        regs[ra] := Wrap(SignExtend(mem[a] as int + 0x100 * mem[a + 1] as int, 0x8000));
      } else {
        regs[ra] := mem[a] as int + 0x100 * mem[a + 1] as int;
      }
    }

    // ST, SB, SH
    method Store(inst: u32, env: Env)
      requires Valid() && InMemory(Now(), inst) && Stores(Opc(inst))
      modifies mem
      ensures mem[..] == Switch(old(Now()), inst, env).mem
    {
      hide Opc, Ra, Rb, C16, LowByte, Shr, HiLo, Dest, Flags;
      var op, v := Opc(inst), regs[Ra(inst)];
      var a: nat := Signed(regs[Rb(inst)]) + C16(inst);
      ghost var m := mem[..];
      mem[a] := LowByte(v);
      if op == OPC_ST || op == OPC_SH {
        mem[a + 1] := LowByte(Shr(v, 8));
      }
      if op == OPC_ST {
        mem[a + 2] := LowByte(Shr(v, 16));
        mem[a + 3] := LowByte(Shr(v, 24));
      }
      assert mem[..] == Overwrite(m, a, Stored(op, v));
    }

    // ADDIU to LUI, SLTI to SLTU
    method Immediate(inst: u32, env: Env)
      requires Valid() && (OPC_ADDIU <= Opc(inst) <= OPC_LUI || OPC_SLTI <= Opc(inst) <= OPC_SLTU)
      modifies regs
      ensures regs[..] == Switch(old(Now()), inst, env).regs
    {
      hide Opc, Ra, Rb, Rc, C16, And, OrWord, XorWord, Wrap, Signed, MemAfter, HiLo;
      var op, ra, rb, rc, imm := Opc(inst), Ra(inst), Rb(inst), Rc(inst), C16(inst);
      if op == OPC_ADDIU {
        regs[ra] := AddWords(regs[rb], imm);
      } else if op == OPC_MOVZ {
        if regs[rc] == 0 {
          regs[ra] := regs[rb];
        }
      } else if op == OPC_MOVN {
        if regs[rc] != 0 {
          regs[ra] := regs[rb];
        }
      } else if op == OPC_ANDI {
        regs[ra] := And(regs[rb], Cx16(inst));
      } else if op == OPC_ORI {
        regs[ra] := OrWord(regs[rb], Cx16(inst));
      } else if op == OPC_XORI {
        regs[ra] := XorWord(regs[rb], Cx16(inst));
      } else if op == OPC_LUI {
        regs[ra] := Cx16(inst) * 0x1_0000;
      } else if op == OPC_SLTI {
        if Signed(regs[rb]) < imm {
          regs[ra] := 1;
        } else {
          regs[ra] := 0;
        }
      } else if op == OPC_SLTIU {
        if regs[rb] < Wrap(imm) {
          regs[ra] := 1;
        } else {
          regs[ra] := 0;
        }
      } else if op == OPC_SLT {
        if Signed(regs[rb]) < Signed(regs[rc]) {
          regs[ra] := 1;
        } else {
          regs[ra] := 0;
        }
      } else {
        if regs[rb] < regs[rc] {
          regs[ra] := 1;
        } else {
          regs[ra] := 0;
        }
      }
    }

    // The result of an ADD or MUL: set V if the widened result exceeds 32 bits, keep its low word.
    method WriteChecked(ra: nat, result: u32)
      requires Valid() && ra < 16
      modifies regs
      ensures regs[..] == old(regs[..])[15 := OverflowFlag(old(regs[15]), result)][ra := result]
    {
      hide SetBit;
      var t := Widen(result);
      if t > 0xFFFF_FFFF {
        regs[15] := SetBit(regs[15], V);
      }
      LowWord(result);
      regs[ra] := t % W32;
    }

    lemma LowWord(x: u32)
      ensures Widen(x) % W32 == x
    {
    }

    // The loops of CLZ and CLO; test is what the comparison that binds first makes of the mask.
    method CountLeading(x: u32, test: u32) returns (i: u32)
      requires test <= 1
      ensures i == if test == 1 then x % 2 else 0
    {
      var n := x;
      i := 0;
      LowMask(x, 1);
      while i < 32 && And(n, test) != 0
        invariant i <= 1
        invariant i == 0 ==> n == x
        invariant i == 1 ==> test == 1 && x % 2 == 1 && And(n, 1) == 0
      {
        n := Shl(n, 1);
        i := i + 1;
        LowMask(n, 1);
      }
    }

    // CMP to XOR
    method Arithmetic(inst: u32, env: Env)
      requires Valid() && OPC_CMP <= Opc(inst) <= OPC_XOR
      modifies regs
      ensures regs[..] == Switch(old(Now()), inst, env).regs
    {
      hide Opc, Ra, Rb, Rc, And, OrWord, XorWord, CmpFlags, OverflowFlag, Wrap, MemAfter, HiLo;
      var op, ra, rb, rc := Opc(inst), Ra(inst), Rb(inst), Rc(inst);
      if op == OPC_CMP {
        CompareFlags(regs[ra], regs[rb]);
      } else if op == OPC_ADD {
        WriteChecked(ra, AddWords(regs[rb], regs[rc]));
      } else if op == OPC_MUL {
        WriteChecked(ra, MulWords(regs[rb], regs[rc]));
      } else if op == OPC_ADDU {
        regs[ra] := AddWords(regs[rb], regs[rc]);
      } else if op == OPC_SUB || op == OPC_SUBU {
        regs[ra] := AddWords(regs[rb], -(regs[rc] as int));
      } else if op == OPC_CLZ {
        var i := CountLeading(regs[rb], Truth(0x8000_0000 == 0));
        regs[ra] := i;
      } else if op == OPC_CLO {
        var i := CountLeading(regs[rb], Truth(0x8000_0000 == 0x8000_0000));
        regs[ra] := i;
      } else if op == OPC_AND {
        regs[ra] := And(regs[rb], regs[rc]);
      } else if op == OPC_OR {
        regs[ra] := OrWord(regs[rb], regs[rc]);
      } else {
        regs[ra] := XorWord(regs[rb], regs[rc]);
      }
    }

    // ROLI to ROR; an open outcome comes from env.
    method Shift(inst: u32, env: Env)
      requires Valid() && OPC_ROLI <= Opc(inst) <= OPC_ROR
      modifies regs
      ensures regs[..] == Switch(old(Now()), inst, env).regs
    {
      hide Opc, Ra, Rb, Rc, Rol, Ror, Sra, Shl, Shr, MemAfter, HiLo;
      var op, ra, x := Opc(inst), Ra(inst), regs[Rb(inst)];
      var n := if op <= OPC_SHR then Cx12(inst) else regs[Rc(inst)];
      if n > 31 {
        regs[ra] := env.v;
      } else if op == OPC_ROLI || op == OPC_ROL {
        regs[ra] := if n > 0 then Rol(x, n) else env.v;
      } else if op == OPC_RORI || op == OPC_ROR {
        regs[ra] := if n > 0 then Ror(x, n) else env.v;
      } else if op == OPC_SRA || op == OPC_SRAV {
        regs[ra] := Sra(x, n);
      } else if op == OPC_SHL || op == OPC_SHLV {
        regs[ra] := Shl(x, n);
      } else {
        regs[ra] := Shr(x, n);
      }
    }

    // The test of a conditional jump on the bits the GET macros read.
    method Test(op: nat) returns (taken: bool)
      requires Valid() && OPC_JEQ <= op <= OPC_JGE
      ensures taken == Taken(op, regs[15])
    {
      GetBitMeaning(regs[15], N);
      GetBitMeaning(regs[15], Z);
      hide GetBit, BitAt;
      var n, z := GetBit(regs[15], N), GetBit(regs[15], Z);
      if op == OPC_JEQ {
        taken := !n && z;
      } else if op == OPC_JNE {
        taken := !z;
      } else if op == OPC_JLT {
        taken := n && !z;
      } else if op == OPC_JGT {
        taken := !n && !z;
      } else if op == OPC_JLE {
        taken := n || z;
      } else {
        taken := !n || z;
      }
    }

    // JEQ to JR_RET
    method Jump(inst: u32, env: Env)
      requires Valid() && OPC_JEQ <= Opc(inst) <= OPC_JR_RET
      modifies regs, cp
      ensures Now() == Switch(old(Now()), inst, env)
    {
      hide Opc, Ra, Rb, Rc, C16, C24, Wrap, Taken, HiLo;
      var op, ra, rb, rc := Opc(inst), Ra(inst), Rb(inst), Rc(inst);
      if op <= OPC_JGE {
        var taken := Test(op);
        if taken {
          cp[0] := AddWords(cp[0], C24(inst));
        }
      } else if op == OPC_JMP {
        cp[0] := AddWords(cp[0], C24(inst));
      } else if op == OPC_BEQ {
        if regs[ra] == regs[rb] {
          cp[0] := AddWords(cp[0], C16(inst));
        }
      } else if op == OPC_BNE {
        if regs[ra] != regs[rb] {
          cp[0] := AddWords(cp[0], C16(inst));
        }
      } else if op == OPC_JALR {
        regs[14] := cp[0];
        cp[0] := regs[rb];
      } else if op == OPC_BAL || op == OPC_JSUB {
        regs[14] := cp[0];
        cp[0] := AddWords(cp[0], C24(inst));
      } else {
        cp[0] := regs[14];
      }
    }

    // MULT to DIVU, MTHI, MTLO, MTC0, C0MOV
    method Coprocessor(inst: u32, env: Env)
      requires Valid() && SetsCop(Opc(inst))
      modifies cp
      ensures cp[..] == HiLo(old(Now()), inst, env)
    {
      hide Opc, Ra, Rb, Wrap, TruncDiv, TruncRem, WordRem, Quotient;
      var op, ra, rb := Opc(inst), Ra(inst), Rb(inst);
      var a, b := regs[ra], regs[rb];
      if op == OPC_MULT {
        var t := MulWords(a, b);
        cp[2] := if Signed(t) < 0 then 0xFFFF_FFFF else 0;
        cp[3] := t;
      } else if op == OPC_MULTU {
        cp[2] := 0;
        cp[3] := MulWords(a, b);
      } else if op == OPC_DIV && Divides(a, b) {
        cp[2] := Wrap(TruncRem(Signed(a), Signed(b)));
        cp[3] := Wrap(TruncDiv(Signed(a), Signed(b)));
      } else if op == OPC_DIVU && b != 0 {
        cp[2] := WordRem(a, b);
        cp[3] := Quotient(a, b);
      } else if op == OPC_DIV || op == OPC_DIVU {
        cp[2] := env.hi;
        cp[3] := env.lo;
      } else if op == OPC_MTHI {
        cp[2] := a;
      } else if op == OPC_MTLO {
        cp[3] := b;
      } else if ra < 4 {
        cp[ra] := b;
      }
    }

    // MFHI, MFLO, MFC0
    method MoveFrom(inst: u32, env: Env)
      requires Valid() && Opc(inst) in {OPC_MFHI, OPC_MFLO, OPC_MFC0}
      modifies regs
      ensures regs[..] == Switch(old(Now()), inst, env).regs
    {
      hide Opc, Ra, Rb, MemAfter;
      var op, ra, rb := Opc(inst), Ra(inst), Rb(inst);
      if op == OPC_MFHI {
        regs[ra] := cp[2];
      } else if op == OPC_MFLO {
        regs[ra] := cp[3];
      } else {
        regs[ra] := if rb < 4 then cp[rb] else env.v;
      }
    }

    // SSC: the API returns in r3 and writes to memory.
    method ApiCall(inst: u32, env: Env)
      requires Valid() && Opc(inst) == OPC_SSC
      modifies regs, mem
      ensures Now() == Switch(old(Now()), inst, env)
    {
      hide Opc, Ra, Rb;
      ghost var m := mem[..];
      regs[3] := env.v;
      var n := if |env.mem| <= mem.Length then |env.mem| else mem.Length;
      forall i | 0 <= i < n {
        mem[i] := env.mem[i];
      }
      assert mem[..] == ApiWrites(m, env.mem);
    }

    // What the other instructions leave alone.
    lemma Untouched(s: State, inst: u32, env: Env)
      requires InMemory(s, inst)
      ensures var op, t := Opc(inst), Switch(s, inst, env);
              && (Transfers(op) ==> t.mem == s.mem && t.cp == s.cp)
              && (Stores(op) || SetsCop(op) ==> t.regs == s.regs)
              && (Stores(op) ==> t.cp == s.cp)
              && (SetsCop(op) ==> t.mem == s.mem && t.cp == HiLo(s, inst, env))
    {
      hide Opc, Ra, Rb, Rc, CmpFlags, OverflowFlag, Loaded, Shifted;
    }

    // The switch: every instruction, on the registers and the memory in place, has the effect Switch
    // describes register by register.
    method Execute(inst: u32, env: Env)
      requires Valid() && InMemory(Now(), inst)
      modifies regs, cp, mem
      ensures Now() == Switch(old(Now()), inst, env)
      ensures SparesStatus(inst) && NotBoth(old(regs[15])) ==> NotBoth(regs[15])
      ensures SparesFlags(inst) ==> NZ(regs[15]) == NZ(old(regs[15]))
    {
      hide Opc, Switch, HiLo, InMemory, NotBoth, NZ, SparesStatus, SparesFlags;
      var op := Opc(inst);
      Untouched(Now(), inst, env);
      if SparesStatus(inst) && NotBoth(regs[15]) {
        StepNotBoth(Now(), inst, env);
      }
      if SparesFlags(inst) {
        OnlyCompareSetsNZ(Now(), inst, env);
      }
      if op in {OPC_LD, OPC_LB, OPC_LBU, OPC_LH, OPC_LHU} {
        Load(inst, env);
      } else if Stores(op) {
        Store(inst, env);
      } else if OPC_ADDIU <= op <= OPC_LUI || OPC_SLTI <= op <= OPC_SLTU {
        Immediate(inst, env);
      } else if OPC_CMP <= op <= OPC_XOR {
        Arithmetic(inst, env);
      } else if OPC_ROLI <= op <= OPC_ROR {
        Shift(inst, env);
      } else if OPC_JEQ <= op <= OPC_JR_RET {
        Jump(inst, env);
      } else if SetsCop(op) {
        Coprocessor(inst, env);
      } else if op in {OPC_MFHI, OPC_MFLO, OPC_MFC0} {
        MoveFrom(inst, env);
      } else if op == OPC_SSC {
        ApiCall(inst, env);
      } else {
        Unchanged(Now(), inst, env);
      }
    }

    // run_loop for a thread, one element of envs a turn. The machine ends where the loop function does,
    // whose runs LoopIsRun describes; N and Z do not end up both set unless an instruction named r15;
    // and a jump that follows a compare goes where the compared values send it.
    method RunLoop(entry: u32, sp: u32, spEnd: u32, envs: seq<Env>) returns (o: Outcome)
      requires Valid()
      modifies regs, cp, mem
      ensures var s := State(old(regs[..])[13 := sp], old(cp[..])[0 := entry], old(mem[..]));
              && (Now(), o) == Loop(s, spEnd, envs)
              && (NotBoth(old(regs[15])) && Every(s, spEnd, envs, SparesStatus) ==> NotBoth(regs[15]))
              && (ComparedJump(s, spEnd, envs) ==> cp[0] == JumpTarget(s, spEnd, envs))
    {
      hide Loop, Every, ComparedJump, JumpTarget, NotBoth;
      cp[0] := entry;
      regs[13] := sp;
      ghost var s := Now();
      o := Continue(spEnd, envs);
      if NotBoth(s.regs[15]) && Every(s, spEnd, envs, SparesStatus) {
        NeverBoth(s, spEnd, envs);
      }
      if ComparedJump(s, spEnd, envs) {
        CompareRunJump(s, spEnd, envs);
      }
    }

    method Continue(spEnd: u32, envs: seq<Env>) returns (o: Outcome)
      requires Valid()
      modifies regs, cp, mem
      ensures (Now(), o) == Loop(old(Now()), spEnd, envs)
    {
      hide Switch, AddWords, InMemory, Fetched, WordAt, WordOf;
      var k := 0;
      while k < |envs|
        invariant k <= |envs|
        invariant Loop(old(Now()), spEnd, envs) == Loop(Now(), spEnd, envs[k..])
      {
        assert envs[k..][0] == envs[k] && envs[k..][1..] == envs[k + 1..];
        ghost var s := Now();
        var pc := Signed(cp[0]);
        if !(0 <= pc && pc + 4 <= mem.Length) {
          return Fault;
        }
        var inst := WordOf(mem[pc], mem[pc + 1], mem[pc + 2], mem[pc + 3]);
        FetchedHere(s, inst);
        cp[0] := AddWords(cp[0], 4);
        assert Now() == Moved(s);
        if regs[13] <= spEnd {
          return StackOverflow;
        }
        var inside := Inside(inst);
        if !inside {
          return Fault;
        }
        Execute(inst, envs[k]);
        if cp[0] == 0 {
          return Returned(regs[2]);
        }
        k := k + 1;
      }
      return Running;
    }

    lemma FetchedHere(s: State, inst: u32)
      requires CanFetch(s)
      requires var a := Signed(s.cp[0]); inst == WordOf(s.mem[a], s.mem[a + 1], s.mem[a + 2], s.mem[a + 3])
      ensures inst == Fetched(s)
      ensures InMemory(s, inst) <==> InMemory(Moved(s), inst)
    {
    }

    // A load or store stays inside memory: beyond it the program's behaviour is undefined.
    method Inside(inst: u32) returns (ok: bool)
      requires Valid()
      ensures ok == InMemory(Now(), inst)
    {
      var w := Width(Opc(inst));
      var a := Signed(regs[Rb(inst)]) + C16(inst);
      ok := w == 0 || (0 <= a && a + w <= mem.Length);
    }
  }
}
