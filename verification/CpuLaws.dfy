// What each instruction of simulator/cpu.c does, in terms of the registers, PC and memory alone.
module CpuLaws {
  import opened Arith
  import opened Bits
  import opened Bytes
  import opened Shifts
  import opened Opcodes
  import opened Status
  import opened CpuStep

  // ---- Where results go ----

  // The register ra after the instruction.
  function After(s: State, inst: u32, env: Env): u32
    requires InMemory(s, inst)
  {
    Switch(s, inst, env).regs[Ra(inst)]
  }

  lemma RaGets(s: State, inst: u32, env: Env)
    requires InMemory(s, inst) && WritesRa(Opc(inst))
    ensures Result(s, inst, env).Some? ==> After(s, inst, env) == Result(s, inst, env).value
  {
    hide Opc, Ra, Rb, Rc, Result, Flags, HiLo, NextPc, MemAfter;
  }

  // An instruction that assigns ra changes no other register, bar the flags, and nothing else.
  lemma OnlyRaChanges(s: State, inst: u32, env: Env)
    requires InMemory(s, inst) && WritesRa(Opc(inst))
    ensures var t := Switch(s, inst, env);
            && t.cp == s.cp && t.mem == s.mem
            && (forall i :: 0 <= i < 15 && i != Ra(inst) ==> t.regs[i] == s.regs[i])
            && (Opc(inst) != OPC_ADD && Opc(inst) != OPC_MUL && Ra(inst) != 15 ==> t.regs[15] == s.regs[15])
  {
    hide Opc, Ra, Rb, Rc, Result, OverflowFlag, CmpFlags, AddWords, MulWords;
  }

  // ---- Arithmetic ----

  // Sums, differences and products are right modulo 2^32.
  lemma ArithmeticLaws(s: State, inst: u32, env: Env)
    requires InMemory(s, inst)
    ensures var op, v: int, b: int, c: int := Opc(inst), After(s, inst, env), s.regs[Rb(inst)], s.regs[Rc(inst)];
            && (op == OPC_ADD || op == OPC_ADDU ==> (v - (b + c)) % W32 == 0)
            && (op == OPC_ADDIU ==> (v - (b + C16(inst))) % W32 == 0)
            && (op == OPC_SUB || op == OPC_SUBU ==> (v + c - b) % W32 == 0)
            && (op == OPC_MUL ==> (v - b * c) % W32 == 0)
  {
    hide Opc, Ra, Rb, Rc, C16, Switch, InMemory;
    var b: int, c: int := s.regs[Rb(inst)], s.regs[Rc(inst)];
    if Opc(inst) in {OPC_ADD, OPC_ADDU, OPC_ADDIU, OPC_SUB, OPC_SUBU, OPC_MUL} {
      RaGets(s, inst, env);
    }
    WrapLaw(b + c);
    WrapLaw(b + C16(inst));
    WrapLaw(b - c);
    WrapLaw(b * c);
  }

  lemma WrapLaw(p: int)
    ensures (Wrap(p) as int - p) % W32 == 0
  {
    DivModUnique(Wrap(p) as int - p, W32, -(p / W32));
  }

  // As signed numbers they are exact if and only if the exact value fits in 32 bits.
  lemma SignedArithmetic(s: State, inst: u32, env: Env)
    requires InMemory(s, inst)
    ensures var op, v, b, c := Opc(inst), Signed(After(s, inst, env)), Signed(s.regs[Rb(inst)]), Signed(s.regs[Rc(inst)]);
            && (op == OPC_ADD || op == OPC_ADDU ==> (v == b + c <==> Fits32(b + c)))
            && (op == OPC_ADDIU ==> (v == b + C16(inst) <==> Fits32(b + C16(inst))))
            && (op == OPC_SUB || op == OPC_SUBU ==> (v == b - c <==> Fits32(b - c)))
            && (op == OPC_MUL ==> (v == b * c <==> Fits32(b * c)))
  {
    hide Opc, Ra, Rb, Rc, C16, Switch, InMemory, Signed, Wrap;
    var b, c := s.regs[Rb(inst)], s.regs[Rc(inst)];
    if Opc(inst) in {OPC_ADD, OPC_ADDU, OPC_ADDIU, OPC_SUB, OPC_SUBU, OPC_MUL} {
      RaGets(s, inst, env);
    }
    SumTells(b, c);
    ProductWraps(b, c);
    PatternSum(b, C16(inst));
    PatternDifference(b, c);
    WrapFits(Signed(b) + Signed(c));
    WrapFits(Signed(b) + C16(inst));
    WrapFits(Signed(b) - Signed(c));
    WrapFits(Signed(b) * Signed(c));
  }

  lemma WrapFits(v: int)
    ensures Signed(Wrap(v)) == v <==> Fits32(v)
  {
    SignedWrap(v);
  }

  lemma PatternSum(b: u32, i: int)
    ensures Wrap(b + i) == Wrap(Signed(b) + i)
  {
    SameRemainder(Signed(b) + i, if b < 0x8000_0000 then 0 else 1);
  }

  lemma PatternDifference(b: u32, c: u32)
    ensures Wrap(b - (c as int)) == Wrap(Signed(b) - Signed(c))
  {
    PatternSum(b, -(c as int));
    SameRemainder(Signed(b) - Signed(c), if c < 0x8000_0000 then 0 else -1);
  }

  // ---- Comparison and moves ----

  lemma SetLaws(s: State, inst: u32, env: Env)
    requires InMemory(s, inst) && Opc(inst) in {OPC_SLT, OPC_SLTU, OPC_SLTI, OPC_SLTIU}
    ensures var op, v, b, c := Opc(inst), After(s, inst, env), s.regs[Rb(inst)], s.regs[Rc(inst)];
            && v <= 1
            && (op == OPC_SLT ==> (v == 1 <==> Signed(b) < Signed(c)))
            && (op == OPC_SLTU ==> (v == 1 <==> b < c))
            && (op == OPC_SLTI ==> (v == 1 <==> Signed(b) < C16(inst)))
            && (op == OPC_SLTIU ==> (v == 1 <==> b < C16(inst) % W32))
  {
    hide Opc, Ra, Rb, Rc, C16, Switch, InMemory;
    RaGets(s, inst, env);
  }

  lemma MoveLaws(s: State, inst: u32, env: Env)
    requires InMemory(s, inst) && Opc(inst) in {OPC_MOVZ, OPC_MOVN}
    ensures var moves := Opc(inst) == OPC_MOVZ <==> s.regs[Rc(inst)] == 0;
            Switch(s, inst, env) == if moves then s.(regs := s.regs[Ra(inst) := s.regs[Rb(inst)]]) else s
  {
    hide Opc, Ra, Rb, Rc;
  }

  // ---- Bits ----

  lemma LogicLaws(s: State, inst: u32, env: Env, k: nat)
    requires InMemory(s, inst) && k < 32
    ensures var op, v, b, c := Opc(inst), BitAt(After(s, inst, env), k), BitAt(s.regs[Rb(inst)], k), BitAt(s.regs[Rc(inst)], k);
            && (op == OPC_AND ==> (v <==> b && c))
            && (op == OPC_OR ==> (v <==> b || c))
            && (op == OPC_XOR ==> (v <==> b != c))
    ensures var op, v, b, i := Opc(inst), BitAt(After(s, inst, env), k), BitAt(s.regs[Rb(inst)], k), BitAt(Cx16(inst), k);
            && (op == OPC_ANDI ==> (v <==> b && i))
            && (op == OPC_ORI ==> (v <==> b || i))
            && (op == OPC_XORI ==> (v <==> b != i))
            && (op == OPC_LUI ==> (v <==> k >= 16 && BitAt(Cx16(inst), k - 16)))
  {
    hide Opc, Ra, Rb, Rc, C16, Cx16, Switch, InMemory, BitAt, And, Or, Xor;
    var b, c, i := s.regs[Rb(inst)], s.regs[Rc(inst)], Cx16(inst);
    if Opc(inst) in {OPC_AND, OPC_OR, OPC_XOR, OPC_ANDI, OPC_ORI, OPC_XORI, OPC_LUI} {
      RaGets(s, inst, env);
    }
    AndBit(b, c, k);
    OrBit(b, c, k);
    XorBit(b, c, k);
    AndBit(b, i, k);
    OrBit(b, i, k);
    XorBit(b, i, k);
    FieldPowers();
    ProductBit(i, 16, k);
  }

  // The amount of a shift: a constant or a register.
  function ShiftAmount(s: State, inst: u32): nat {
    if Opc(inst) in {OPC_ROLI, OPC_RORI, OPC_SRA, OPC_SHL, OPC_SHR} then Cx12(inst) else s.regs[Rc(inst)]
  }

  // Each shift and rotate, bit by bit, for the amounts the language defines.
  lemma ShiftLaws(s: State, inst: u32, env: Env, k: nat)
    requires InMemory(s, inst) && k < 32 && ShiftAmount(s, inst) < 32
    ensures var op, v, b, n := Opc(inst), BitAt(After(s, inst, env), k), s.regs[Rb(inst)], ShiftAmount(s, inst);
            && (op == OPC_SHL || op == OPC_SHLV ==> (v <==> k >= n && BitAt(b, k - n)))
            && (op == OPC_SHR || op == OPC_SHRV ==> (v <==> k + n < 32 && BitAt(b, k + n)))
            && (op == OPC_SRA || op == OPC_SRAV ==> (v <==> BitAt(b, if k + n < 32 then k + n else 31)))
  {
    hide Opc, Ra, Rb, Rc, Cx12, After, InMemory, BitAt, Rol, Ror, Sra, Shl, Shr;
    var b, n := s.regs[Rb(inst)], ShiftAmount(s, inst);
    if OPC_SRA <= Opc(inst) <= OPC_SHRV {
      RaGets(s, inst, env);
    }
    ShiftBits(b, n, k);
    if k + n >= 32 {
      Pow32();
      BelowPow2(b, 32, k + n);
    }
    SraIsAsr(b, n);
    AsrBits(b, n, k);
  }

  lemma RotateLaws(s: State, inst: u32, env: Env, k: nat)
    requires InMemory(s, inst) && k < 32 && 1 <= ShiftAmount(s, inst) < 32
    ensures var op, v, b, n := Opc(inst), BitAt(After(s, inst, env), k), s.regs[Rb(inst)], ShiftAmount(s, inst);
            && (op == OPC_ROLI || op == OPC_ROL ==> (v <==> BitAt(b, (k + 32 - n) % 32)))
            && (op == OPC_RORI || op == OPC_ROR ==> (v <==> BitAt(b, (k + n) % 32)))
  {
    hide Opc, Ra, Rb, Rc, Cx12, After, InMemory, BitAt, Rol, Ror;
    var b, n := s.regs[Rb(inst)], ShiftAmount(s, inst);
    if Opc(inst) in {OPC_ROLI, OPC_RORI, OPC_ROL, OPC_ROR} {
      RaGets(s, inst, env);
    }
    RolBits(b, n, k);
    RorIsRol(b, n);
    RolBits(b, 32 - n, k);
  }

  // ---- Loads ----

  // An access is refused exactly when one of its bytes is outside memory.
  lemma AccessLaws(s: State, inst: u32)
    ensures var op, a, len := Opc(inst), Signed(s.regs[Rb(inst)]) + C16(inst), |s.mem|;
            InMemory(s, inst)
            <==> && (op in {OPC_LD, OPC_ST, OPC_LH, OPC_LHU, OPC_SH, OPC_LB, OPC_LBU, OPC_SB} ==> 0 <= a < len)
                 && (op in {OPC_LD, OPC_ST, OPC_LH, OPC_LHU, OPC_SH} ==> a + 1 < len)
                 && (op in {OPC_LD, OPC_ST} ==> a + 2 < len && a + 3 < len)
  {
    hide Opc, Rb, C16, Signed;
  }

  // Each load by its value: the bytes at the address, low-order first, zero- or sign-extended.
  lemma LoadLaws(s: State, inst: u32, env: Env)
    requires InMemory(s, inst) && Opc(inst) in {OPC_LD, OPC_LB, OPC_LBU, OPC_LH, OPC_LHU}
    ensures var op, v, a, m := Opc(inst), After(s, inst, env), Signed(s.regs[Rb(inst)]) + C16(inst), s.mem;
            && 0 <= a < |m|
            && (op == OPC_LBU ==> v == m[a])
            && (op == OPC_LB ==> -0x80 <= Signed(v) < 0x80 && Signed(v) % 0x100 == m[a])
            && (op == OPC_LHU ==> a + 1 < |m| && v == (m[a] as int) + 0x100 * (m[a + 1] as int))
            && (op == OPC_LH ==> a + 1 < |m| && -0x8000 <= Signed(v) < 0x8000
                                 && Signed(v) % 0x1_0000 == (m[a] as int) + 0x100 * (m[a + 1] as int))
            && (op == OPC_LD ==> a + 3 < |m| && v == (m[a] as int) + 0x100 * (m[a + 1] as int)
                                                     + 0x1_0000 * (m[a + 2] as int) + 0x100_0000 * (m[a + 3] as int))
  {
    hide Opc, Ra, Rb, C16, Switch, WordOf;
    RaGets(s, inst, env);
    var a, m := Signed(s.regs[Rb(inst)]) + C16(inst), s.mem;
    if Opc(inst) == OPC_LD {
      WordOfSum(m[a], m[a + 1], m[a + 2], m[a + 3]);
    } else if Opc(inst) == OPC_LB {
      SignedWrap(SignExtend(m[a], 0x80));
    } else if Opc(inst) == OPC_LH {
      SignedWrap(SignExtend(HalfAt(m, a), 0x8000));
    }
  }

  // ---- The coprocessor ----

  lemma CoprocessorMoves(s: State, inst: u32, env: Env)
    requires InMemory(s, inst)
    ensures var op, ra, rb, t := Opc(inst), Ra(inst), Rb(inst), Switch(s, inst, env);
            && (op == OPC_MTHI ==> t == s.(cp := s.cp[2 := s.regs[ra]]))
            && (op == OPC_MTLO ==> t == s.(cp := s.cp[3 := s.regs[rb]]))
            && (op == OPC_MFHI ==> t == s.(regs := s.regs[ra := s.cp[2]]))
            && (op == OPC_MFLO ==> t == s.(regs := s.regs[ra := s.cp[3]]))
            && (op == OPC_MFC0 && rb < 4 ==> t == s.(regs := s.regs[ra := s.cp[rb]]))
            && (op == OPC_MTC0 || op == OPC_C0MOV ==> t == if ra < 4 then s.(cp := s.cp[ra := s.regs[rb]]) else s)
  {
    hide Opc, Ra, Rb, Rc;
  }

  // What MTHI puts in HI, MFHI takes out again; and so for LO and the numbered registers.
  lemma MovesRoundTrip(s: State, to: u32, from: u32, e: Env, e': Env)
    requires InMemory(s, to) && InMemory(Switch(s, to, e), from)
    ensures var v := After(Switch(s, to, e), from, e');
            && (Opc(to) == OPC_MTHI && Opc(from) == OPC_MFHI ==> v == s.regs[Ra(to)])
            && (Opc(to) == OPC_MTLO && Opc(from) == OPC_MFLO ==> v == s.regs[Rb(to)])
            && (Opc(to) == OPC_MTC0 && Opc(from) == OPC_MFC0 && Ra(to) == Rb(from) < 4 ==> v == s.regs[Rb(to)])
  {
    hide Opc, Ra, Rb, Switch, InMemory;
    CoprocessorMoves(s, to, e);
    CoprocessorMoves(Switch(s, to, e), from, e');
  }

  // C division: the quotient rounds towards zero, the remainder has the sign of the dividend.
  lemma TruncLaws(a: int, b: int)
    requires b != 0
    ensures var q, r := TruncDiv(a, b), TruncRem(a, b);
            && a == q * b + r
            && (if b < 0 then b < r < -b else -b < r < b)
            && (a >= 0 ==> r >= 0) && (a <= 0 ==> r <= 0)
  {
    hide TruncDiv, TruncRem;
    var m := SignedParts(a, b);
    RemainderIs(a, b);
  }

  lemma SignedParts(a: int, b: int) returns (m: int)
    requires b != 0
    ensures a - TruncDiv(a, b) * b == if a < 0 then -m else m
    ensures 0 <= m < if b < 0 then -b else b
  {
    hide TruncDiv;
    var q, n := Magnitudes(a, b);
    Signs(a, b, q, n, TruncDiv(a, b));
    m := n;
  }

  lemma RemainderIs(a: int, b: int)
    requires b != 0
    ensures a == TruncDiv(a, b) * b + TruncRem(a, b)
  {
    hide TruncDiv;
  }

  lemma Magnitudes(a: int, b: int) returns (q: int, m: int)
    requires b != 0
    ensures (if a < 0 then -a else a) == (if b < 0 then -b else b) * q + m && 0 <= m
    ensures m < if b < 0 then -b else b
    ensures TruncDiv(a, b) == if (a < 0) == (b < 0) then q else -q
  {
    var x: nat, y: nat := if a < 0 then -a else a, if b < 0 then -b else b;
    q, m := x / y, x % y;
  }

  lemma Signs(a: int, b: int, q: int, m: int, t: int)
    requires (if a < 0 then -a else a) == (if b < 0 then -b else b) * q + m
    requires t == if (a < 0) == (b < 0) then q else -q
    ensures a - t * b == if a < 0 then -m else m
  {
    assert (-b) * q == -(b * q) && (-q) * b == -(b * q) && q * b == b * q;
  }

  // Only -2^31 by -1 has a quotient beyond an int.
  lemma TruncFits(a: u32, b: u32)
    requires Divides(a, b)
    ensures Signed(b) != 0
    ensures Fits32(TruncDiv(Signed(a), Signed(b))) && Fits32(TruncRem(Signed(a), Signed(b)))
  {
    hide TruncDiv, TruncRem;
    var x, y := Signed(a), Signed(b);
    TruncLaws(x, y);
    var q, m := Magnitudes(x, y);
    QuotientFits(if x < 0 then -x else x, if y < 0 then -y else y, q, m);
  }

  lemma QuotientFits(x: nat, y: nat, q: int, m: nat)
    requires x == y * q + m && m < y
    ensures 0 <= q <= x && (y > 1 && x > 0 ==> q < x)
  {
    if q < 0 {
      MulMonotone(y, q, -1);
    } else {
      MulMonotone(q, 1, y);
      if y > 1 {
        MulMonotone(q, 2, y);
      }
    }
    assert q * 1 == q && q * 2 == q + q && q * y == y * q;
  }

  // DIV and DIVU leave the quotient in LO and the remainder in HI.
  lemma DivisionLaws(s: State, inst: u32, env: Env)
    requires InMemory(s, inst)
    ensures var cp, a, b := Switch(s, inst, env).cp, s.regs[Ra(inst)], s.regs[Rb(inst)];
            && (Opc(inst) == OPC_DIVU && b != 0 ==> a == (cp[3] as int) * (b as int) + cp[2] && cp[2] < b)
            && (Opc(inst) == OPC_DIV && Divides(a, b) ==>
                  var x, y, q, r := Signed(a), Signed(b), Signed(cp[3]), Signed(cp[2]);
                  && x == q * y + r && (if y < 0 then y < r < -y else -y < r < y)
                  && (x >= 0 ==> r >= 0) && (x <= 0 ==> r <= 0))
  {
    hide Opc, Ra, Rb, Divides, TruncDiv, TruncRem, WordRem, Quotient, Signed, MemAfter, Dest;
    var a, b := s.regs[Ra(inst)], s.regs[Rb(inst)];
    if Opc(inst) == OPC_DIVU && b != 0 {
      UnsignedDivision(a, b);
    } else if Opc(inst) == OPC_DIV && Divides(a, b) {
      TruncFits(a, b);
      TruncLaws(Signed(a), Signed(b));
      SignedWrap(TruncDiv(Signed(a), Signed(b)));
      SignedWrap(TruncRem(Signed(a), Signed(b)));
    }
  }

  lemma UnsignedDivision(a: u32, b: u32)
    requires b != 0
    ensures a == (Quotient(a, b) as int) * (b as int) + WordRem(a, b) && WordRem(a, b) < b
  {
    var q: int, y: int := Quotient(a, b), b;
    assert y * q == q * y;
  }

  // ---- Jumps ----

  // The branches on registers, the calls and the return.
  lemma JumpLaws(s: State, inst: u32, env: Env)
    requires InMemory(s, inst)
    ensures var op, ra, rb, pc, t := Opc(inst), Ra(inst), Rb(inst), s.cp[0], Switch(s, inst, env);
            && (op == OPC_BEQ || op == OPC_BNE ==>
                  var jumps := op == OPC_BEQ <==> s.regs[ra] == s.regs[rb];
                  t == s.(cp := s.cp[0 := AddWords(pc, if jumps then C16(inst) else 0)]))
            && (op == OPC_JMP ==> t == s.(cp := s.cp[0 := AddWords(pc, C24(inst))]))
            && (op == OPC_BAL || op == OPC_JSUB ==>
                  t == s.(regs := s.regs[14 := pc], cp := s.cp[0 := AddWords(pc, C24(inst))]))
            && (op == OPC_JALR ==>
                  t == s.(regs := s.regs[14 := pc], cp := s.cp[0 := if rb == 14 then pc else s.regs[rb]]))
            && (op == OPC_JR_RET ==> t == s.(cp := s.cp[0 := s.regs[14]]))
  {
    hide Opc, Ra, Rb, Rc, C16, C24, HiLo, Wrap;
    assert s.regs[15 := s.regs[15]] == s.regs;
    AddNothing(s.cp[0]);
  }

  lemma AddNothing(pc: u32)
    ensures AddWords(pc, 0) == pc
  {
  }

  // The conditional jumps by N and Z. With both set, which a compare never leaves, only the jumps
  // that allow equality are taken.
  lemma ConditionLaws(s: State, inst: u32, env: Env)
    requires InMemory(s, inst) && OPC_JEQ <= Opc(inst) <= OPC_JGE
    ensures var op, n, z, t := Opc(inst), BitAt(s.regs[15], 0), BitAt(s.regs[15], 1), Switch(s, inst, env);
            var jumps :=
              if n && z then op in {OPC_JLE, OPC_JGE}
              else if z then op in {OPC_JEQ, OPC_JLE, OPC_JGE}
              else if n then op in {OPC_JNE, OPC_JLT, OPC_JLE}
              else op in {OPC_JNE, OPC_JGT, OPC_JGE};
            t == s.(cp := s.cp[0 := AddWords(s.cp[0], if jumps then C24(inst) else 0)])
  {
    hide Opc, Ra, Rb, Rc, C16, C24, HiLo, BitAt, Wrap;
    assert s.regs[15 := s.regs[15]] == s.regs;
    AddNothing(s.cp[0]);
  }

  // A call and a return come back behind the call, if LR was left alone in between.
  lemma CallReturn(s: State, call: u32, e: Env, t: State, ret: u32, e': Env)
    requires InMemory(s, call) && Opc(call) in {OPC_BAL, OPC_JSUB, OPC_JALR}
    requires t.regs[14] == Switch(s, call, e).regs[14] && InMemory(t, ret) && Opc(ret) == OPC_JR_RET
    ensures Switch(t, ret, e').cp[0] == s.cp[0]
  {
    hide Switch, Opc, Ra, Rb, InMemory, C24, C16;
    JumpLaws(s, call, e);
    JumpLaws(t, ret, e');
  }

  // Nothing else moves PC, but a write to coprocessor register 0.
  lemma FallsThrough(s: State, inst: u32, env: Env)
    requires InMemory(s, inst) && !Branches(Opc(inst))
    requires Opc(inst) in {OPC_MTC0, OPC_C0MOV} ==> Ra(inst) != 0
    ensures Switch(s, inst, env).cp[0] == s.cp[0]
  {
    hide Opc, Ra, Rb, Rc, Result, TruncDiv, TruncRem, Divides;
  }

  // ---- The rest ----

  // An API call returns in r3, and may leave any contents in memory.
  lemma ApiLaws(s: State, inst: u32, env: Env)
    requires InMemory(s, inst) && Opc(inst) == OPC_SSC
    ensures var t := Switch(s, inst, env);
            t.regs == s.regs[3 := env.v] && t.cp == s.cp && (|env.mem| == |s.mem| ==> t.mem == env.mem)
  {
    hide Opc, Ra, Rb, Rc;
  }

  // NOP and unknown opcodes do nothing.
  lemma Unchanged(s: State, inst: u32, env: Env)
    requires InMemory(s, inst)
    requires Opc(inst) == OPC_NOP || Opc(inst) == 0x25 || 0x2A <= Opc(inst) <= 0x2F || 0x3D <= Opc(inst) <= 0x40
             || Opc(inst) == 0x45 || 0x4A <= Opc(inst) <= 0x4F || Opc(inst) > OPC_SSC
    ensures Switch(s, inst, env) == s
  {
    hide Opc, Ra, Rb, Rc;
  }

  // ---- Counting leading bits ----

  // How many of the n low bits of x, from the top one down, are zero before the first one.
  function LeadingFrom(x: nat, n: nat): nat {
    if n == 0 || BitAt(x, n - 1) then 0 else 1 + LeadingFrom(x, n - 1)
  }

  function LeadingZeros(x: u32): nat { LeadingFrom(x, 32) }

  function LeadingOnes(x: u32): nat { LeadingFrom(Not(x), 32) }

  // CLZ returns 0 whatever the register, which is right exactly when the top bit is set.
  lemma ClzRight(s: State, inst: u32, env: Env)
    requires InMemory(s, inst) && Opc(inst) == OPC_CLZ
    ensures After(s, inst, env) == 0
    ensures After(s, inst, env) == LeadingZeros(s.regs[Rb(inst)]) <==> s.regs[Rb(inst)] >= 0x8000_0000
  {
    hide BitAt, Opc, Ra, Rb, Switch, InMemory;
    RaGets(s, inst, env);
    TopBit(s.regs[Rb(inst)]);
  }

  // CLO returns the lowest bit, which is right exactly when that bit and the top one are equal and,
  // if they are set, the bit below the top one is clear.
  lemma CloRight(s: State, inst: u32, env: Env)
    requires InMemory(s, inst) && Opc(inst) == OPC_CLO
    ensures After(s, inst, env) <= 1 && (After(s, inst, env) == 1 <==> BitAt(s.regs[Rb(inst)], 0))
    ensures var b := s.regs[Rb(inst)];
            After(s, inst, env) == LeadingOnes(b)
            <==> (BitAt(b, 31) <==> BitAt(b, 0)) && !(BitAt(b, 31) && BitAt(b, 30))
  {
    hide Opc, Ra, Rb, Not, Switch, InMemory;
    RaGets(s, inst, env);
    var b := s.regs[Rb(inst)];
    NotBit(b, 31);
    NotBit(b, 30);
    assert BitAt(b, 0) <==> b % 2 == 1;
    LeadingTwo(Not(b));
  }

  lemma LeadingTwo(x: u32)
    ensures LeadingZeros(x) == 0 <==> BitAt(x, 31)
    ensures LeadingZeros(x) == 1 <==> !BitAt(x, 31) && BitAt(x, 30)
  {
    hide BitAt;
    assert LeadingFrom(x, 31) == if BitAt(x, 30) then 0 else 1 + LeadingFrom(x, 30);
  }

  // CLZ of 1 should be 31, CLO of 0xC0000000 should be 2.
  lemma CountsFail(s: State, inst: u32, env: Env)
    requires InMemory(s, inst)
    ensures Opc(inst) == OPC_CLZ && s.regs[Rb(inst)] == 1
            ==> After(s, inst, env) != LeadingZeros(s.regs[Rb(inst)])
    ensures Opc(inst) == OPC_CLO && s.regs[Rb(inst)] == 0xC000_0000
            ==> After(s, inst, env) != LeadingOnes(s.regs[Rb(inst)])
  {
    if Opc(inst) == OPC_CLZ {
      ClzRight(s, inst, env);
    } else if Opc(inst) == OPC_CLO {
      CloRight(s, inst, env);
      TopBit(s.regs[Rb(inst)]);
    }
  }

  // ---- Wide products ----

  // The 64-bit value of HI and LO.
  function Wide(hi: int, lo: u32): int { W32 * hi + lo }

  // HI and LO after a product: LO right modulo 2^32, HI its sign, or 0 for unsigned operands.
  lemma ProductLaws(s: State, inst: u32, env: Env)
    requires InMemory(s, inst) && (Opc(inst) == OPC_MULT || Opc(inst) == OPC_MULTU)
    ensures var t, a: int, b: int := Switch(s, inst, env), s.regs[Ra(inst)], s.regs[Rb(inst)];
            && t == s.(cp := s.cp[2 := t.cp[2]][3 := t.cp[3]])
            && (t.cp[3] - a * b) % W32 == 0
            && t.cp[2] == if Opc(inst) == OPC_MULT && Signed(t.cp[3]) < 0 then 0xFFFF_FFFF else 0
  {
    hide Opc, Ra, Rb, Rc, Signed;
    var a: int, b: int := s.regs[Ra(inst)], s.regs[Rb(inst)];
    WrapLaw(a * b);
  }

  // MULTU forms the product in 32 bits: HI and LO hold it exactly when it fits there.
  lemma MultuRight(s: State, inst: u32, env: Env)
    requires InMemory(s, inst) && Opc(inst) == OPC_MULTU
    ensures var cp, a, b := Switch(s, inst, env).cp, s.regs[Ra(inst)], s.regs[Rb(inst)];
            Wide(cp[2], cp[3]) == a * b <==> a * b < W32
  {
    hide Opc, Ra, Rb;
    var a: nat, b: nat := s.regs[Ra(inst)], s.regs[Rb(inst)];
    var p := a * b;
    assert Wrap(p) == p <==> p < W32;
  }

  // So does MULT, with the sign of the 32-bit product in HI.
  lemma MultRight(s: State, inst: u32, env: Env)
    requires InMemory(s, inst) && Opc(inst) == OPC_MULT
    ensures var cp, a, b := Switch(s, inst, env).cp, Signed(s.regs[Ra(inst)]), Signed(s.regs[Rb(inst)]);
            Wide(Signed(cp[2]), cp[3]) == a * b <==> Fits32(a * b)
  {
    hide Opc, Ra, Rb;
    var a, b := s.regs[Ra(inst)], s.regs[Rb(inst)];
    ProductWraps(a, b);
    SignedWrap(Signed(a) * Signed(b));
  }

  // 65536 * 65536 gives 0 in both.
  lemma WideProductsFail(s: State, inst: u32, env: Env)
    requires InMemory(s, inst) && (Opc(inst) == OPC_MULT || Opc(inst) == OPC_MULTU)
    requires s.regs[Ra(inst)] == 0x1_0000 && s.regs[Rb(inst)] == 0x1_0000
    ensures Switch(s, inst, env).cp[2] == Switch(s, inst, env).cp[3] == 0
  {
  }
}
