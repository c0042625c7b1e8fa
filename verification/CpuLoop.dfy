// run_loop of simulator/cpu.c as a function: fetch at PC, stack check, switch, return test. What holds
// over whole runs, whatever program is in memory.
module CpuLoop {
  import opened Bits
  import opened Bytes
  import opened Shifts
  import opened Opcodes
  import opened Status
  import opened CpuStep

  // How the loop ends: the stack ran out; PC became 0 and r2 is the result; a fetch, load or store
  // left memory; or it is still running when the inputs at hand are used up.
  datatype Outcome = StackOverflow | Returned(r2: u32) | Fault | Running

  predicate CanFetch(s: State) {
    0 <= Signed(s.cp[0]) && Signed(s.cp[0]) + 4 <= |s.mem|
  }

  // The instruction at PC.
  function Fetched(s: State): u32
    requires CanFetch(s)
  {
    WordAt(s.mem, Signed(s.cp[0]))
  }

  function Moved(s: State): State {
    s.(cp := s.cp[0 := AddWords(s.cp[0], 4)])
  }

  // One whole turn of the loop is possible.
  predicate Goes(s: State, spEnd: u32) {
    CanFetch(s) && s.regs[13] > spEnd && InMemory(s, Fetched(s))
  }

  function Turn(s: State, env: Env): State
    requires CanFetch(s) && InMemory(s, Fetched(s))
  {
    Switch(Moved(s), Fetched(s), env)
  }

  // The loop; every turn takes one of envs.
  function Loop(s: State, spEnd: u32, envs: seq<Env>): (State, Outcome)
    decreases |envs|
  {
    if envs == [] then (s, Running)
    else if !CanFetch(s) then (s, Fault)
    else if s.regs[13] <= spEnd then (Moved(s), StackOverflow)
    else if !InMemory(s, Fetched(s)) then (Moved(s), Fault)
    else
      var t := Turn(s, envs[0]);
      if t.cp[0] == 0 then (t, Returned(t.regs[2])) else Loop(t, spEnd, envs[1..])
  }

  // A fetch is refused exactly when one of its four bytes is outside memory; else it reads them
  // low-order first, and PC moves on by four.
  lemma FetchLaws(s: State)
    ensures var a, len := Signed(s.cp[0]), |s.mem|;
            CanFetch(s) <==> 0 <= a < len && a + 1 < len && a + 2 < len && a + 3 < len
    ensures CanFetch(s) ==>
              var a, m := Signed(s.cp[0]), s.mem;
              Fetched(s) == (m[a] as int) + 0x100 * (m[a + 1] as int) + 0x1_0000 * (m[a + 2] as int)
                            + 0x100_0000 * (m[a + 3] as int)
    ensures Moved(s) == s.(cp := s.cp[0 := (s.cp[0] as int + 4) % W32])
  {
    hide WordOf, Signed;
    if CanFetch(s) {
      var a, m := Signed(s.cp[0]), s.mem;
      WordOfSum(m[a], m[a + 1], m[a + 2], m[a + 3]);
    }
  }

  // ---- What a run is ----

  // As many turns as there are inputs, for as long as the code and its operands are in memory.
  function Run(s: State, envs: seq<Env>): State
    decreases |envs|
  {
    if envs == [] || !CanFetch(s) || !InMemory(s, Fetched(s)) then s else Run(Turn(s, envs[0]), envs[1..])
  }

  // The state in which the loop stops with outcome o, if it reached s.
  ghost predicate Stops(s: State, spEnd: u32, o: Outcome, final: State) {
    match o
    case StackOverflow => CanFetch(s) && s.regs[13] <= spEnd && final == Moved(s)
    case Returned(r2) => s.cp[0] == 0 && final == s && r2 == s.regs[2]
    case Fault =>
      || (!CanFetch(s) && final == s)
      || (CanFetch(s) && s.regs[13] > spEnd && !InMemory(s, Fetched(s)) && final == Moved(s))
    case Running => final == s
  }

  // The loop goes k turns, each of them possible and none before the last bringing PC to 0, and stops
  // there for the reason it gives.
  lemma {:induction false} LoopIsRun(s: State, spEnd: u32, envs: seq<Env>) returns (k: nat)
    ensures k <= |envs|
    ensures var (final, o) := Loop(s, spEnd, envs);
            && Stops(Run(s, envs[..k]), spEnd, o, final)
            && (o.Running? <==> k == |envs| && (k > 0 ==> Run(s, envs[..k]).cp[0] != 0))
            && (o.Returned? ==> k > 0)
    ensures forall j :: 0 <= j < k ==> Goes(Run(s, envs[..j]), spEnd)
    ensures forall j :: 0 < j < k ==> Run(s, envs[..j]).cp[0] != 0
    decreases |envs|
  {
    hide Turn, CanFetch, Fetched, InMemory;
    if envs == [] || !CanFetch(s) || s.regs[13] <= spEnd || !InMemory(s, Fetched(s)) {
      k := 0;
    } else {
      var t := Turn(s, envs[0]);
      if t.cp[0] == 0 {
        k := 1;
        assert Run(s, envs[..1]) == Run(t, []);
      } else {
        var l := LoopIsRun(t, spEnd, envs[1..]);
        k := l + 1;
        forall j | 0 <= j <= k
          ensures Run(s, envs[..j]) == if j == 0 then s else Run(t, envs[1..][..j - 1])
        {
          assert j > 0 ==> envs[..j][1..] == envs[1..][..j - 1];
        }
      }
    }
  }

  // Every instruction the loop executes satisfies P.
  predicate Every(s: State, spEnd: u32, envs: seq<Env>, P: u32 -> bool)
    decreases |envs|
  {
    envs == [] || !Goes(s, spEnd)
    || (P(Fetched(s)) && (Turn(s, envs[0]).cp[0] == 0 || Every(Turn(s, envs[0]), spEnd, envs[1..], P)))
  }

  // ---- Flags over whole runs ----

  // However the loop ends, N and Z are not both set if they were not to begin with and no executed
  // instruction names r15 as its destination.
  lemma {:induction false} NeverBoth(s: State, spEnd: u32, envs: seq<Env>)
    requires NotBoth(s.regs[15]) && Every(s, spEnd, envs, SparesStatus)
    ensures NotBoth(Loop(s, spEnd, envs).0.regs[15])
    decreases |envs|
  {
    hide NotBoth, Fetched, Switch, Opc, Operand;
    if envs != [] && Goes(s, spEnd) {
      StepNotBoth(Moved(s), Fetched(s), envs[0]);
      if Turn(s, envs[0]).cp[0] != 0 {
        NeverBoth(Turn(s, envs[0]), spEnd, envs[1..]);
      }
    }
  }

  // N and Z stay as they are while the loop executes nothing that compares or names r15.
  lemma {:induction false} RunKeepsNZ(s: State, spEnd: u32, envs: seq<Env>)
    requires Every(s, spEnd, envs, SparesFlags)
    ensures NZ(Loop(s, spEnd, envs).0.regs[15]) == NZ(s.regs[15])
    decreases |envs|
  {
    hide NZ, Fetched, Switch, Opc, Operand;
    if envs != [] && Goes(s, spEnd) {
      OnlyCompareSetsNZ(Moved(s), Fetched(s), envs[0]);
      if Turn(s, envs[0]).cp[0] != 0 {
        RunKeepsNZ(Turn(s, envs[0]), spEnd, envs[1..]);
      }
    }
  }

  // A loop still running goes on from the state it reached.
  lemma {:induction false} LoopJoin(s: State, spEnd: u32, envs: seq<Env>, more: seq<Env>)
    requires Loop(s, spEnd, envs).1.Running?
    ensures Loop(s, spEnd, envs + more) == Loop(Loop(s, spEnd, envs).0, spEnd, more)
    decreases |envs|
  {
    hide Turn, CanFetch, Fetched, InMemory;
    if envs == [] {
      assert envs + more == more;
    } else {
      assert (envs + more)[0] == envs[0] && (envs + more)[1..] == envs[1..] + more;
      LoopJoin(Turn(s, envs[0]), spEnd, envs[1..], more);
    }
  }

  // ---- Compare, run, jump ----

  // The loop starts with a compare, runs through instructions that neither compare nor name r15, and
  // comes, with one input left, to a conditional jump that can rely on the flags.
  ghost predicate ComparedJump(s: State, spEnd: u32, envs: seq<Env>) {
    && |envs| >= 2 && Goes(s, spEnd) && Opc(Fetched(s)) == OPC_CMP
    && var c, mid := Turn(s, envs[0]), envs[1..|envs| - 1];
       var (t, o) := Loop(c, spEnd, mid);
       && o.Running? && Every(c, spEnd, mid, SparesFlags)
       && Goes(t, spEnd) && OPC_JEQ <= Opc(Fetched(t)) <= OPC_JGE
       && Reliable(Opc(Fetched(t)), LeftOf(s), RightOf(s))
  }

  // The signed values compared.
  function LeftOf(s: State): int
    requires CanFetch(s)
  {
    Signed(s.regs[Ra(Fetched(s))])
  }

  function RightOf(s: State): int
    requires CanFetch(s)
  {
    Signed(s.regs[Rb(Fetched(s))])
  }

  // Behind the jump, or further on by its offset if the relation it names held when compared.
  function JumpTarget(s: State, spEnd: u32, envs: seq<Env>): u32
    requires ComparedJump(s, spEnd, envs)
  {
    var t := Loop(Turn(s, envs[0]), spEnd, envs[1..|envs| - 1]).0;
    var jump := Fetched(t);
    AddWords(Moved(t).cp[0], if Relation(Opc(jump), LeftOf(s), RightOf(s)) then C24(jump) else 0)
  }

  lemma CompareTurn(s: State, env: Env)
    requires CanFetch(s) && Opc(Fetched(s)) == OPC_CMP
    ensures InMemory(s, Fetched(s))
    ensures var inst, t := Fetched(s), Turn(s, env);
            && t.regs[15] == CmpFlags(s.regs[15], s.regs[Ra(inst)], s.regs[Rb(inst)])
            && t.cp[0] == AddWords(s.cp[0], 4) != 0
  {
    hide Opc, Ra, Rb, Fetched, CmpFlags, OverflowFlag, MemAfter;
    StatusAfter(Moved(s), Fetched(s), env);
  }

  lemma JumpTurn(t: State, env: Env)
    requires CanFetch(t) && InMemory(t, Fetched(t)) && OPC_JEQ <= Opc(Fetched(t)) <= OPC_JGE
    ensures Turn(t, env).cp[0]
            == AddWords(Moved(t).cp[0], if Taken(Opc(Fetched(t)), t.regs[15]) then C24(Fetched(t)) else 0)
  {
    hide Opc, Fetched, Taken, C24, C16, MemAfter, Dest, WriteDest;
  }

  lemma SameTaken(op: nat, sw: u32, sw': u32)
    requires NZ(sw) == NZ(sw')
    ensures Taken(op, sw) <==> Taken(op, sw')
  {
  }

  // The jump goes where the relation between the compared registers sends it.
  lemma CompareRunJump(s: State, spEnd: u32, envs: seq<Env>)
    requires ComparedJump(s, spEnd, envs)
    ensures Loop(s, spEnd, envs).0.cp[0] == JumpTarget(s, spEnd, envs)
  {
    hide Turn, Taken, Relation, CmpFlags, NZ, Fetched, InMemory, CanFetch, Opc, Ra, Rb, C24, Every, Reliable;
    var n := |envs| - 1;
    var c, mid := Turn(s, envs[0]), envs[1..n];
    var t := Loop(c, spEnd, mid).0;
    var op := Opc(Fetched(t));
    var a, b := s.regs[Ra(Fetched(s))], s.regs[Rb(Fetched(s))];
    CompareTurn(s, envs[0]);
    assert envs[1..] == mid + [envs[n]];
    LoopJoin(c, spEnd, mid, [envs[n]]);
    assert Loop(s, spEnd, envs) == Loop(t, spEnd, [envs[n]]);
    RunKeepsNZ(c, spEnd, mid);
    JumpAfterCompare(op, s.regs[15], a, b);
    SameTaken(op, t.regs[15], CmpFlags(s.regs[15], a, b));
    JumpTurn(t, envs[n]);
    LastTurn(t, spEnd, envs[n]);
  }

  lemma LastTurn(t: State, spEnd: u32, env: Env)
    requires Goes(t, spEnd)
    ensures Loop(t, spEnd, [env]).0 == Turn(t, env)
  {
    hide Turn, Fetched, InMemory, CanFetch;
    assert [env][1..] == [];
  }
}
