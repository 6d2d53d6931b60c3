/** The inline functions of `fenv.h` and the functions of `i387/fenv.c`, written
    instruction by instruction, each proved to do what `FenvModel` says. */
module Fenv {
  import opened Words
  import opened FenvModel
  import opened FenvRuns

  lemma RoundLoads(m: Machine, x: Word32, round: Word32)
    requires Loadable(m, x) && round <= ROUND_MASK
    ensures Loadable(m, (x - Shl(ROUND_MASK, SSE_ROUND_SHIFT)) + Shl(round, SSE_ROUND_SHIFT))
  {}

  lemma MasksLoad(m: Machine, x: Word32, k: Word32)
    requires Loadable(m, x) && k <= FE_ALL_EXCEPT
    ensures Loadable(m, x + Shl(k, SSE_EMASK_SHIFT))
  {}

  /** FLDCW after FNSTENV puts back what the masking took away. */
  lemma Unmasking(control: Word16, status: Word16)
    requires status == Settle(control, status)
    ensures Settle(control, status - SUMMARY) == status
  {}

  lemma HeldIsSettled(control: Word16, status: Word16)
    ensures status - CLEX == Settle(control, status - CLEX)
    ensures (status - SUMMARY) - CLEX == status - CLEX
  {}

  class Process {
    const machine: Machine
    var cpu: Cpu
    /** The `fenv_t` objects the program has filled, oldest first. */
    var saved: seq<Env>

    ghost function State(): Proc
      reads this
    {
      Proc(cpu, saved)
    }

    ghost predicate Valid()
      reads this
    {
      Ok(machine, cpu)
    }

    /** A process may start with any registers the hardware allows. */
    constructor (m: Machine, s: Cpu)
      requires Ok(m, s)
      ensures Valid() && machine == m && State() == Proc(s, [DFL_ENV])
    {
      machine := m;
      cpu := s;
      saved := [DFL_ENV];
    }

    // -------------------------------------------------------------- instructions
    // Each is the instruction completing. A `requires` names the state in which it
    // would fault; where a function can meet that state it returns the fault.

    method Fldcw(cw: Word16)
      requires !Pending(cpu)
      modifies this`cpu
      ensures cpu == old(cpu).(control := cw, status := Settle(cw, old(cpu.status)))
    {
      cpu := cpu.(control := cw, status := Settle(cw, cpu.status));
    }

    method Fldenv(env: Env)
      requires !Pending(cpu)
      modifies this`cpu
      ensures cpu == LoadEnv(old(cpu), env)
    {
      cpu := LoadEnv(cpu, env);
    }

    method Fnclex()
      modifies this`cpu
      ensures cpu == old(cpu).(status := old(cpu.status) - CLEX)
    {
      cpu := cpu.(status := cpu.status - CLEX);
    }

    /** Stores the environment, then masks every exception. */
    method Fnstenv() returns (env: Env)
      modifies this`cpu
      ensures env == StoredEnv(old(cpu)) && !Pending(cpu)
      ensures cpu == old(cpu).(control := old(cpu.control) + FE_ALL_EXCEPT,
                               status := old(cpu.status) - SUMMARY)
    {
      env := StoredEnv(cpu);
      cpu := cpu.(control := cpu.control + FE_ALL_EXCEPT,
                  status := Settle(cpu.control + FE_ALL_EXCEPT, cpu.status));
    }

    method Stmxcsr() returns (x: Word32)
      requires HasSse(machine)
      ensures x == cpu.mxcsr
    {
      x := cpu.mxcsr;
    }

    method Ldmxcsr(x: Word32)
      requires HasSse(machine) && Loadable(machine, x)
      modifies this`cpu
      ensures cpu == old(cpu).(mxcsr := x)
    {
      cpu := cpu.(mxcsr := x);
    }

    /** POPFL: the ID flag can change only on a processor that has CPUID. */
    method SetFl(x: Word32)
      modifies this`cpu
      ensures cpu == old(cpu).(eflags := if machine.cpuid then x
                                         else (x - {EFLAGS_ID}) + (old(cpu.eflags) * {EFLAGS_ID}))
    {
      cpu := cpu.(eflags := if machine.cpuid then x
                            else (x - {EFLAGS_ID}) + (cpu.eflags * {EFLAGS_ID}));
    }

    method CpuidDx() returns (dx: Word32)
      requires machine.cpuid
      ensures dx == machine.features
    {
      dx := machine.features;
    }

    // -------------------------------------------------------------- SSE detection

    /** `__test_sse`: fills the cache whatever it held. */
    method TestSse() returns (yes: bool)
      modifies this`cpu
      ensures yes == HasSse(machine) && cpu == Probe(machine, old(cpu).(hasSse := Unknown))
    {
      var flag := cpu.eflags;
      var nflag := Flip(flag, EFLAGS_ID);
      SetFl(nflag);
      assert (nflag - {EFLAGS_ID}) + (flag * {EFLAGS_ID}) == flag;
      assert EFLAGS_ID in flag <==> EFLAGS_ID !in nflag;
      nflag := cpu.eflags;
      if flag != nflag {
        var dxFeatures := CpuidDx();
        if CPUID_SSE in dxFeatures {
          cpu := cpu.(hasSse := Yes);
          return true;
        }
      }
      cpu := cpu.(hasSse := No);
      return false;
    }

    /** `__HAS_SSE()`. */
    method SseAvailable() returns (yes: bool)
      requires CacheOk(machine, cpu)
      modifies this`cpu
      ensures yes == HasSse(machine) && cpu == Probe(machine, old(cpu))
    {
      yes := cpu.hasSse == Yes;
      if !yes && cpu.hasSse == Unknown {
        yes := TestSse();
      }
    }

    // -------------------------------------------------------------- fenv.h

    method FeClearExcept(excepts: Word32) returns (r: Word32)
      requires Valid()
      modifies this`cpu
      ensures Valid() && r == {}
      ensures cpu == ClearExcept(machine, old(cpu), excepts)
    {
      if excepts == FE_ALL_EXCEPT {
        Fnclex();
      } else {
        var env := Fnstenv();
        env := env.(status := env.status - excepts);
        Fldenv(env);
      }
      var sse := SseAvailable();
      if sse {
        var m := Stmxcsr();
        m := m - excepts;
        Ldmxcsr(m);
      }
      return {};
    }

    method FeTestExcept(excepts: Word32) returns (r: Word32)
      requires Valid()
      modifies this`cpu
      ensures Valid() && cpu == Probe(machine, old(cpu))
      ensures r == Flags(machine, cpu) * excepts
    {
      var statusWord := cpu.status;
      var sse := SseAvailable();
      var m: Word32 := {};
      if sse {
        m := Stmxcsr();
      }
      return (statusWord + m) * excepts;
    }

    method FeGetExceptFlag(excepts: Word32) returns (r: Word32, flags: Word16)
      requires Valid()
      modifies this`cpu
      ensures Valid() && cpu == Probe(machine, old(cpu)) && r == {}
      ensures flags == Lo16(Flags(machine, cpu) * excepts)
    {
      var statusWord := cpu.status;
      var sse := SseAvailable();
      var m: Word32 := {};
      if sse {
        m := Stmxcsr();
      }
      flags := Lo16((m + statusWord) * excepts);
      assert m + statusWord == Flags(machine, cpu);
      r := {};
    }

    method FeGetRound() returns (round: Word32)
      ensures round == GetRound(cpu)
    {
      var cw := cpu.control;
      round := cw * ROUND_MASK;
    }

    method FeSetRound(round: Word32) returns (r: Result)
      requires Valid()
      modifies this`cpu
      ensures Valid() && (cpu, r) == SetRound(machine, old(cpu), round)
    {
      if round - ROUND_MASK != {} {
        return Done(ONES);
      }
      var cw := cpu.control;
      cw := cw - ROUND_MASK;
      cw := cw + Lo16(round);
      if Pending(cpu) { return Trap(MathFault); }
      Fldcw(cw);
      var sse := SseAvailable();
      if sse {
        var m := Stmxcsr();
        m := m - Shl(ROUND_MASK, SSE_ROUND_SHIFT);
        m := m + Shl(round, SSE_ROUND_SHIFT);
        RoundLoads(machine, cpu.mxcsr, round);
        Ldmxcsr(m);
      }
      return Done({});
    }

    method FeSetEnv(envp: Env) returns (r: Result)
      requires Valid()
      modifies this`cpu
      ensures Valid() && (cpu, r) == SetEnv(machine, old(cpu), envp)
    {
      var env := envp;
      var m := GetMxcsr(env);
      env := SetMxcsr(env, ONES);
      if Pending(cpu) { return Trap(MathFault); }
      Fldenv(env);
      var sse := SseAvailable();
      if sse {
        if !Loadable(machine, m) { return Trap(GeneralProtection); }
        Ldmxcsr(m);
      }
      return Done({});
    }

    method FeGetExcept() returns (excepts: Word32)
      ensures excepts == GetExcept(cpu)
    {
      var cw := cpu.control;
      excepts := (ONES - cw) * FE_ALL_EXCEPT;
    }

    // -------------------------------------------------------------- fenv.c

    method FeSetExceptFlag(flags: Word16, excepts: Word32) returns (r: Word32)
      requires Valid() && excepts <= FE_ALL_EXCEPT
      modifies this`cpu
      ensures Valid() && r == {}
      ensures cpu == SetExceptFlag(machine, old(cpu), flags, excepts)
    {
      var env := Fnstenv();
      env := env.(status := env.status - excepts);
      env := env.(status := env.status + (flags * excepts));
      Fldenv(env);
      var sse := SseAvailable();
      if sse {
        var m := Stmxcsr();
        m := m - excepts;
        m := m + (flags * excepts);
        Ldmxcsr(m);
      }
      return {};
    }

    method FeRaiseExcept(excepts: Word32) returns (r: Result)
      requires Valid() && excepts <= FE_ALL_EXCEPT
      modifies this`cpu
      ensures Valid() && (cpu, r) == RaiseExcept(machine, old(cpu), excepts)
    {
      var ex := Lo16(excepts);
      var _ := FeSetExceptFlag(ex, excepts);
      if Pending(cpu) { return Trap(MathFault); }  // fwait
      return Done({});
    }

    method FeGetEnv() returns (r: Word32, env: Env)
      requires Valid()
      modifies this`cpu
      ensures Valid() && r == {}
      ensures cpu == Probe(machine, old(cpu)) && env == EnvOf(machine, old(cpu))
    {
      var cw := cpu.control;
      env := Fnstenv();
      var sse := SseAvailable();
      if sse {
        var m := Stmxcsr();
        env := SetMxcsr(env, m);
      }
      Unmasking(cw, old(cpu.status));
      Fldcw(cw);
      r := {};
    }

    method FeHoldExcept() returns (r: Word32, env: Env)
      requires Valid()
      modifies this`cpu
      ensures Valid() && r == {}
      ensures cpu == HoldExcept(machine, old(cpu)) && env == EnvOf(machine, old(cpu))
    {
      env := Fnstenv();
      Fnclex();
      HeldIsSettled(cpu.control, old(cpu.status));
      var sse := SseAvailable();
      if sse {
        var m := Stmxcsr();
        env := SetMxcsr(env, m);
        MasksLoad(machine, m - FE_ALL_EXCEPT, FE_ALL_EXCEPT);
        m := m - FE_ALL_EXCEPT;
        m := m + Shl(FE_ALL_EXCEPT, SSE_EMASK_SHIFT);
        Ldmxcsr(m);
      }
      r := {};
    }

    method FeUpdateEnv(envp: Env) returns (r: Result)
      requires Valid()
      modifies this`cpu
      ensures Valid() && (cpu, r) == UpdateEnv(machine, old(cpu), envp)
    {
      var statusWord := cpu.status;
      var sse := SseAvailable();
      var m: Word32 := {};
      if sse {
        m := Stmxcsr();
      }
      r := FeSetEnv(envp);
      if r.Trap? { return; }
      assert m + statusWord == Flags(machine, old(cpu));
      r := FeRaiseExcept((m + statusWord) * FE_ALL_EXCEPT);
    }

    /** How `feenableexcept` and `fedisableexcept` both begin. */
    method ReadMasks() returns (cw: Word16, m: Word32, omask: Word32)
      requires Valid()
      modifies this`cpu
      ensures cpu == Probe(machine, old(cpu)) && cw == cpu.control
      ensures HasSse(machine) ==> m == cpu.mxcsr
      ensures ONES - omask == OldEnabled(machine, old(cpu))
    {
      cw := cpu.control;
      var sse := SseAvailable();
      m := {};
      if sse {
        m := Stmxcsr();
      }
      omask := (cw + Shr(m, SSE_EMASK_SHIFT)) * FE_ALL_EXCEPT;
      assert !HasSse(machine) ==> cw + Shr(m, SSE_EMASK_SHIFT) == cw;
    }

    method FeEnableExcept(mask: Word32) returns (r: Result)
      requires Valid()
      modifies this`cpu
      ensures Valid() && (cpu, r) == EnableExcept(machine, old(cpu), mask)
    {
      var k := mask * FE_ALL_EXCEPT;
      var cw, m, omask := ReadMasks();
      cw := cw - k;
      if Pending(cpu) { return Trap(MathFault); }
      Fldcw(cw);
      var sse := SseAvailable();
      if sse {
        m := m - Shl(k, SSE_EMASK_SHIFT);
        Ldmxcsr(m);
      }
      return Done(ONES - omask);
    }

    method FeDisableExcept(mask: Word32) returns (r: Result)
      requires Valid()
      modifies this`cpu
      ensures Valid() && (cpu, r) == DisableExcept(machine, old(cpu), mask)
    {
      var k := mask * FE_ALL_EXCEPT;
      var cw, m, omask := ReadMasks();
      cw := cw + k;
      if Pending(cpu) { return Trap(MathFault); }
      Fldcw(cw);
      var sse := SseAvailable();
      if sse {
        MasksLoad(machine, m, k);
        m := m + Shl(k, SSE_EMASK_SHIFT);
        Ldmxcsr(m);
      }
      return Done(ONES - omask);
    }

    // -------------------------------------------------------------- programs

    /** One step of a program. */
    method Perform(c: Call) returns (r: Result)
      requires Valid() && ValidCall(c)
      modifies this
      ensures Valid() && (State(), r) == Step(machine, old(State()), c)
    {
      var v: Word32, env: Env, flags: Word16;
      r := Done({});
      match c
      case Feclearexcept(e) => v := FeClearExcept(e);
      case Fegetexceptflag(e) => v, flags := FeGetExceptFlag(e); r := Done(flags);
      case Fesetexceptflag(f, e) => v := FeSetExceptFlag(f, e);
      case Feraiseexcept(e) => r := FeRaiseExcept(e);
      case Fetestexcept(e) => v := FeTestExcept(e); r := Done(v);
      case Fegetround => v := FeGetRound(); r := Done(v);
      case Fesetround(x) => r := FeSetRound(x);
      case Fegetenv => v, env := FeGetEnv(); saved := saved + [env];
      case Feholdexcept => v, env := FeHoldExcept(); saved := saved + [env];
      case Fesetenv(i) => if i < |saved| { r := FeSetEnv(saved[i]); } else { r := Trap(Undefined); }
      case Feupdateenv(i) => if i < |saved| { r := FeUpdateEnv(saved[i]); } else { r := Trap(Undefined); }
      case Feenableexcept(k) => r := FeEnableExcept(k);
      case Fedisableexcept(k) => r := FeDisableExcept(k);
      case Fegetexcept => v := FeGetExcept(); r := Done(v);
      case X87Op(_, _, _, _) =>
        var o := X87(cpu, c);
        cpu, r := o.0, o.1;
      case SseOp(x) =>
        var o := Sse(machine, cpu, x);
        cpu, r := o.0, o.1;
    }

    /** A program, up to its end or its first fault. */
    method Execute(calls: seq<Call>) returns (values: seq<Word32>, r: Result)
      requires Valid() && ValidCalls(calls)
      modifies this
      ensures Valid() && Run(State(), values, r) == Exec(machine, old(State()), calls)
    {
      values, r := [], Done({});
      var i := 0;
      while i < |calls|
        invariant 0 <= i <= |calls| && Valid()
        invariant var rest := Exec(machine, State(), calls[i..]);
                  Exec(machine, old(State()), calls) == Run(rest.proc, values + rest.values, rest.result)
      {
        assert calls[i..][0] == calls[i] && calls[i..][1..] == calls[i + 1..];
        r := Perform(calls[i]);
        if r.Trap? { return; }
        values := values + [r.value];
        i := i + 1;
      }
      r := Done({});
    }
  }
}
