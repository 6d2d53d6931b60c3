/** Laws of the floating-point environment that span several calls. */
module FenvLaws {
  import opened Words
  import opened FenvModel
  import opened FenvRuns
  import opened FenvTheorems

  // ---------------------------------------------------------------- runs, composed

  lemma {:induction false} ExecAppend(m: Machine, p: Proc, xs: seq<Call>, ys: seq<Call>)
    ensures var r := Exec(m, p, xs);
            Exec(m, p, xs + ys) ==
              if r.result.Trap? then r
              else Run(Exec(m, r.proc, ys).proc, r.values + Exec(m, r.proc, ys).values,
                       Exec(m, r.proc, ys).result)
    decreases |xs|
  {
    if xs == [] {
      assert xs + ys == ys;
    } else {
      var (p', r) := Step(m, p, xs[0]);
      assert (xs + ys)[0] == xs[0] && (xs + ys)[1..] == xs[1..] + ys;
      if r.Done? {
        ExecAppend(m, p', xs[1..], ys);
        var a, b := Exec(m, p', xs[1..]).values, Exec(m, Exec(m, p', xs[1..]).proc, ys).values;
        assert [r.value] + (a + b) == ([r.value] + a) + b;
      }
    }
  }

  /** A run that ends in one more call. */
  lemma ExecThen(m: Machine, p: Proc, xs: seq<Call>, c: Call)
    requires Exec(m, p, xs).result.Done?
    ensures var (q, r) := Step(m, Exec(m, p, xs).proc, c);
            && Exec(m, p, xs + [c]).proc == q
            && Exec(m, p, xs + [c]).result == (if r.Trap? then r else Done({}))
  {
    ExecAppend(m, p, xs, [c]);
  }

  lemma ExecPrefixDone(m: Machine, p: Proc, xs: seq<Call>, ys: seq<Call>)
    requires Exec(m, p, xs + ys).result.Done?
    ensures Exec(m, p, xs).result.Done?
  {
    ExecAppend(m, p, xs, ys);
  }

  /** Saved environments are never changed, only added to. */
  lemma {:induction false} SavedOnlyGrows(m: Machine, p: Proc, calls: seq<Call>)
    ensures p.saved <= Exec(m, p, calls).proc.saved
    decreases |calls|
  {
    if calls != [] && Step(m, p, calls[0]).1.Done? {
      SavedOnlyGrows(m, Step(m, p, calls[0]).0, calls[1..]);
    }
  }

  // ---------------------------------------------------------------- fegetenv and fesetenv

  /** The registers that make up the floating-point environment. */
  predicate SameEnvironment(m: Machine, s: Cpu, t: Cpu) {
    && s.control == t.control && s.status == t.status && s.tag == t.tag && s.pointers == t.pointers
    && (HasSse(m) ==> s.mxcsr == t.mxcsr)
  }

  /** `fesetenv(p)` forgets everything but `*p`: two processes that both complete it on
      equal images have the same environment, whatever they did before. */
  lemma SetEnvForgets(m: Machine, p: Proc, q: Proc, xs: seq<Call>, ys: seq<Call>, i: nat, j: nat)
    requires Exec(m, p, xs + [Fesetenv(i)]).result.Done?
    requires Exec(m, q, ys + [Fesetenv(j)]).result.Done?
    requires var pp, qq := Exec(m, p, xs).proc, Exec(m, q, ys).proc;
             i < |pp.saved| && j < |qq.saved| && pp.saved[i] == qq.saved[j]
    ensures SameEnvironment(m, Exec(m, p, xs + [Fesetenv(i)]).proc.cpu, Exec(m, q, ys + [Fesetenv(j)]).proc.cpu)
  {
    ExecPrefixDone(m, p, xs, [Fesetenv(i)]);
    ExecPrefixDone(m, q, ys, [Fesetenv(j)]);
    ExecThen(m, p, xs, Fesetenv(i));
    ExecThen(m, q, ys, Fesetenv(j));
    var pp, qq := Exec(m, p, xs).proc, Exec(m, q, ys).proc;
    SameImage(m, pp.cpu, qq.cpu, pp.saved[i]);
  }

  lemma SameImage(m: Machine, s: Cpu, t: Cpu, e: Env)
    requires SetEnv(m, s, e).1.Done? && SetEnv(m, t, e).1.Done?
    ensures SameEnvironment(m, SetEnv(m, s, e).0, SetEnv(m, t, e).0)
  {}

  lemma SetEnvUndoesGetEnv(m: Machine, s: Cpu, t: Cpu)
    requires CpuInv(m, s) && !Pending(t)
    ensures SameEnvironment(m, SetEnv(m, t, EnvOf(m, s)).0, s)
    ensures SetEnv(m, t, EnvOf(m, s)).1 == Done({})
  {}

  /** Save, run anything, restore: every register is back, on a machine with SSE or
      without; `fegetenv` itself disturbs nothing although FNSTENV masks exceptions. */
  lemma RestoreAfterRun(m: Machine, p: Proc, calls: seq<Call>)
    requires Inv(m, p) && ValidCalls(calls)
    requires Exec(m, p, [Fegetenv] + calls + [Fesetenv(|p.saved|)]).result.Done?
    ensures SameEnvironment(m, Exec(m, p, [Fegetenv] + calls + [Fesetenv(|p.saved|)]).proc.cpu, p.cpu)
    ensures SameEnvironment(m, Exec(m, p, [Fegetenv]).proc.cpu, p.cpu)
  {
    var p1 := Step(m, p, Fegetenv).0;
    var put := Fesetenv(|p.saved|);
    assert [Fegetenv] + calls + [put] == [Fegetenv] + (calls + [put]);
    ExecAppend(m, p, [Fegetenv], calls + [put]);
    ExecAppend(m, p1, calls, [put]);
    var p2 := Exec(m, p1, calls).proc;
    SavedOnlyGrows(m, p1, calls);
    assert p2.saved[|p.saved|] == p1.saved[|p.saved|] == EnvOf(m, p.cpu);
    SetEnvUndoesGetEnv(m, p.cpu, p2.cpu);
  }

  /** Loading `FE_DFL_ENV` brings the units into agreement from any state at all. */
  lemma DefaultEstablishes(m: Machine, s: Cpu)
    requires Ok(m, s) && !Pending(s)
    ensures EnvInv(m, DFL_ENV)
    ensures CpuInv(m, SetEnv(m, s, DFL_ENV).0) && SetEnv(m, s, DFL_ENV).1 == Done({})
    ensures View(m, SetEnv(m, s, DFL_ENV).0) == C99({}, {}, {})
  {
    DefaultMeans(m);
    SetEnvInv(m, s, DFL_ENV);
    SetEnvMeans(m, s, DFL_ENV);
  }

  lemma DefaultMeans(m: Machine)
    ensures EnvInv(m, DFL_ENV) && ViewEnv(m, DFL_ENV) == C99({}, {}, {})
  {
    assert GetMxcsr(DFL_ENV) == {7, 8, 9, 10, 11, 12};
  }

  // ---------------------------------------------------------------- non-stop mode

  /** Every exception is masked in both units. */
  predicate NonStop(m: Machine, s: Cpu) {
    FE_ALL_EXCEPT <= s.control && CpuInv(m, s)
  }

  /** The calls that cannot unmask an exception. */
  predicate Quiet(m: Machine, c: Call) {
    && ValidCall(c) && !c.Fesetenv? && !c.Feupdateenv?
    && (c.Feenableexcept? ==> c.mask * FE_ALL_EXCEPT == {})
    && (c.SseOp? ==> HasSse(m))
  }

  lemma QuietStep(m: Machine, p: Proc, c: Call)
    requires Inv(m, p) && NonStop(m, p.cpu) && Quiet(m, c)
    ensures Inv(m, Step(m, p, c).0) && NonStop(m, Step(m, p, c).0.cpu) && Step(m, p, c).1.Done?
  {
    StepKeepsInv(m, p, c);
    var (p', r) := Step(m, p, c);
    assert FE_ALL_EXCEPT <= p'.cpu.control;
    assert !Unmasked(p.cpu.control, p.cpu.status);
    assert !Unmasked(p'.cpu.control, p'.cpu.status);
  }

  /** Section 7.6.4.2: `feholdexcept` installs a non-stop mode. Whatever was enabled or
      pending before it, no run that leaves the masks alone faults afterwards, in either
      unit. */
  lemma {:induction false} QuietRun(m: Machine, p: Proc, calls: seq<Call>)
    requires Inv(m, p) && NonStop(m, p.cpu)
    requires forall c | c in calls :: Quiet(m, c)
    ensures Exec(m, p, calls).result.Done?
    ensures Inv(m, Exec(m, p, calls).proc) && NonStop(m, Exec(m, p, calls).proc.cpu)
    decreases |calls|
  {
    if calls != [] {
      QuietStep(m, p, calls[0]);
      QuietRun(m, Step(m, p, calls[0]).0, calls[1..]);
    }
  }

  lemma HoldIsNonStop(m: Machine, p: Proc, calls: seq<Call>)
    requires Inv(m, p) && forall c | c in calls :: Quiet(m, c)
    ensures Exec(m, p, [Feholdexcept] + calls).result.Done?
    ensures NonStop(m, Exec(m, p, [Feholdexcept] + calls).proc.cpu)
  {
    StepKeepsInv(m, p, Feholdexcept);
    ExecAppend(m, p, [Feholdexcept], calls);
    QuietRun(m, Step(m, p, Feholdexcept).0, calls);
  }

  /** The idiom of section 7.6.4.4: hold, compute, update. The caller's rounding mode
      and enabled exceptions come back, and its flags are joined by those of the
      computation. The update faults exactly when one of the joined flags that reach the
      x87 unit is enabled. */
  lemma HoldThenUpdate(m: Machine, p: Proc, calls: seq<Call>)
    requires Inv(m, p) && forall c | c in calls :: Quiet(m, c)
    ensures var mid := Exec(m, p, [Feholdexcept] + calls).proc;
            var end := Exec(m, p, [Feholdexcept] + calls + [Feupdateenv(|p.saved|)]);
            var raised := View(m, mid.cpu).flags;
            && View(m, end.proc.cpu) == View(m, p.cpu).(flags := View(m, p.cpu).flags + raised)
            && end.proc.cpu.control == p.cpu.control
            && end.result == if Unmasked(p.cpu.control, p.cpu.status + raised) then Trap(MathFault) else Done({})
  {
    HeldRun(m, p, calls);
    var mid := Exec(m, p, [Feholdexcept] + calls).proc;
    SavedInv(m, p.cpu);
    SavedMeans(m, p.cpu);
    UpdateMeans(m, mid.cpu, EnvOf(m, p.cpu));
    UpdateFaults(m, mid.cpu, p.cpu);
  }

  /** The shape of such a run: no fault before the update, which then loads what the
      hold stored. */
  lemma HeldRun(m: Machine, p: Proc, calls: seq<Call>)
    requires Inv(m, p) && forall c | c in calls :: Quiet(m, c)
    ensures var mid := Exec(m, p, [Feholdexcept] + calls).proc;
            var end := Exec(m, p, [Feholdexcept] + calls + [Feupdateenv(|p.saved|)]);
            && CpuInv(m, mid.cpu) && !Pending(mid.cpu)
            && end.proc.cpu == UpdateEnv(m, mid.cpu, EnvOf(m, p.cpu)).0
            && end.result == (var r := UpdateEnv(m, mid.cpu, EnvOf(m, p.cpu)).1; if r.Trap? then r else Done({}))
  {
    var hold, update := [Feholdexcept], Feupdateenv(|p.saved|);
    HoldIsNonStop(m, p, calls);
    var mid := Exec(m, p, hold + calls).proc;
    ExecThen(m, p, hold + calls, update);
    assert |p.saved| < |mid.saved| && mid.saved[|p.saved|] == EnvOf(m, p.cpu) by {
      ExecAppend(m, p, hold, calls);
      SavedOnlyGrows(m, Step(m, p, Feholdexcept).0, calls);
    }
  }

  lemma UpdateFaults(m: Machine, s: Cpu, saved: Cpu)
    requires CpuInv(m, s) && CpuInv(m, saved) && !Pending(s)
    ensures var (t, r) := UpdateEnv(m, s, EnvOf(m, saved));
            && t.control == saved.control
            && r == if Unmasked(saved.control, saved.status + View(m, s).flags) then Trap(MathFault) else Done({})
  {
    var e := EnvOf(m, saved);
    SavedInv(m, saved);
    SetEnvInv(m, Probe(m, s), e);
    var s' := SetEnv(m, Probe(m, s), e).0;
    var f := Flags(m, s) * FE_ALL_EXCEPT;
    var status := (s'.status - f) + (Lo16(f) * f);
    assert forall b | b in FE_ALL_EXCEPT :: b in status <==> b in saved.status + f;
  }

  // ---------------------------------------------------------------- feclearexcept

  /** Clearing `a` then `b` leaves the registers that clearing both at once leaves,
      stack fault apart: FNCLEX, which only the full set reaches, clears that too. */
  lemma ClearTwice(m: Machine, s: Cpu, a: Word32, b: Word32)
    requires CpuInv(m, s) && a <= FE_ALL_EXCEPT && b <= FE_ALL_EXCEPT
    ensures var t, u := ClearExcept(m, ClearExcept(m, s, a), b), ClearExcept(m, s, a + b);
            && t.(status := t.status - {6}) == u.(status := u.status - {6})
            && t.control == u.control == s.control
            && View(m, t) == View(m, u) == View(m, s).(flags := View(m, s).flags - a - b)
            && (t == u <==> !(6 in s.status && a + b == FE_ALL_EXCEPT && a != FE_ALL_EXCEPT && b != FE_ALL_EXCEPT))
  {
    var once := ClearExcept(m, s, a);
    var t, u := ClearExcept(m, once, b), ClearExcept(m, s, a + b);
    ClearInv(m, s, a);
    ClearMeans(m, s, a);
    ClearMeans(m, once, b);
    ClearMeans(m, s, a + b);
    assert (s.mxcsr - a) - b == s.mxcsr - (a + b);
    assert View(m, s).flags - (a + b) == View(m, s).flags - a - b;
    ClearedStatus(s, a, b);
  }

  /** The status word alone: what two clears leave, and when the stack fault tells
      them from one. */
  lemma ClearedStatus(s: Cpu, a: Word32, b: Word32)
    requires s.status == Settle(s.control, s.status) && a <= FE_ALL_EXCEPT && b <= FE_ALL_EXCEPT
    ensures var t, u := Cleared(s.control, Cleared(s.control, s.status, a), b), Cleared(s.control, s.status, a + b);
            && t - {6} == u - {6}
            && (t == u <==> !(6 in s.status && a + b == FE_ALL_EXCEPT && a != FE_ALL_EXCEPT && b != FE_ALL_EXCEPT))
  {}

  /** Such states are reached: an operation that faults the x87 stack, followed by two
      partial clears, leaves the stack fault that one full clear removes. A C program
      sees the same environment either way. */
  lemma StackFaultTells(m: Machine, p: Proc, op: Call, a: Word32)
    requires Inv(m, p) && !Pending(p.cpu) && op.X87Op? && 6 in op.raised
    requires {} != a < FE_ALL_EXCEPT
    ensures var twice := Exec(m, p, [op] + ([Feclearexcept(a)] + [Feclearexcept(FE_ALL_EXCEPT - a)]));
            var once := Exec(m, p, [op] + [Feclearexcept(FE_ALL_EXCEPT)]);
            && twice.result.Done? && once.result.Done?
            && 6 in twice.proc.cpu.status && 6 !in once.proc.cpu.status
            && ViewProc(m, twice.proc) == ViewProc(m, once.proc)
  {
    var b := FE_ALL_EXCEPT - a;
    assert a + b == FE_ALL_EXCEPT;
    StepKeepsInv(m, p, op);
    var p1 := Step(m, p, op).0;
    ExecFirst(m, p, op, [Feclearexcept(FE_ALL_EXCEPT)], p1);
    ExecClear(m, p1, FE_ALL_EXCEPT, p1.(cpu := ClearExcept(m, p1.cpu, FE_ALL_EXCEPT)));
    ExecFirst(m, p, op, [Feclearexcept(a)] + [Feclearexcept(b)], p1);
    var p2 := p1.(cpu := ClearExcept(m, p1.cpu, a));
    ExecFirst(m, p1, Feclearexcept(a), [Feclearexcept(b)], p2);
    ExecClear(m, p2, b, p2.(cpu := ClearExcept(m, p2.cpu, b)));
    FaultStays(m, p1.cpu, a, b);
  }

  lemma FaultStays(m: Machine, s: Cpu, a: Word32, b: Word32)
    requires CpuInv(m, s) && 6 in s.status
    requires a < FE_ALL_EXCEPT && b < FE_ALL_EXCEPT && a + b == FE_ALL_EXCEPT
    ensures var t, u := ClearExcept(m, ClearExcept(m, s, a), b), ClearExcept(m, s, FE_ALL_EXCEPT);
            6 in t.status && 6 !in u.status && View(m, t) == View(m, u)
  {
    ClearTwice(m, s, a, b);
  }

  lemma ExecClear(m: Machine, p: Proc, e: Word32, next: Proc)
    requires next == p.(cpu := ClearExcept(m, p.cpu, e))
    ensures Exec(m, p, [Feclearexcept(e)]).result.Done? && Exec(m, p, [Feclearexcept(e)]).proc == next
  {
    assert [Feclearexcept(e)] == [Feclearexcept(e)] + [];
    ExecFirst(m, p, Feclearexcept(e), [], next);
  }

  /** A run after its first call. */
  lemma ExecFirst(m: Machine, p: Proc, c: Call, rest: seq<Call>, next: Proc)
    requires Step(m, p, c).1.Done? && Step(m, p, c).0 == next
    ensures Exec(m, p, [c] + rest).result == Exec(m, next, rest).result
    ensures Exec(m, p, [c] + rest).proc == Exec(m, next, rest).proc
  {
    assert ([c] + rest)[1..] == rest;
  }

  // ---------------------------------------------------------------- rounding and masks

  /** An accepted `fesetround` changes the rounding field of each unit and nothing else;
      a rejected or faulting one changes nothing. */
  lemma SetRoundFrame(m: Machine, s: Cpu, r: Word32)
    requires CpuInv(m, s)
    ensures var (t, result) := SetRound(m, s, r);
            && (result == Done(ONES) <==> !(r <= ROUND_MASK))
            && (result == Done({}) ==> GetRound(t) == r)
            && (result != Done({}) ==> t == s)
            && t.control - ROUND_MASK == s.control - ROUND_MASK
            && t.mxcsr - {13, 14} == s.mxcsr - {13, 14}
            && t.status == s.status
  {}

  /** Setting the rounding mode just read is a no-op exactly when the units agree on it:
      this is where the assumption in `fegetround` matters. */
  lemma SetRoundOfGetRound(m: Machine, s: Cpu)
    requires Ok(m, s) && !Pending(s)
    ensures SameEnvironment(m, SetRound(m, s, GetRound(s)).0, s) <==>
            (HasSse(m) ==> forall b | b in ROUND_MASK :: b in s.control <==> b + SSE_ROUND_SHIFT in s.mxcsr)
  {}

  /** Handing the result of `fedisableexcept` to `feenableexcept` restores both units. */
  lemma EnableUndoesDisable(m: Machine, s: Cpu, mask: Word32)
    requires CpuInv(m, s) && !Pending(s)
    ensures var (t, r) := DisableExcept(m, s, mask);
            r.Done? && !Pending(t) && SameEnvironment(m, EnableExcept(m, t, r.value).0, s)
  {}

  /** Flags saved by `fegetexceptflag` come back through `fesetexceptflag` whatever
      happened between, and no other flag moves. */
  lemma ExceptFlagRoundTrip(m: Machine, s: Cpu, t: Cpu, e: Word32)
    requires CpuInv(m, s) && CpuInv(m, t) && e <= FE_ALL_EXCEPT
    ensures var f := Lo16(Flags(m, s) * e);
            var u := SetExceptFlag(m, t, f, e);
            && Flags(m, u) * e == Flags(m, s) * e
            && View(m, u).flags - e == View(m, t).flags - e
  {}

  // ---------------------------------------------------------------- faults

  /** The exact states in which a call is cut short by a math fault. */
  predicate MathFaults(m: Machine, p: Proc, c: Call) {
    var s := p.cpu;
    match c
    case Feraiseexcept(e) => Unmasked(s.control, s.status + Lo16(e))
    case Fesetround(r) => r <= ROUND_MASK && Unmasked(s.control, s.status)
    case Fesetenv(i) => i < |p.saved| && Unmasked(s.control, s.status)
    case Feupdateenv(i) =>
      i < |p.saved| &&
      (Unmasked(s.control, s.status) ||
       Unmasked(p.saved[i].control, p.saved[i].status + Lo16(View(m, s).flags)))
    case Feenableexcept(_) => Unmasked(s.control, s.status)
    case Fedisableexcept(_) => Unmasked(s.control, s.status)
    case X87Op(_, _, _, _) => Unmasked(s.control, s.status)
    case _ => false
  }

  lemma RaiseFaults(m: Machine, s: Cpu, e: Word32)
    requires e <= FE_ALL_EXCEPT
    ensures RaiseExcept(m, s, e).1 == Trap(MathFault) <==> Unmasked(s.control, s.status + Lo16(e))
  {}

  lemma FaultsExactly(m: Machine, p: Proc, c: Call)
    requires Inv(m, p) && ValidCall(c)
    ensures Step(m, p, c).1 == Trap(MathFault) <==> MathFaults(m, p, c)
  {
    var s := p.cpu;
    match c
    case Feraiseexcept(e) => RaiseFaults(m, s, e);
    case Fesetenv(i) => if i < |p.saved| { SetEnvInv(m, s, p.saved[i]); }
    case Feupdateenv(i) =>
      if i < |p.saved| {
        var e := p.saved[i];
        SetEnvInv(m, Probe(m, s), e);
        if !Pending(s) {
          var t := SetEnv(m, Probe(m, s), e).0;
          var f := Flags(m, s) * FE_ALL_EXCEPT;
          RaiseFaults(m, t, f);
          assert forall b | b in FE_ALL_EXCEPT :: b in t.status + Lo16(f) <==> b in e.status + Lo16(f);
        }
      }
    case _ =>
  }
}
