/** What every run keeps, and what every run means. */
module FenvTheorems {
  import opened Words
  import opened FenvModel
  import opened FenvRuns

  // ---------------------------------------------------------------- the words

  lemma RoundingAgrees(control: Word16, mxcsr: Word32, r: Word32, control': Word16, mxcsr': Word32)
    requires Agree(control, mxcsr) && r <= ROUND_MASK
    requires control' == (control - ROUND_MASK) + Lo16(r)
    requires mxcsr' == (mxcsr - Shl(ROUND_MASK, SSE_ROUND_SHIFT)) + Shl(r, SSE_ROUND_SHIFT)
    ensures Agree(control', mxcsr')
  {
    forall b | b in ROUND_MASK ensures b in control' <==> b + SSE_ROUND_SHIFT in mxcsr' {
      RoundedBits(control, mxcsr, r, b);
    }
    forall b | b in FE_ALL_EXCEPT ensures b in control' <==> b + SSE_EMASK_SHIFT in mxcsr' {
      OtherBits(mxcsr, r, b);
    }
  }

  lemma RoundedBits(control: Word16, mxcsr: Word32, r: Word32, b: nat)
    requires b in ROUND_MASK && r <= ROUND_MASK
    ensures b in (control - ROUND_MASK) + Lo16(r) <==> b in r
    ensures b + SSE_ROUND_SHIFT in (mxcsr - Shl(ROUND_MASK, SSE_ROUND_SHIFT)) + Shl(r, SSE_ROUND_SHIFT) <==> b in r
  {
    var c := b + SSE_ROUND_SHIFT;
    assert c in Shl(ROUND_MASK, SSE_ROUND_SHIFT);
    assert c in Shl(r, SSE_ROUND_SHIFT) <==> c - SSE_ROUND_SHIFT in r;
  }

  lemma OtherBits(mxcsr: Word32, r: Word32, b: nat)
    requires b in FE_ALL_EXCEPT && r <= ROUND_MASK
    ensures b + SSE_EMASK_SHIFT in (mxcsr - Shl(ROUND_MASK, SSE_ROUND_SHIFT)) + Shl(r, SSE_ROUND_SHIFT)
            <==> b + SSE_EMASK_SHIFT in mxcsr
  {
    var c := b + SSE_EMASK_SHIFT;
    assert c - SSE_ROUND_SHIFT !in ROUND_MASK;
    assert c !in Shl(ROUND_MASK, SSE_ROUND_SHIFT) && c !in Shl(r, SSE_ROUND_SHIFT);
  }

  /** MXCSR bits of a shifted set of exceptions. */
  lemma ShiftedMasks(k: Word32, b: nat)
    requires k <= FE_ALL_EXCEPT
    ensures b in Shl(k, SSE_EMASK_SHIFT) <==> 7 <= b < 13 && b - 7 in k
  {}

  /** The split packing of MXCSR in `fenv_t` is a round trip both ways. */
  lemma MxcsrPacking(e: Env, x: Word32)
    ensures GetMxcsr(SetMxcsr(e, x)) == x
    ensures SetMxcsr(SetMxcsr(e, x), GetMxcsr(e)) == e
  {}

  // ---------------------------------------------------------------- each function keeps the invariant

  lemma StoreInv(m: Machine, s: Cpu, x: Word32)
    requires s.status == Settle(s.control, s.status) && Loadable(m, s.mxcsr) && CacheOk(m, s)
    requires HasSse(m) ==> Loadable(m, x) && Agree(s.control, x)
    ensures CpuInv(m, StoreMxcsr(m, s, x))
  {}

  lemma ClearInv(m: Machine, s: Cpu, e: Word32)
    requires CpuInv(m, s) && e <= FE_ALL_EXCEPT
    ensures CpuInv(m, ClearExcept(m, s, e))
  {}

  lemma SetFlagInv(m: Machine, s: Cpu, f: Word16, e: Word32)
    requires CpuInv(m, s) && e <= FE_ALL_EXCEPT
    ensures CpuInv(m, SetExceptFlag(m, s, f, e))
  {}

  lemma SetRoundInv(m: Machine, s: Cpu, r: Word32)
    requires CpuInv(m, s)
    ensures CpuInv(m, SetRound(m, s, r).0)
  {
    if r <= ROUND_MASK && !Pending(s) {
      var x := (s.mxcsr - Shl(ROUND_MASK, SSE_ROUND_SHIFT)) + Shl(r, SSE_ROUND_SHIFT);
      var control := (s.control - ROUND_MASK) + Lo16(r);
      assert forall b | b in FE_ALL_EXCEPT :: b in control <==> b in s.control;
      if HasSse(m) {
        RoundingAgrees(s.control, s.mxcsr, r, control, x);
        forall b | b in Shl(r, SSE_ROUND_SHIFT) ensures b == 13 || b == 14 {
          assert b - 3 in ROUND_MASK;
        }
      }
      StoreInv(m, s.(control := control), x);
    }
  }

  lemma HoldInv(m: Machine, s: Cpu)
    requires CpuInv(m, s)
    ensures CpuInv(m, HoldExcept(m, s))
  {
    var x := (s.mxcsr - FE_ALL_EXCEPT) + Shl(FE_ALL_EXCEPT, SSE_EMASK_SHIFT);
    assert (s.status - CLEX) - SUMMARY == s.status - CLEX;
    if HasSse(m) {
      forall b: nat ensures b in Shl(FE_ALL_EXCEPT, SSE_EMASK_SHIFT) <==> 7 <= b < 13 {
        ShiftedMasks(FE_ALL_EXCEPT, b);
      }
    }
    StoreInv(m, s.(control := s.control + FE_ALL_EXCEPT, status := s.status - CLEX), x);
  }

  lemma MaskInv(m: Machine, s: Cpu, mask: Word32)
    requires CpuInv(m, s)
    ensures CpuInv(m, EnableExcept(m, s, mask).0) && CpuInv(m, DisableExcept(m, s, mask).0)
  {
    if !Pending(s) {
      var k := mask * FE_ALL_EXCEPT;
      if HasSse(m) {
        forall b | b in Shl(k, SSE_EMASK_SHIFT) ensures 7 <= b < 13 { ShiftedMasks(k, b); }
      }
      StoreInv(m, s.(control := s.control - k, status := Settle(s.control - k, s.status)),
               s.mxcsr - Shl(k, SSE_EMASK_SHIFT));
      StoreInv(m, s.(control := s.control + k, status := Settle(s.control + k, s.status)),
               s.mxcsr + Shl(k, SSE_EMASK_SHIFT));
    }
  }

  lemma SetEnvInv(m: Machine, s: Cpu, e: Env)
    requires Ok(m, s) && EnvInv(m, e)
    ensures CpuInv(m, s) || !Pending(s) ==> CpuInv(m, SetEnv(m, s, e).0)
    ensures SetEnv(m, s, e).1 == if Pending(s) then Trap(MathFault) else Done({})
  {}

  lemma SavedInv(m: Machine, s: Cpu)
    requires CpuInv(m, s)
    ensures EnvInv(m, EnvOf(m, s))
  {}

  lemma UpdateInv(m: Machine, s: Cpu, e: Env)
    requires CpuInv(m, s) && EnvInv(m, e)
    ensures CpuInv(m, UpdateEnv(m, s, e).0)
    ensures UpdateEnv(m, s, e).1 in {Done({}), Trap(MathFault)}
  {
    SetEnvInv(m, Probe(m, s), e);
    var (s', r) := SetEnv(m, Probe(m, s), e);
    if r.Done? {
      var f := Flags(m, s) * FE_ALL_EXCEPT;
      SetFlagInv(m, s', Lo16(f), f);
    }
  }

  lemma X87Inv(m: Machine, s: Cpu, c: Call)
    requires CpuInv(m, s) && c.X87Op?
    ensures CpuInv(m, X87(s, c).0)
  {}

  lemma SseInv(m: Machine, s: Cpu, raised: Word32)
    requires CpuInv(m, s)
    ensures CpuInv(m, Sse(m, s, raised).0)
  {}

  lemma StepCpuInv(m: Machine, p: Proc, c: Call)
    requires Inv(m, p) && ValidCall(c)
    ensures CpuInv(m, Step(m, p, c).0.cpu)
  {
    var s := p.cpu;
    match c
    case Feclearexcept(e) => ClearInv(m, s, e);
    case Fesetexceptflag(f, e) => SetFlagInv(m, s, f, e);
    case Feraiseexcept(e) => SetFlagInv(m, s, Lo16(e), e);
    case Fesetround(r) => SetRoundInv(m, s, r);
    case Feholdexcept => HoldInv(m, s);
    case Fesetenv(i) => if i < |p.saved| { SetEnvInv(m, s, p.saved[i]); }
    case Feupdateenv(i) => if i < |p.saved| { UpdateInv(m, s, p.saved[i]); }
    case Feenableexcept(k) => MaskInv(m, s, k);
    case Fedisableexcept(k) => MaskInv(m, s, k);
    case X87Op(_, _, _, _) => X87Inv(m, s, c);
    case SseOp(x) => SseInv(m, s, x);
    case _ =>
  }

  /** Two calls store an image, and no call changes one. */
  lemma StepSaves(m: Machine, p: Proc, c: Call)
    ensures Step(m, p, c).0.saved == p.saved + (if c.Fegetenv? || c.Feholdexcept? then [EnvOf(m, p.cpu)] else [])
  {}

  lemma AllSavedAppend(m: Machine, saved: seq<Env>, e: Env)
    requires AllSaved(m, saved) && EnvInv(m, e)
    ensures AllSaved(m, saved + [e])
  {}

  lemma StepFaults(m: Machine, p: Proc, c: Call)
    requires Inv(m, p)
    ensures Step(m, p, c).1 != Trap(GeneralProtection)
    ensures Step(m, p, c).1 == Trap(InvalidOpcode) ==> c.SseOp? && !HasSse(m)
  {
    match c
    case Fesetenv(i) => if i < |p.saved| { SetEnvInv(m, p.cpu, p.saved[i]); }
    case Feupdateenv(i) => if i < |p.saved| { UpdateInv(m, p.cpu, p.saved[i]); }
    case _ =>
  }

  /** Every step keeps the two units in agreement and every saved environment usable;
      no library call ever executes an MXCSR instruction the machine lacks or loads a
      reserved bit. */
  lemma StepKeepsInv(m: Machine, p: Proc, c: Call)
    requires Inv(m, p) && ValidCall(c)
    ensures Inv(m, Step(m, p, c).0)
    ensures Step(m, p, c).1 != Trap(GeneralProtection)
    ensures Step(m, p, c).1 == Trap(InvalidOpcode) ==> c.SseOp? && !HasSse(m)
  {
    StepCpuInv(m, p, c);
    SavedInv(m, p.cpu);
    AllSavedAppend(m, p.saved, EnvOf(m, p.cpu));
    StepSaves(m, p, c);
    StepFaults(m, p, c);
  }

  /** The invariant over a whole run, including one cut short by a fault. */
  lemma {:induction false} RunKeepsInv(m: Machine, p: Proc, calls: seq<Call>)
    requires Inv(m, p) && ValidCalls(calls)
    ensures Inv(m, Exec(m, p, calls).proc)
    ensures Exec(m, p, calls).result != Trap(GeneralProtection)
    ensures Exec(m, p, calls).result == Trap(InvalidOpcode) ==>
              !HasSse(m) && exists c | c in calls :: c.SseOp?
    decreases |calls|
  {
    if calls != [] {
      StepKeepsInv(m, p, calls[0]);
      if Step(m, p, calls[0]).1.Done? {
        RunKeepsInv(m, Step(m, p, calls[0]).0, calls[1..]);
      }
    }
  }

  /** What the comments in `fegetround` and `fegetexcept` assume: reading the x87 alone
      gives what reading MXCSR would. */
  lemma ReadingEitherUnit(m: Machine, s: Cpu)
    requires CpuInv(m, s) && HasSse(m)
    ensures GetRound(s) == Shr(s.mxcsr, SSE_ROUND_SHIFT) * ROUND_MASK
    ensures GetExcept(s) == FE_ALL_EXCEPT - Shr(s.mxcsr, SSE_EMASK_SHIFT)
  {}

  // ---------------------------------------------------------------- each function means what C says

  lemma ClearMeans(m: Machine, s: Cpu, e: Word32)
    requires CpuInv(m, s) && e <= FE_ALL_EXCEPT
    ensures View(m, ClearExcept(m, s, e)) == View(m, s).(flags := View(m, s).flags - e)
  {}

  lemma SetFlagMeans(m: Machine, s: Cpu, f: Word16, e: Word32)
    requires CpuInv(m, s) && e <= FE_ALL_EXCEPT
    ensures View(m, SetExceptFlag(m, s, f, e)) ==
              View(m, s).(flags := (View(m, s).flags - e) + (f * e))
  {}

  lemma SetRoundMeans(m: Machine, s: Cpu, r: Word32)
    requires CpuInv(m, s) && r <= ROUND_MASK && !Pending(s)
    ensures View(m, SetRound(m, s, r).0) == View(m, s).(round := r)
  {}

  lemma HoldMeans(m: Machine, s: Cpu)
    requires CpuInv(m, s)
    ensures View(m, HoldExcept(m, s)) == View(m, s).(enabled := {}, flags := {})
  {}

  lemma MaskMeans(m: Machine, s: Cpu, mask: Word32)
    requires CpuInv(m, s) && !Pending(s)
    ensures var v := View(m, s);
            && View(m, EnableExcept(m, s, mask).0) == v.(enabled := v.enabled + mask * FE_ALL_EXCEPT)
            && View(m, DisableExcept(m, s, mask).0) == v.(enabled := v.enabled - mask)
  {
    var k := mask * FE_ALL_EXCEPT;
    var x := Shl(k, SSE_EMASK_SHIFT);
    forall b | b in FE_ALL_EXCEPT ensures b !in x { ShiftedMasks(k, b); }
    assert FE_ALL_EXCEPT - (s.control - k) == View(m, s).enabled + k;
    assert FE_ALL_EXCEPT - (s.control + k) == View(m, s).enabled - mask;
    assert (s.control - k) * ROUND_MASK == s.control * ROUND_MASK == (s.control + k) * ROUND_MASK;
  }

  /** The BSD functions return the enabled exceptions with every higher bit set, so
      never what `fegetexcept` returns, though the same six bits. */
  lemma OldEnabledMeans(m: Machine, s: Cpu)
    requires CpuInv(m, s)
    ensures OldEnabled(m, s) == (ONES - FE_ALL_EXCEPT) + GetExcept(s)
    ensures OldEnabled(m, s) * FE_ALL_EXCEPT == GetExcept(s)
    ensures OldEnabled(m, s) != GetExcept(s)
  {
    assert HasSse(m) ==> forall b | b in FE_ALL_EXCEPT :: b in s.control <==> b in Shr(s.mxcsr, SSE_EMASK_SHIFT);
    assert 6 in OldEnabled(m, s);
  }

  lemma SetEnvMeans(m: Machine, s: Cpu, e: Env)
    requires EnvInv(m, e) && !Pending(s)
    ensures View(m, SetEnv(m, s, e).0) == ViewEnv(m, e)
  {}

  lemma SavedMeans(m: Machine, s: Cpu)
    requires CpuInv(m, s)
    ensures ViewEnv(m, EnvOf(m, s)) == View(m, s)
  {}

  lemma UpdateMeans(m: Machine, s: Cpu, e: Env)
    requires CpuInv(m, s) && EnvInv(m, e) && !Pending(s)
    ensures View(m, UpdateEnv(m, s, e).0) ==
              ViewEnv(m, e).(flags := ViewEnv(m, e).flags + View(m, s).flags)
  {
    var t := SetEnv(m, Probe(m, s), e).0;
    var f := Flags(m, s) * FE_ALL_EXCEPT;
    SetEnvInv(m, Probe(m, s), e);
    SetEnvMeans(m, Probe(m, s), e);
    SetFlagMeans(m, t, Lo16(f), f);
    assert (View(m, t).flags - f) + (Lo16(f) * f) == View(m, t).flags + f;
  }

  lemma X87Means(m: Machine, s: Cpu, c: Call)
    requires CpuInv(m, s) && c.X87Op? && X87(s, c).1.Done?
    ensures View(m, X87(s, c).0) == View(m, s).(flags := View(m, s).flags + Raised(c.raised) * FE_ALL_EXCEPT)
  {}

  lemma SseMeans(m: Machine, s: Cpu, raised: Word32)
    requires CpuInv(m, s) && Sse(m, s, raised).1.Done?
    ensures View(m, Sse(m, s, raised).0) == View(m, s).(flags := View(m, s).flags + raised * FE_ALL_EXCEPT)
  {}

  lemma ViewSavedAppend(m: Machine, saved: seq<Env>, e: Env)
    ensures ViewSaved(m, saved + [e]) == ViewSaved(m, saved) + [ViewEnv(m, e)]
  {}

  lemma StepNow(m: Machine, p: Proc, c: Call)
    requires Inv(m, p) && ValidCall(c) && Step(m, p, c).1.Done?
    ensures Meaning(ViewProc(m, p), c).0.now == View(m, Step(m, p, c).0.cpu)
  {
    var s := p.cpu;
    match c
    case Feclearexcept(e) => ClearMeans(m, s, e);
    case Fesetexceptflag(f, e) => SetFlagMeans(m, s, f, e);
    case Feraiseexcept(e) =>
      SetFlagMeans(m, s, Lo16(e), e);
      assert (View(m, s).flags - e) + (Lo16(e) * e) == View(m, s).flags + e;
    case Fesetround(r) => if r <= ROUND_MASK { SetRoundMeans(m, s, r); }
    case Feholdexcept => HoldMeans(m, s);
    case Fesetenv(i) => SetEnvMeans(m, s, p.saved[i]);
    case Feupdateenv(i) => UpdateMeans(m, s, p.saved[i]);
    case Feenableexcept(k) => MaskMeans(m, s, k);
    case Fedisableexcept(k) => MaskMeans(m, s, k);
    case X87Op(_, _, _, _) => X87Means(m, s, c);
    case SseOp(x) => SseMeans(m, s, x);
    case _ =>
  }

  lemma StepSaved(m: Machine, p: Proc, c: Call)
    requires Inv(m, p)
    ensures Meaning(ViewProc(m, p), c).0.saved == ViewSaved(m, Step(m, p, c).0.saved)
  {
    SavedMeans(m, p.cpu);
    ViewSavedAppend(m, p.saved, EnvOf(m, p.cpu));
  }

  lemma StepValue(m: Machine, p: Proc, c: Call)
    requires Inv(m, p) && ValidCall(c) && Step(m, p, c).1.Done?
    ensures Meaning(ViewProc(m, p), c).1 == Step(m, p, c).1.value
  {
    var s := p.cpu;
    match c
    case Fegetexceptflag(e) => assert Lo16(Flags(m, s) * e) == View(m, s).flags * e;
    case Fetestexcept(e) => assert Flags(m, s) * e == View(m, s).flags * e;
    case Feenableexcept(_) => OldEnabledMeans(m, s);
    case Fedisableexcept(_) => OldEnabledMeans(m, s);
    case Feupdateenv(i) => UpdateInv(m, s, p.saved[i]);
    case _ =>
  }

  /** A step that does not fault does, to the environment a C program sees, what the
      call means; it also returns what it should. */
  lemma StepMeans(m: Machine, p: Proc, c: Call)
    requires Inv(m, p) && ValidCall(c) && Step(m, p, c).1.Done?
    ensures Meaning(ViewProc(m, p), c) == (ViewProc(m, Step(m, p, c).0), Step(m, p, c).1.value)
  {
    StepNow(m, p, c);
    StepSaved(m, p, c);
    StepValue(m, p, c);
  }

  /** Refinement: a run of the two-unit, cached, bit-level library is a run of the one
      abstract environment, with the same values returned along the way. */
  lemma {:induction false} RunMeans(m: Machine, p: Proc, calls: seq<Call>)
    requires Inv(m, p) && ValidCalls(calls) && Exec(m, p, calls).result.Done?
    ensures Meanings(ViewProc(m, p), calls) ==
              (ViewProc(m, Exec(m, p, calls).proc), Exec(m, p, calls).values)
    decreases |calls|
  {
    if calls != [] {
      var (p', r) := Step(m, p, calls[0]);
      StepKeepsInv(m, p, calls[0]);
      StepMeans(m, p, calls[0]);
      RunMeans(m, p', calls[1..]);
    }
  }
}
