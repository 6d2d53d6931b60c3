/** What each call of `fenv.h` does to each unit, and what it leaves alone. */
module FenvFrames {
  import opened Words
  import opened FenvModel
  import opened FenvRuns
  import opened FenvTheorems
  import opened FenvLaws

  // ---------------------------------------------------------------- constants

  /** The values that `fenv.h` and `npx.h` write as numbers. */
  lemma ExceptMask(w: Word16)
    requires w == FE_ALL_EXCEPT
    ensures Number(w) == 0x3f
  {
    NumberOfLow(w, 0x3f, 0);
  }

  lemma RoundMask(w: Word16)
    requires w == ROUND_MASK
    ensures Number(w) == 0x0c00
  {
    NumberOfLow(w, 0, 0x0c);
  }

  lemma Features()
    ensures Number({CPUID_SSE}) == 0x200_0000 && Number({EFLAGS_ID}) == 0x20_0000
  {}

  /** Where MXCSR has the exception masks and the rounding mode. */
  lemma SseExceptMask(w: Word16)
    requires w == Shl(FE_ALL_EXCEPT, SSE_EMASK_SHIFT)
    ensures Number(w) == 0x1f80
  {
    assert w == {7, 8, 9, 10, 11, 12};
    NumberOfLow(w, 0x80, 0x1f);
  }

  lemma SseRoundMask(w: Word16)
    requires w == Shl(ROUND_MASK, SSE_ROUND_SHIFT)
    ensures Number(w) == 0x6000
  {
    assert w == {13, 14};
    NumberOfLow(w, 0, 0x60);
  }

  /** `__fe_dfl_env`. */
  lemma DefaultImage(e: Env)
    requires e == DFL_ENV
    ensures Number(e.control) == 0x127f && e.status == {} && e.mxcsrHi == {} && e.tag == ONES
    ensures e.other == [{}, {}, {}, {}, {}, {}, {}, ONES16]
  {
    NumberOfLow(e.control, 0x7f, 0x12);
  }

  lemma DefaultMxcsr(e: Env)
    requires e == DFL_ENV
    ensures Number(e.mxcsrLo) == 0x1f80
  {
    NumberOfLow(e.mxcsrLo, 0x80, 0x1f);
  }

  // ---------------------------------------------------------------- frames

  /** What most calls leave alone: precision control and the rest of the control word,
      condition codes, tags and pointers, denormals-are-zeros and flush-to-zero, and all
      of MXCSR where there is no SSE. */
  predicate Kept(m: Machine, s: Cpu, t: Cpu) {
    && t.control - {0, 1, 2, 3, 4, 5, 10, 11} == s.control - {0, 1, 2, 3, 4, 5, 10, 11}
    && t.status * {8, 9, 10, 11, 12, 13, 14} == s.status * {8, 9, 10, 11, 12, 13, 14}
    && t.tag == s.tag && t.pointers == s.pointers
    && (6 in t.mxcsr <==> 6 in s.mxcsr) && (15 in t.mxcsr <==> 15 in s.mxcsr)
    && (!HasSse(m) ==> t.mxcsr == s.mxcsr)
  }

  lemma ClearKeeps(m: Machine, s: Cpu, e: Word32)
    requires e <= FE_ALL_EXCEPT
    ensures var t := ClearExcept(m, s, e);
            Kept(m, s, t) && (6 in t.status <==> 6 in s.status && e != {0, 1, 2, 3, 4, 5})
  {}

  lemma SetFlagKeeps(m: Machine, s: Cpu, f: Word16, e: Word32)
    requires e <= FE_ALL_EXCEPT
    ensures var t := SetExceptFlag(m, s, f, e); Kept(m, s, t) && (6 in t.status <==> 6 in s.status)
  {}

  lemma SetRoundKeeps(m: Machine, s: Cpu, r: Word32)
    ensures var t := SetRound(m, s, r).0; Kept(m, s, t) && t.status == s.status
  {
    if r <= ROUND_MASK {
      assert 3 !in r && 12 !in r;
      assert 6 !in Shl(r, SSE_ROUND_SHIFT) && 15 !in Shl(r, SSE_ROUND_SHIFT);
      assert 6 !in Shl(ROUND_MASK, SSE_ROUND_SHIFT) && 15 !in Shl(ROUND_MASK, SSE_ROUND_SHIFT);
    }
  }

  lemma HoldKeeps(m: Machine, s: Cpu)
    ensures var t := HoldExcept(m, s); Kept(m, s, t) && 6 !in t.status
  {
    ShiftedMasks(FE_ALL_EXCEPT, 6);
    ShiftedMasks(FE_ALL_EXCEPT, 15);
  }

  lemma EnableKeeps(m: Machine, s: Cpu, mask: Word32)
    ensures var t := EnableExcept(m, s, mask).0; Kept(m, s, t) && (6 in t.status <==> 6 in s.status)
  {
    ShiftedMasks(mask * FE_ALL_EXCEPT, 6);
    ShiftedMasks(mask * FE_ALL_EXCEPT, 15);
  }

  lemma DisableKeeps(m: Machine, s: Cpu, mask: Word32)
    ensures var t := DisableExcept(m, s, mask).0; Kept(m, s, t) && (6 in t.status <==> 6 in s.status)
  {
    ShiftedMasks(mask * FE_ALL_EXCEPT, 6);
    ShiftedMasks(mask * FE_ALL_EXCEPT, 15);
  }

  lemma SseKeeps(m: Machine, s: Cpu, raised: Word32)
    ensures var t := Sse(m, s, raised).0; Kept(m, s, t) && t.status == s.status
  {}

  /** The frame of every call that does not load an x87 environment, whatever its outcome;
      the stack fault is left alone too, but by the two calls that run FNCLEX. */
  lemma StepFrame(m: Machine, p: Proc, c: Call)
    requires ValidCall(c) && !c.Fesetenv? && !c.Feupdateenv? && !c.X87Op?
    ensures var s, t := p.cpu, Step(m, p, c).0.cpu;
            && Kept(m, s, t)
            && (6 in t.status <==> 6 in s.status && !c.Feholdexcept? && c != Feclearexcept({0, 1, 2, 3, 4, 5}))
  {
    var s := p.cpu;
    match c
    case Feclearexcept(e) => ClearKeeps(m, s, e);
    case Fesetexceptflag(f, e) => SetFlagKeeps(m, s, f, e);
    case Feraiseexcept(e) => SetFlagKeeps(m, s, Lo16(e), e);
    case Fesetround(r) => SetRoundKeeps(m, s, r);
    case Feholdexcept => HoldKeeps(m, s);
    case Feenableexcept(k) => EnableKeeps(m, s, k);
    case Fedisableexcept(k) => DisableKeeps(m, s, k);
    case SseOp(x) => SseKeeps(m, s, x);
    case _ =>
  }

  lemma KeptTransitive(m: Machine, s: Cpu, t: Cpu, u: Cpu)
    requires Kept(m, s, t) && Kept(m, t, u)
    ensures Kept(m, s, u)
  {}

  /** Over a whole run, one cut short by a fault included: precision control, condition
      codes, tags and pointers only ever come from an image or from x87 arithmetic. */
  lemma {:induction false} RunFrame(m: Machine, p: Proc, calls: seq<Call>)
    requires ValidCalls(calls) && forall c | c in calls :: !c.Fesetenv? && !c.Feupdateenv? && !c.X87Op?
    ensures Kept(m, p.cpu, Exec(m, p, calls).proc.cpu)
    decreases |calls|
  {
    if calls != [] {
      var (p', r) := Step(m, p, calls[0]);
      StepFrame(m, p, calls[0]);
      if r.Done? {
        RunFrame(m, p', calls[1..]);
        KeptTransitive(m, p.cpu, p'.cpu, Exec(m, p', calls[1..]).proc.cpu);
      }
    }
  }

  /** What `feupdateenv` and `fesetenv` load, once they get past a pending exception: all
      of the image, but for the flags that the first one adds. */
  lemma LoadFrame(m: Machine, p: Proc, c: Call, i: nat)
    requires Inv(m, p) && i < |p.saved| && (c == Fesetenv(i) || c == Feupdateenv(i)) && !Pending(p.cpu)
    ensures Loaded(m, p.cpu, p.saved[i], Step(m, p, c).0.cpu)
  {
    var s, e := p.cpu, p.saved[i];
    SetEnvLoads(m, s, e);
    SetEnvLoads(m, Probe(m, s), e);
    var t := SetEnv(m, Probe(m, s), e).0;
    RaiseLoads(m, s, e, t, Flags(m, s) * FE_ALL_EXCEPT);
  }

  predicate Loaded(m: Machine, s: Cpu, e: Env, t: Cpu) {
    && t.control == e.control && t.tag == Lo16(e.tag) && t.pointers == e.other
    && t.status * {6, 8, 9, 10, 11, 12, 13, 14} == e.status * {6, 8, 9, 10, 11, 12, 13, 14}
    && (if HasSse(m) then t.mxcsr - FE_ALL_EXCEPT == GetMxcsr(e) - FE_ALL_EXCEPT else t.mxcsr == s.mxcsr)
  }

  lemma SetEnvLoads(m: Machine, s: Cpu, e: Env)
    requires EnvInv(m, e) && !Pending(s)
    ensures SetEnv(m, s, e).1.Done? && Loaded(m, s, e, SetEnv(m, s, e).0)
  {}

  lemma RaiseLoads(m: Machine, s: Cpu, e: Env, t: Cpu, f: Word32)
    requires Loaded(m, s, e, t) && f <= FE_ALL_EXCEPT
    ensures Loaded(m, s, e, RaiseExcept(m, t, f).0)
  {}

  /** A known cache is never touched, nor EFLAGS with it; an unknown one is filled with
      the truth, at the price of the ID flag. */
  lemma CacheFrame(m: Machine, p: Proc, c: Call)
    ensures Probed(m, p.cpu, Step(m, p, c).0.cpu)
  {
    ProbeOnce(m, p.cpu);
    StepProbes(m, p, c);
  }

  lemma ProbeOnce(m: Machine, s: Cpu)
    ensures Probed(m, s, Probe(m, s)) && Probe(m, Probe(m, s)) == Probe(m, s)
  {}

  /** The cache and EFLAGS as they were, or as one probe leaves them. */
  predicate ProbedOrNot(m: Machine, s: Cpu, t: Cpu) {
    || (t.hasSse == s.hasSse && t.eflags == s.eflags)
    || (t.hasSse == Probe(m, s).hasSse && t.eflags == Probe(m, s).eflags)
  }

  lemma UpdateProbes(m: Machine, s: Cpu, e: Env)
    ensures ProbedOrNot(m, s, UpdateEnv(m, s, e).0)
  {
    ProbeOnce(m, s);
  }

  lemma StepProbes(m: Machine, p: Proc, c: Call)
    ensures ProbedOrNot(m, p.cpu, Step(m, p, c).0.cpu)
  {
    if c.Feupdateenv? && c.slot < |p.saved| { UpdateProbes(m, p.cpu, p.saved[c.slot]); }
  }

  predicate Probed(m: Machine, s: Cpu, t: Cpu) {
    if t.hasSse == s.hasSse then t.eflags == s.eflags
    else
      && s.hasSse.Unknown? && t.hasSse == (if HasSse(m) then Yes else No)
      && t.eflags - {21} == s.eflags - {21} && (21 in t.eflags <==> (21 in s.eflags) != m.cpuid)
  }

  // ---------------------------------------------------------------- each unit by itself

  /** What a call makes of the flags of one unit, given those of the image it names and
      those of both units together: every call treats the two units alike. */
  function FlagsAfter(c: Call, flags: Word32, image: Word32, both: Word32): Word32 {
    match c
    case Feclearexcept(e) => flags - e
    case Fesetexceptflag(f, e) => (flags - e) + (f * e)
    case Feraiseexcept(e) => flags + e
    case Feholdexcept => {}
    case Fesetenv(_) => image
    case Feupdateenv(_) => image + both
    case _ => flags
  }

  function ImageOf(p: Proc, c: Call): Env {
    if (c.Fesetenv? || c.Feupdateenv?) && c.slot < |p.saved| then p.saved[c.slot] else DFL_ENV
  }

  lemma ClearFlags(m: Machine, s: Cpu, e: Word32)
    requires e <= FE_ALL_EXCEPT
    ensures var t := ClearExcept(m, s, e);
            && t.status * FE_ALL_EXCEPT == s.status * FE_ALL_EXCEPT - e
            && (HasSse(m) ==> t.mxcsr * FE_ALL_EXCEPT == s.mxcsr * FE_ALL_EXCEPT - e)
  {}

  lemma SetFlags(m: Machine, s: Cpu, f: Word16, e: Word32)
    requires e <= FE_ALL_EXCEPT
    ensures var t := SetExceptFlag(m, s, f, e);
            && t.status * FE_ALL_EXCEPT == (s.status * FE_ALL_EXCEPT - e) + (f * e)
            && (HasSse(m) ==> t.mxcsr * FE_ALL_EXCEPT == (s.mxcsr * FE_ALL_EXCEPT - e) + (f * e))
  {}

  lemma RaiseFlags(m: Machine, s: Cpu, e: Word32)
    requires e <= FE_ALL_EXCEPT
    ensures var t := RaiseExcept(m, s, e).0;
            && t.status * FE_ALL_EXCEPT == s.status * FE_ALL_EXCEPT + e
            && (HasSse(m) ==> t.mxcsr * FE_ALL_EXCEPT == s.mxcsr * FE_ALL_EXCEPT + e)
  {
    SetFlags(m, s, Lo16(e), e);
  }

  lemma LoadFlags(m: Machine, s: Cpu, e: Env)
    requires SetEnv(m, s, e).1.Done?
    ensures var t := SetEnv(m, s, e).0;
            && t.status * FE_ALL_EXCEPT == e.status * FE_ALL_EXCEPT
            && (HasSse(m) ==> t.mxcsr * FE_ALL_EXCEPT == GetMxcsr(e) * FE_ALL_EXCEPT)
  {}

  lemma UpdateFlags(m: Machine, s: Cpu, e: Env)
    requires UpdateEnv(m, s, e).1.Done?
    ensures var t, both := UpdateEnv(m, s, e).0, View(m, s).flags;
            && t.status * FE_ALL_EXCEPT == e.status * FE_ALL_EXCEPT + both
            && (HasSse(m) ==> t.mxcsr * FE_ALL_EXCEPT == GetMxcsr(e) * FE_ALL_EXCEPT + both)
  {
    LoadFlags(m, Probe(m, s), e);
    RaiseFlags(m, SetEnv(m, Probe(m, s), e).0, Flags(m, s) * FE_ALL_EXCEPT);
  }

  lemma HoldFlags(m: Machine, s: Cpu)
    ensures var t := HoldExcept(m, s);
            t.status * FE_ALL_EXCEPT == {} && (HasSse(m) ==> t.mxcsr * FE_ALL_EXCEPT == {})
  {
    forall b | b in FE_ALL_EXCEPT ensures b !in Shl(FE_ALL_EXCEPT, SSE_EMASK_SHIFT) {
      ShiftedMasks(FE_ALL_EXCEPT, b);
    }
  }

  lemma RoundFlags(m: Machine, s: Cpu, r: Word32)
    ensures SameFlags(m, s, SetRound(m, s, r).0)
  {}

  lemma MaskFlags(m: Machine, s: Cpu, k: Word32)
    ensures SameFlags(m, s, EnableExcept(m, s, k).0) && SameFlags(m, s, DisableExcept(m, s, k).0)
  {
    forall b | b in FE_ALL_EXCEPT ensures b !in Shl(k * FE_ALL_EXCEPT, SSE_EMASK_SHIFT) {
      ShiftedMasks(k * FE_ALL_EXCEPT, b);
    }
  }

  predicate SameFlags(m: Machine, s: Cpu, t: Cpu) {
    && t.status * FE_ALL_EXCEPT == s.status * FE_ALL_EXCEPT
    && (HasSse(m) ==> t.mxcsr * FE_ALL_EXCEPT == s.mxcsr * FE_ALL_EXCEPT)
  }

  lemma UnitFlags(m: Machine, p: Proc, c: Call)
    requires ValidCall(c) && !c.X87Op? && !c.SseOp? && (Step(m, p, c).1.Done? || c.Feraiseexcept?)
    ensures var s, t, e, both := p.cpu, Step(m, p, c).0.cpu, ImageOf(p, c), View(m, p.cpu).flags;
            && t.status * FE_ALL_EXCEPT == FlagsAfter(c, s.status * FE_ALL_EXCEPT, e.status * FE_ALL_EXCEPT, both)
            && (HasSse(m) ==>
                  t.mxcsr * FE_ALL_EXCEPT ==
                  FlagsAfter(c, s.mxcsr * FE_ALL_EXCEPT, GetMxcsr(e) * FE_ALL_EXCEPT, both))
  {
    var s := p.cpu;
    match c
    case Feclearexcept(e) => ClearFlags(m, s, e);
    case Fesetexceptflag(f, e) => SetFlags(m, s, f, e);
    case Feraiseexcept(e) => RaiseFlags(m, s, e);
    case Feholdexcept => HoldFlags(m, s);
    case Fesetenv(i) => LoadFlags(m, s, p.saved[i]);
    case Feupdateenv(i) => UpdateFlags(m, s, p.saved[i]);
    case Fesetround(r) => RoundFlags(m, s, r);
    case Feenableexcept(k) => MaskFlags(m, s, k);
    case Fedisableexcept(k) => MaskFlags(m, s, k);
    case _ =>
  }

  /** A call that a math fault cuts short has changed nothing, unless it is the call that
      raised the exception. */
  lemma FaultKeeps(m: Machine, p: Proc, c: Call)
    requires Inv(m, p) && Step(m, p, c).1 == Trap(MathFault)
    requires !c.Feraiseexcept? && (c.Feupdateenv? ==> Pending(p.cpu))
    ensures SameEnvironment(m, Step(m, p, c).0.cpu, p.cpu)
  {
    match c
    case Fesetenv(i) => SetEnvInv(m, p.cpu, p.saved[i]);
    case Feupdateenv(i) => SetEnvInv(m, Probe(m, p.cpu), p.saved[i]);
    case _ =>
  }
}
